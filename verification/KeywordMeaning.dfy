/**
 What a schema document means, keyword by keyword: a place accepts a value if and only if every keyword that stands there
 does, where keywords with other schemas ask for what the places of these accept.
 */
module KeywordMeaning {
  import opened Options
  import opened Json
  import opened Encodings
  import opened Document
  import opened PointerAccess
  import opened SchemaCompile
  import opened Schema
  import opened SchemaGraph
  import opened SchemaCycles
  import opened SchemaKeywords

  // ------------------------------------------------------------ one step along references

  /** What a schema means where that is defined: where all that it reaches ends. */
  ghost predicate Accepted(g: Graph, r: SchemaRef, t: Tree) {
    AllEnd(g, r) && MeansFrom(g, r, t)
  }

  ghost predicate CombinedFrom(g: Graph, s: Shape, t: Tree) {
    && (forall i :: 0 <= i < |s.allOf| ==> Accepted(g, s.allOf[i], t))
    && (s.anyOf != [] ==> exists i :: 0 <= i < |s.anyOf| && Accepted(g, s.anyOf[i], t))
    && (s.oneOf != [] ==> OneFrom(g, s.oneOf, t))
    && (s.negated.Some? ==> !Accepted(g, s.negated.value, t))
  }

  ghost predicate OneFrom(g: Graph, refs: seq<SchemaRef>, t: Tree) {
    exists i :: 0 <= i < |refs| && Accepted(g, refs[i], t) && forall j :: 0 <= j < |refs| && Accepted(g, refs[j], t) ==> j == i
  }

  ghost predicate OwnFrom(g: Graph, s: Shape, t: Tree) {
    var k := s.scalar;
    match t
    case Leaf(e) => IsScalar(e) && ScalarHolds(k, e)
    case Arr(ts) =>
      && ArrayType in k.types && k.minItems <= |ts| && AtMost(|ts|, k.maxItems)
      && forall i :: 0 <= i < |ts| ==> ItemRef(s, i).Some? && Accepted(g, ItemRef(s, i).value, ts[i])
    case Obj(ms) =>
      && ObjectType in k.types && k.minProperties <= |ms| && AtMost(|ms|, k.maxProperties) && NamesRequired(g, s, ms)
      && forall i :: 0 <= i < |ms| ==> MemberRef(s, ms[i].name).Some? && Accepted(g, MemberRef(s, ms[i].name).value, ms[i].tree)
  }

  lemma {:induction false} AcceptedInPart(g: Graph, loc: Loc, r: SchemaRef, t: Tree)
    requires AllEnd(g, At(loc)) && (RefersTo(g(loc), r) || r.Typeless?)
    ensures Guarded(GraphFrom(g, At(loc)), DepthRank(g))
    ensures AllEnd(g, r) && (Accepted(g, r, t) <==> Means(GraphFrom(g, At(loc)), DepthRank(g), r, t))
  {
    hide Reached, RefersTo, Means, Guarded, Closed;
    var root := At(loc);
    var live, h := Reached(g, root), GraphFrom(g, root);
    RankExactlyWhen(g, root);
    PartAgrees(g, root);
    ReachedIsClosed(g, root);
    if r.At? {
      ReferredIsAlive(g, live, loc, r);
    }
    ReachedSame(g, h, live, r);
    MeaningIsOne(h, DepthRank(g), r, t);
    MeansFromSame(g, h, live, r, t);
  }

  lemma {:induction false} OwnInPart(g: Graph, loc: Loc, t: Tree)
    requires AllEnd(g, At(loc)) && Guarded(GraphFrom(g, At(loc)), DepthRank(g)) && GraphFrom(g, At(loc))(loc) == g(loc)
    ensures MeansOwn(GraphFrom(g, At(loc)), DepthRank(g), loc, t) <==> OwnFrom(g, g(loc), t)
  {
    hide Reached, RefersTo, Means, Guarded, Closed, ScalarHolds, ItemRef, MemberRef, NamesRequired, AtMost, Accepted, GraphFrom, DepthRank;
    var s := g(loc);
    match t
    case Leaf(_) =>
    case Arr(ts) =>
      forall i | 0 <= i < |ts| && ItemRef(s, i).Some?
        ensures Accepted(g, ItemRef(s, i).value, ts[i]) <==> Means(GraphFrom(g, At(loc)), DepthRank(g), ItemRef(s, i).value, ts[i])
      {
        ItemIsReferred(s, i);
        AcceptedInPart(g, loc, ItemRef(s, i).value, ts[i]);
      }
    case Obj(ms) =>
      ReachedIsClosed(g, At(loc));
      PartAgrees(g, At(loc));
      NamesSame(g, GraphFrom(g, At(loc)), Reached(g, At(loc)), loc, ms);
      forall i | 0 <= i < |ms| && MemberRef(s, ms[i].name).Some?
        ensures Accepted(g, MemberRef(s, ms[i].name).value, ms[i].tree)
           <==> Means(GraphFrom(g, At(loc)), DepthRank(g), MemberRef(s, ms[i].name).value, ms[i].tree)
      {
        MemberIsReferred(s, ms[i].name);
        AcceptedInPart(g, loc, MemberRef(s, ms[i].name).value, ms[i].tree);
      }
  }

  lemma {:induction false} CombinedInPart(g: Graph, loc: Loc, t: Tree)
    requires AllEnd(g, At(loc)) && Guarded(GraphFrom(g, At(loc)), DepthRank(g)) && GraphFrom(g, At(loc))(loc) == g(loc)
    ensures MeansCombined(GraphFrom(g, At(loc)), DepthRank(g), loc, t) <==> CombinedFrom(g, g(loc), t)
  {
    hide Reached, RefersTo, Means, Guarded, Closed, Accepted, GraphFrom, DepthRank, AllMean, AnyMean, OneMean;
    var s, n := g(loc), 1 + DepthRank(g)(loc);
    assert LeadsDown(GraphFrom(g, At(loc)), DepthRank(g), loc) by { GuardedThere(GraphFrom(g, At(loc)), DepthRank(g), loc); }
    CombiningIsReferred(s);
    ListInPart(g, loc, s.allOf, n, t);
    ListInPart(g, loc, s.anyOf, n, t);
    ListInPart(g, loc, s.oneOf, n, t);
    if s.negated.Some? {
      AcceptedInPart(g, loc, s.negated.value, t);
    }
  }

  lemma {:induction false} ListInPart(g: Graph, loc: Loc, refs: seq<SchemaRef>, n: nat, t: Tree)
    requires AllEnd(g, At(loc)) && Guarded(GraphFrom(g, At(loc)), DepthRank(g)) && AllBelow(DepthRank(g), refs, n)
    requires forall i :: 0 <= i < |refs| ==> RefersTo(g(loc), refs[i])
    ensures AllMean(GraphFrom(g, At(loc)), DepthRank(g), refs, n, t) <==> forall i :: 0 <= i < |refs| ==> Accepted(g, refs[i], t)
    ensures AnyMean(GraphFrom(g, At(loc)), DepthRank(g), refs, n, t) <==> exists i :: 0 <= i < |refs| && Accepted(g, refs[i], t)
    ensures OneMean(GraphFrom(g, At(loc)), DepthRank(g), refs, n, t) <==> OneFrom(g, refs, t)
  {
    hide Reached, RefersTo, Means, Guarded, Accepted, GraphFrom, DepthRank;
    forall i | 0 <= i < |refs| ensures Accepted(g, refs[i], t) <==> Means(GraphFrom(g, At(loc)), DepthRank(g), refs[i], t) {
      AcceptedInPart(g, loc, refs[i], t);
    }
  }

  /** What a place means, by what the schemas mean to which it refers. */
  lemma {:induction false} AcceptedUnfolds(g: Graph, loc: Loc, t: Tree)
    requires AllEnd(g, At(loc))
    ensures Accepted(g, At(loc), t) <==> OwnFrom(g, g(loc), t) && CombinedFrom(g, g(loc), t)
  {
    hide Reached, RefersTo, Guarded, MeansOwn, MeansCombined, OwnFrom, CombinedFrom, DepthRank;
    var root := At(loc);
    AcceptedInPart(g, loc, Typeless, t);
    ReachedIsClosed(g, root);
    assert GraphFrom(g, root)(loc) == g(loc);
    OwnInPart(g, loc, t);
    CombinedInPart(g, loc, t);
  }

  // ------------------------------------------------------------ keywords without other schemas

  predicate IsInteger(e: Event) {
    e.Int? || e.Uint? || e.Int64? || e.Uint64?
  }

  /** The values of a type, by its name. */
  predicate IsOfType(t: Tree, name: Bytes) {
    || (name == Ascii("null") && t == Leaf(Null))
    || (name == Ascii("boolean") && t.Leaf? && t.e.Bool?)
    || (name == Ascii("object") && t.Obj?)
    || (name == Ascii("array") && t.Arr?)
    || (name == Ascii("string") && t.Leaf? && t.e.String?)
    || (name == Ascii("integer") && t.Leaf? && IsInteger(t.e))
    || (name == Ascii("number") && t.Leaf? && (IsInteger(t.e) || t.e.Double?))
  }

  /** One type, or one of several. */
  predicate TypeAllows(v: Option<Value>, t: Tree) {
    match v
    case None => true
    case Some(VString(name)) => IsOfType(t, name)
    case Some(VArray(es)) => exists i :: 0 <= i < |es| && es[i].VString? && IsOfType(t, es[i].s)
    case _ => false
  }

  /** A limit from below; one that is negative or does not fit 32 bits is none. */
  predicate AtLeast(v: Option<Value>, n: nat) {
    v.Some? && v.value.VInt? && v.value.n <= 0xFFFF_FFFF ==> n >= v.value.n
  }

  /** A limit from above; one that is negative or does not fit 32 bits is none. */
  predicate NoMoreThan(v: Option<Value>, n: nat) {
    v.Some? && v.value.VInt? && 0 <= v.value.n <= 0xFFFF_FFFF ==> n <= v.value.n
  }

  predicate IsTrue(v: Option<Value>) {
    v == Some(VBool(true))
  }

  /** The bounds on an integer; where one of them is a floating-point number the comparison is `floating`. */
  predicate IntegerAllowed(ms: seq<Member>, floating: Floating, n: int) {
    && (match Keyword(ms, "minimum")
        case Some(VInt(b)) => n > b || (n == b && !IsTrue(Keyword(ms, "exclusiveMinimum")))
        case _ => true)
    && (match Keyword(ms, "maximum")
        case Some(VInt(b)) => n < b || (n == b && !IsTrue(Keyword(ms, "exclusiveMaximum")))
        case _ => true)
    && (IsFloating(Keyword(ms, "minimum")) || IsFloating(Keyword(ms, "maximum")) ==> floating.integers(n))
  }

  /** Any bound takes a floating-point number to a comparison that is `floating`. */
  predicate DoubleAllowed(ms: seq<Member>, floating: Floating, lexeme: Bytes) {
    IsNumber(Keyword(ms, "minimum")) || IsNumber(Keyword(ms, "maximum")) ==> floating.doubles(lexeme)
  }

  predicate IsNumber(v: Option<Value>) {
    v.Some? && (v.value.VInt? || v.value.VDouble?)
  }

  predicate IsFloating(v: Option<Value>) {
    v.Some? && v.value.VDouble?
  }

  /** The length of a string is the number of scalar values that it encodes. */
  ghost predicate LengthAllowed(ms: seq<Member>, text: Bytes) {
    forall cs | AllScalar(cs) && Utf8Text(cs) == text ::
      AtLeast(Keyword(ms, "minLength"), |cs|) && NoMoreThan(Keyword(ms, "maxLength"), |cs|)
  }

  /** What the keywords without other schemas allow. */
  ghost predicate ScalarsAllow(ms: seq<Member>, floating: Floating, t: Tree) {
    && TypeAllows(Keyword(ms, "type"), t)
    && match t
       case Leaf(e) =>
         && (IsInteger(e) ==> IntegerAllowed(ms, floating, e.i))
         && (e.Double? ==> DoubleAllowed(ms, floating, e.lexeme))
         && (e.String? ==> LengthAllowed(ms, e.s))
       case Arr(ts) => AtLeast(Keyword(ms, "minItems"), |ts|) && NoMoreThan(Keyword(ms, "maxItems"), |ts|)
       case Obj(ns) => AtLeast(Keyword(ms, "minProperties"), |ns|) && NoMoreThan(Keyword(ms, "maxProperties"), |ns|)
  }

  /** The same, as the compiled schema has it. */
  predicate ScalarPart(k: Schema, t: Tree) {
    match t
    case Leaf(e) => IsScalar(e) && ScalarHolds(k, e)
    case Arr(ts) => ArrayType in k.types && k.minItems <= |ts| && AtMost(|ts|, k.maxItems)
    case Obj(ns) => ObjectType in k.types && k.minProperties <= |ns| && AtMost(|ns|, k.maxProperties)
  }

  /** The type of a value is among the types of a schema. */
  predicate HasType(types: set<SimpleType>, t: Tree) {
    match t
    case Arr(_) => ArrayType in types
    case Obj(_) => ObjectType in types
    case Leaf(Null) => NullType in types
    case Leaf(Bool(_)) => BooleanType in types
    case Leaf(String(_)) => StringType in types
    case Leaf(Double(_)) => NumberType in types
    case Leaf(e) => IsInteger(e) && (IntegerType in types || NumberType in types)
  }

  lemma {:induction false} TypeNamesDiffer()
    ensures |Ascii("null")| == 4 && |Ascii("array")| == 5
    ensures |Ascii("boolean")| == |Ascii("integer")| == 7 && Ascii("boolean")[0] != Ascii("integer")[0]
    ensures |Ascii("object")| == |Ascii("string")| == |Ascii("number")| == 6
    ensures Ascii("object")[0] == 0x6F && Ascii("string")[0] == 0x73 && Ascii("number")[0] == 0x6E
  {
  }

  lemma {:induction false} TypeNamedExactly(name: Bytes, t: Tree)
    ensures HasType(TypeNamed(name), t) <==> IsOfType(t, name)
  {
    hide Ascii;
    TypeNamesDiffer();
  }

  lemma {:induction false} TypesNamedExactly(es: seq<Value>, t: Tree)
    ensures HasType(TypesNamed(es), t) <==> exists i :: 0 <= i < |es| && es[i].VString? && IsOfType(t, es[i].s)
  {
    hide TypeNamed, IsOfType;
    if es != [] {
      TypesNamedExactly(es[1..], t);
      assert HasType(TypesNamed(es), t) <==> (es[0].VString? && HasType(TypeNamed(es[0].s), t)) || HasType(TypesNamed(es[1..]), t);
      if es[0].VString? {
        TypeNamedExactly(es[0].s, t);
      }
      if i :| 0 <= i < |es| && es[i].VString? && IsOfType(t, es[i].s) && i > 0 {
        assert es[1..][i - 1] == es[i];
      }
    }
  }

  lemma {:induction false} TypesExactly(v: Option<Value>, t: Tree)
    requires WellFormed(t)
    ensures HasType(TypesOf(v), t) <==> TypeAllows(v, t)
  {
    hide TypeNamed, IsOfType, TypesNamed;
    match v
    case Some(VString(name)) => TypeNamedExactly(name, t);
    case Some(VArray(es)) => TypesNamedExactly(es, t);
    case _ =>
  }

  lemma {:induction false} LengthExactly(ms: seq<Member>, floating: Floating, text: Bytes)
    ensures LengthHolds(ScalarKeywords(ms, floating), text) <==> LengthAllowed(ms, text)
  {
    hide Keyword, CodePoints, TypesOf, BoundOf, FlagOf, Utf8Text;
    CodePointsExactly(text);
  }

  lemma {:induction false} BoundsExactly(ms: seq<Member>, floating: Floating, n: int)
    ensures WithinBounds(ScalarKeywords(ms, floating), n) <==> IntegerAllowed(ms, floating, n)
  {
    hide Keyword, TypesOf, LeastOf, CountOf;
  }

  lemma {:induction false} DoublesExactly(ms: seq<Member>, floating: Floating, lexeme: Bytes)
    ensures ScalarKeywords(ms, floating).floating.doubles(lexeme) <==> DoubleAllowed(ms, floating, lexeme)
  {
    hide Keyword, TypesOf, LeastOf, CountOf;
  }

  lemma {:induction false} ScalarsExactly(ms: seq<Member>, floating: Floating, t: Tree)
    requires WellFormed(t)
    ensures ScalarPart(ScalarKeywords(ms, floating), t) <==> ScalarsAllow(ms, floating, t)
  {
    hide Keyword, TypesOf, TypeAllows, BoundOf, FlagOf, LengthAllowed, LengthHolds, WithinBounds, IntegerAllowed, DoubleAllowed;
    TypesExactly(Keyword(ms, "type"), t);
    if t.Leaf? && t.e.String? {
      LengthExactly(ms, floating, t.e.s);
    } else if t.Leaf? && IsInteger(t.e) {
      BoundsExactly(ms, floating, t.e.i);
    } else if t.Leaf? && t.e.Double? {
      DoublesExactly(ms, floating, t.e.lexeme);
    }
  }

  // ------------------------------------------------------------ keywords with other schemas

  /** A place of the document accepts a value: what it means is defined, and the value is so. */
  ghost predicate Accepts(doc: Doc, floating: Loc -> Floating, loc: Loc, t: Tree) {
    Accepted(GraphOf(doc, floating), doc.Meaning(loc), t)
  }

  function AtKeyword(loc: Loc, keyword: string): Loc {
    loc + [NameToken0(Ascii(keyword))]
  }

  function AtElement(loc: Loc, keyword: string, i: nat): Loc {
    AtKeyword(loc, keyword) + [IndexToken(i)]
  }

  function AtMember(loc: Loc, keyword: string, name: Bytes): Loc {
    AtKeyword(loc, keyword) + [NameToken0(name)]
  }

  /** The places of the array under a keyword: none if there is no array. */
  function ListUnder(loc: Loc, ms: seq<Member>, keyword: string): seq<Loc> {
    match Keyword(ms, keyword)
    case Some(VArray(es)) => seq(|es|, i requires 0 <= i < |es| => AtElement(loc, keyword, i))
    case _ => []
  }

  /** All of, any of, exactly one of, and not. */
  ghost predicate CombinationsAllow(doc: Doc, floating: Loc -> Floating, loc: Loc, ms: seq<Member>, t: Tree) {
    var all, any, one := ListUnder(loc, ms, "allOf"), ListUnder(loc, ms, "anyOf"), ListUnder(loc, ms, "oneOf");
    && (forall i :: 0 <= i < |all| ==> Accepts(doc, floating, all[i], t))
    && (any != [] ==> exists i :: 0 <= i < |any| && Accepts(doc, floating, any[i], t))
    && (one != [] ==> ExactlyOne(doc, floating, one, t))
    && (Keyword(ms, "not").Some? ==> !Accepts(doc, floating, AtKeyword(loc, "not"), t))
  }

  ghost predicate ExactlyOne(doc: Doc, floating: Loc -> Floating, locs: seq<Loc>, t: Tree) {
    exists i :: 0 <= i < |locs| && Accepts(doc, floating, locs[i], t)
                && forall j :: 0 <= j < |locs| && Accepts(doc, floating, locs[j], t) ==> j == i
  }

  /** `additionalItems` or `additionalProperties`: a schema, or whether there may be any. */
  ghost predicate AdditionalAllows(doc: Doc, floating: Loc -> Floating, loc: Loc, ms: seq<Member>, keyword: string, t: Tree) {
    match Keyword(ms, keyword)
    case Some(VObject(_)) => Accepts(doc, floating, AtKeyword(loc, keyword), t)
    case Some(VBool(b)) => b
    case _ => true
  }

  /** `items` is one schema for all elements or a list of schemas for the first ones; an empty list is none. */
  ghost predicate ElementAllowed(doc: Doc, floating: Loc -> Floating, loc: Loc, ms: seq<Member>, i: nat, t: Tree) {
    match Keyword(ms, "items")
    case Some(VObject(_)) => Accepts(doc, floating, AtKeyword(loc, "items"), t)
    case Some(VArray(es)) =>
      if i < |es| then Accepts(doc, floating, AtElement(loc, "items", i), t)
      else es != [] ==> AdditionalAllows(doc, floating, loc, ms, "additionalItems", t)
    case _ => true
  }

  predicate Declares(ms: seq<Member>, name: Bytes) {
    match Keyword(ms, "properties")
    case Some(VObject(qs)) => HasName(qs, name)
    case _ => false
  }

  predicate Requires(ms: seq<Member>, name: Bytes) {
    match Keyword(ms, "required")
    case Some(VArray(es)) => VString(name) in es
    case _ => false
  }

  /** A member is for the schema under its name in `properties`, or for `additionalProperties`; a name that is only
      required is for none. */
  ghost predicate MemberAllowed(doc: Doc, floating: Loc -> Floating, loc: Loc, ms: seq<Member>, m: TreeMember) {
    if Declares(ms, m.name) then Accepts(doc, floating, AtMember(loc, "properties", m.name), m.tree)
    else Requires(ms, m.name) || AdditionalAllows(doc, floating, loc, ms, "additionalProperties", m.tree)
  }

  /** The schema of a place has a non-empty string for its default. */
  ghost predicate HasDefault(doc: Doc, loc: Loc) {
    match doc.Meaning(loc)
    case Typeless => false
    case At(end) =>
      match Get(doc.root, end)
      case Some(VObject(qs)) => (match Keyword(qs, "default") case Some(VString(s)) => s != [] case _ => false)
      case _ => false
  }

  /** Every required name is there, or its schema has a default. */
  ghost predicate RequiredAllows(doc: Doc, loc: Loc, ms: seq<Member>, ns: seq<TreeMember>) {
    forall name | Requires(ms, name) ::
      HasMember(ns, name) || (Declares(ms, name) && HasDefault(doc, AtMember(loc, "properties", name)))
  }

  /** All keywords of the object at a place. */
  ghost predicate KeywordsAllow(doc: Doc, floating: Loc -> Floating, loc: Loc, ms: seq<Member>, t: Tree) {
    && ScalarsAllow(ms, floating(loc), t)
    && CombinationsAllow(doc, floating, loc, ms, t)
    && match t
       case Leaf(_) => true
       case Arr(ts) => forall i :: 0 <= i < |ts| ==> ElementAllowed(doc, floating, loc, ms, i, ts[i])
       case Obj(ns) =>
         && RequiredAllows(doc, loc, ms, ns)
         && forall i :: 0 <= i < |ns| ==> MemberAllowed(doc, floating, loc, ms, ns[i])
  }

  /** The schema without keywords accepts everything. */
  lemma {:induction false} TypelessAccepts(g: Graph, t: Tree)
    requires WellFormed(t)
    ensures Accepted(g, Typeless, t)
  {
    hide Reached;
    NothingReached(g);
    RankExactlyWhen(g, Typeless);
    TypelessHolds(t);
  }

  lemma {:induction false} NothingReached(g: Graph)
    ensures Reached(g, Typeless) == iset{}
  {
  }

  lemma {:induction false} TypelessHolds(t: Tree)
    requires WellFormed(t)
    ensures Holds(TYPELESS, t)
    decreases t
  {
    match t
    case Leaf(_) =>
    case Arr(ts) =>
      forall i | 0 <= i < |ts| ensures ElementHolds(TYPELESS, 0 + i, ts[i]) {
        TypelessHolds(ts[i]);
      }
    case Obj(ms) =>
      forall i | 0 <= i < |ms| ensures MemberHolds(TYPELESS, ms[i]) {
        TypelessHolds(ms[i].tree);
      }
  }

  lemma {:induction false} PlaceUnder(loc: Loc, ms: seq<Member>, keyword: string)
    ensures match Keyword(ms, keyword)
            case None => Under(loc, ms, keyword) == []
            case Some(v) => Under(loc, ms, keyword) == [Place(AtKeyword(loc, keyword), v)]
  {
    hide Ascii;
  }

  lemma {:induction false} MeaningsUnder(doc: Doc, loc: Loc, ms: seq<Member>, keyword: string)
    ensures var refs, locs := Meanings(doc, Inside(Under(loc, ms, keyword), IsArray)), ListUnder(loc, ms, keyword);
            |refs| == |locs| && forall i :: 0 <= i < |refs| ==> refs[i] == doc.Meaning(locs[i])
  {
    hide Doc.Meaning, Keyword, Under, AtKeyword;
    PlaceUnder(loc, ms, keyword);
  }

  lemma {:induction false} CombinationsExactly(doc: Doc, floating: Loc -> Floating, loc: Loc, ms: seq<Member>, t: Tree)
    ensures CombinedFrom(GraphOf(doc, floating), ShapeOf(doc, loc, ms, floating(loc)), t)
       <==> CombinationsAllow(doc, floating, loc, ms, t)
  {
    hide Doc.Meaning, Keyword, Under, AtKeyword, GraphOf, ScalarKeywords, ItemsAt, AdditionalAt, PropertiesAt, Inside, Meanings, ListUnder,
         Accepted;
    MeaningsUnder(doc, loc, ms, "allOf");
    MeaningsUnder(doc, loc, ms, "anyOf");
    MeaningsUnder(doc, loc, ms, "oneOf");
    PlaceUnder(loc, ms, "not");
  }

  lemma {:induction false} AdditionalExactly(doc: Doc, floating: Loc -> Floating, loc: Loc, ms: seq<Member>, keyword: string, t: Tree)
    requires WellFormed(t)
    ensures var ref := AdditionalRef(AdditionalAt(doc, loc, ms, keyword));
            (ref.Some? && Accepted(GraphOf(doc, floating), ref.value, t))
            <==> AdditionalAllows(doc, floating, loc, ms, keyword, t)
  {
    hide Doc.Meaning, Keyword, Under, AtKeyword, GraphOf, Accepted;
    PlaceUnder(loc, ms, keyword);
    TypelessAccepts(GraphOf(doc, floating), t);
  }

  lemma {:induction false} ElementExactly(doc: Doc, floating: Loc -> Floating, loc: Loc, ms: seq<Member>, i: nat, t: Tree)
    requires WellFormed(t)
    ensures var ref := ItemRef(ShapeOf(doc, loc, ms, floating(loc)), i);
            (ref.Some? && Accepted(GraphOf(doc, floating), ref.value, t)) <==> ElementAllowed(doc, floating, loc, ms, i, t)
  {
    hide Doc.Meaning, Keyword, Under, AtKeyword, GraphOf, Accepted, ScalarKeywords, PropertiesAt, AdditionalAt, AdditionalAllows;
    PlaceUnder(loc, ms, "items");
    MeaningsUnder(doc, loc, ms, "items");
    AdditionalExactly(doc, floating, loc, ms, "additionalItems", t);
    TypelessAccepts(GraphOf(doc, floating), t);
  }

  lemma {:induction false} StringsInExactly(es: seq<Value>, name: Bytes)
    ensures name in StringsIn(es) <==> VString(name) in es
  {
    if es != [] {
      StringsInExactly(es[1..], name);
      assert es == [es[0]] + es[1..];
    }
  }

  /** The names of the property table. */
  lemma {:induction false} NamesExactly(ms: seq<Member>, name: Bytes)
    ensures name in DeclaredNames(ms) <==> Declares(ms, name)
    ensures name in RequiredNames(ms) <==> Requires(ms, name)
    ensures name in TableNames(ms) <==> Declares(ms, name) || Requires(ms, name)
  {
    hide Keyword, TableNames;
    if Keyword(ms, "properties").Some? && Keyword(ms, "properties").value.VObject? {
      var qs := Keyword(ms, "properties").value.members;
      assert forall k :: 0 <= k < |qs| ==> DeclaredNames(ms)[k] == qs[k].name;
    }
    if Keyword(ms, "required").Some? && Keyword(ms, "required").value.VArray? {
      StringsInExactly(Keyword(ms, "required").value.elems, name);
    }
  }

  lemma {:induction false} TableSize(doc: Doc, loc: Loc, ms: seq<Member>)
    ensures |PropertiesAt(doc, loc, ms)| == |TableNames(ms)|
  {
    hide Doc.Meaning, PropertyAt;
  }

  lemma {:induction false} EntryExactly(doc: Doc, loc: Loc, ms: seq<Member>, k: nat)
    requires k < |TableNames(ms)|
    ensures |PropertiesAt(doc, loc, ms)| == |TableNames(ms)|
    ensures var name, p := TableNames(ms)[k], PropertiesAt(doc, loc, ms)[k];
            p.name == name && p.ref == (if Declares(ms, name) then doc.Meaning(AtMember(loc, "properties", name)) else Typeless)
            && p.required == Requires(ms, name)
  {
    hide Doc.Meaning, TableNames, DeclaredNames, RequiredNames, Declares, Requires, Ascii;
    var name := TableNames(ms)[k];
    NamesExactly(ms, name);
    assert loc + [NameToken0(Ascii("properties"))] + [NameToken0(name)] == loc + [NameToken0(Ascii("properties")), NameToken0(name)];
  }

  lemma {:induction false} MemberExactly(doc: Doc, floating: Loc -> Floating, loc: Loc, ms: seq<Member>, m: TreeMember)
    requires WellFormed(m.tree)
    ensures var ref := MemberRef(ShapeOf(doc, loc, ms, floating(loc)), m.name);
            (ref.Some? && Accepted(GraphOf(doc, floating), ref.value, m.tree)) <==> MemberAllowed(doc, floating, loc, ms, m)
  {
    hide Doc.Meaning, Keyword, Under, GraphOf, Accepted, ScalarKeywords, PropertiesAt, AdditionalAt, AdditionalAllows, TableNames,
         ItemsAt, Meanings, Declares, Requires, AtMember;
    var ps, names := PropertiesAt(doc, loc, ms), TableNames(ms);
    var i := FindGraphProperty(ps, m.name);
    NamesExactly(ms, m.name);
    AdditionalExactly(doc, floating, loc, ms, "additionalProperties", m.tree);
    TypelessAccepts(GraphOf(doc, floating), m.tree);
    TableSize(doc, loc, ms);
    if i < |ps| {
      EntryExactly(doc, loc, ms, i);
      assert m.name == names[i];
    } else if m.name in names {
      var k :| 0 <= k < |names| && names[k] == m.name;
      EntryExactly(doc, loc, ms, k);
      assert false;
    }
  }

  lemma {:induction false} NoKeyword(keyword: string)
    ensures Keyword([], keyword) == None
  {
    hide Ascii;
  }

  lemma {:induction false} NoDefault(g: Graph)
    ensures DefaultLength(g, Typeless) == 0
  {
  }

  lemma {:induction false} DefaultExactly(doc: Doc, floating: Loc -> Floating, loc: Loc)
    ensures DefaultLength(GraphOf(doc, floating), doc.Meaning(loc)) > 0 <==> HasDefault(doc, loc)
  {
    hide Doc.Meaning, ItemsAt, AdditionalAt, PropertiesAt, Meanings, Ascii, ScalarKeywords, Keyword;
    if doc.Meaning(loc).At? {
      var end := doc.Meaning(loc).loc;
      DefaultOf([], floating(end));
      NoKeyword("default");
      if Get(doc.root, end).Some? && Get(doc.root, end).value.VObject? {
        DefaultOf(Get(doc.root, end).value.members, floating(end));
      }
    }
  }

  lemma {:induction false} DefaultOf(ms: seq<Member>, floating: Floating)
    ensures ScalarKeywords(ms, floating).defaultValueLength > 0
       <==> match Keyword(ms, "default") case Some(VString(s)) => s != [] case _ => false
  {
    hide Keyword;
  }

  lemma {:induction false} RequiredExactly(doc: Doc, floating: Loc -> Floating, loc: Loc, ms: seq<Member>, ns: seq<TreeMember>)
    ensures NamesRequired(GraphOf(doc, floating), ShapeOf(doc, loc, ms, floating(loc)), ns) <==> RequiredAllows(doc, loc, ms, ns)
  {
    hide Doc.Meaning, GraphOf, ScalarKeywords, PropertiesAt, AdditionalAt, TableNames, ItemsAt, Meanings, Declares, Requires, AtMember,
         HasDefault, DefaultLength, HasMember;
    var g, ps, names := GraphOf(doc, floating), PropertiesAt(doc, loc, ms), TableNames(ms);
    TableSize(doc, loc, ms);
    forall k | 0 <= k < |ps|
      ensures ps[k].name == names[k] && ps[k].required == Requires(ms, names[k])
      ensures DefaultLength(g, ps[k].ref) > 0 <==> Declares(ms, names[k]) && HasDefault(doc, AtMember(loc, "properties", names[k]))
    {
      EntryExactly(doc, loc, ms, k);
      DefaultExactly(doc, floating, AtMember(loc, "properties", names[k]));
      NoDefault(g);
    }
    forall name | Requires(ms, name) ensures exists k :: 0 <= k < |names| && names[k] == name {
      NamesExactly(ms, name);
    }
  }

  // ------------------------------------------------------------ the meaning of a place

  lemma {:induction false} ShapeThere(doc: Doc, floating: Loc -> Floating, loc: Loc, ms: seq<Member>)
    ensures ShapeOf(doc, loc, ms, floating(loc)).scalar == ScalarKeywords(ms, floating(loc))
    ensures Get(doc.root, loc) == Some(VObject(ms)) ==> GraphOf(doc, floating)(loc) == ShapeOf(doc, loc, ms, floating(loc))
  {
    hide Doc.Meaning, ScalarKeywords, ItemsAt, AdditionalAt, PropertiesAt, Meanings, Under, Inside;
  }

  lemma {:induction false} OwnExactly(doc: Doc, floating: Loc -> Floating, loc: Loc, ms: seq<Member>, t: Tree)
    requires WellFormed(t)
    ensures var s := ShapeOf(doc, loc, ms, floating(loc));
            OwnFrom(GraphOf(doc, floating), s, t)
            <==> ScalarsAllow(ms, floating(loc), t)
                 && match t
                    case Leaf(_) => true
                    case Arr(ts) => forall i :: 0 <= i < |ts| ==> ElementAllowed(doc, floating, loc, ms, i, ts[i])
                    case Obj(ns) =>
                      && RequiredAllows(doc, loc, ms, ns)
                      && forall i :: 0 <= i < |ns| ==> MemberAllowed(doc, floating, loc, ms, ns[i])
  {
    hide Doc.Meaning, GraphOf, ShapeOf, ScalarKeywords, Accepted, ElementAllowed, MemberAllowed, RequiredAllows, ScalarsAllow,
         ItemRef, MemberRef, NamesRequired, ScalarHolds, AtMost;
    var s := ShapeOf(doc, loc, ms, floating(loc));
    ShapeThere(doc, floating, loc, ms);
    ScalarsExactly(ms, floating(loc), t);
    if t.Arr? {
      ElementsExactly(doc, floating, loc, ms, t.elems);
    } else if t.Obj? {
      RequiredExactly(doc, floating, loc, ms, t.members);
      MembersExactly(doc, floating, loc, ms, t.members);
    }
  }

  lemma {:induction false} ElementsExactly(doc: Doc, floating: Loc -> Floating, loc: Loc, ms: seq<Member>, ts: seq<Tree>)
    requires forall i :: 0 <= i < |ts| ==> WellFormed(ts[i])
    ensures var s := ShapeOf(doc, loc, ms, floating(loc));
            (forall i :: 0 <= i < |ts| ==> ItemRef(s, i).Some? && Accepted(GraphOf(doc, floating), ItemRef(s, i).value, ts[i]))
            <==> forall i :: 0 <= i < |ts| ==> ElementAllowed(doc, floating, loc, ms, i, ts[i])
  {
    hide Doc.Meaning, GraphOf, ShapeOf, Accepted, ElementAllowed, ItemRef;
    var s := ShapeOf(doc, loc, ms, floating(loc));
    forall i | 0 <= i < |ts|
      ensures (ItemRef(s, i).Some? && Accepted(GraphOf(doc, floating), ItemRef(s, i).value, ts[i]))
         <==> ElementAllowed(doc, floating, loc, ms, i, ts[i])
    {
      ElementExactly(doc, floating, loc, ms, i, ts[i]);
    }
  }

  lemma {:induction false} MembersExactly(doc: Doc, floating: Loc -> Floating, loc: Loc, ms: seq<Member>, ns: seq<TreeMember>)
    requires forall i :: 0 <= i < |ns| ==> WellFormed(ns[i].tree)
    ensures var s := ShapeOf(doc, loc, ms, floating(loc));
            (forall i :: 0 <= i < |ns| ==>
               MemberRef(s, ns[i].name).Some? && Accepted(GraphOf(doc, floating), MemberRef(s, ns[i].name).value, ns[i].tree))
            <==> forall i :: 0 <= i < |ns| ==> MemberAllowed(doc, floating, loc, ms, ns[i])
  {
    hide Doc.Meaning, GraphOf, ShapeOf, Accepted, MemberAllowed, MemberRef;
    var s := ShapeOf(doc, loc, ms, floating(loc));
    forall i | 0 <= i < |ns|
      ensures (MemberRef(s, ns[i].name).Some? && Accepted(GraphOf(doc, floating), MemberRef(s, ns[i].name).value, ns[i].tree))
         <==> MemberAllowed(doc, floating, loc, ms, ns[i])
    {
      MemberExactly(doc, floating, loc, ms, ns[i]);
    }
  }

  /** An object that is no reference accepts what all its keywords allow. */
  lemma {:induction false} MeaningByKeywords(doc: Doc, floating: Loc -> Floating, loc: Loc, ms: seq<Member>, t: Tree)
    requires Get(doc.root, loc) == Some(VObject(ms)) && Keyword(ms, "$ref").None?
    requires AllEnd(GraphOf(doc, floating), At(loc)) && WellFormed(t)
    ensures Accepts(doc, floating, loc, t) <==> KeywordsAllow(doc, floating, loc, ms, t)
  {
    hide Doc.Meaning, GraphOf, ShapeOf, Accepted, ElementAllowed, MemberAllowed, RequiredAllows, ScalarsAllow, OwnFrom, CombinedFrom,
         CombinationsAllow, Ascii;
    assert doc.Meaning(loc) == At(loc) by { doc.MeaningOfEnd(loc); }
    AcceptedUnfolds(GraphOf(doc, floating), loc, t);
    ShapeThere(doc, floating, loc, ms);
    OwnExactly(doc, floating, loc, ms, t);
    CombinationsExactly(doc, floating, loc, ms, t);
  }

  /** A reference is what it refers to, if that is a place of the document; other references, and places where there is no
      object, accept everything. */
  lemma {:induction false} MeaningOfReference(doc: Doc, floating: Loc -> Floating, loc: Loc, t: Tree)
    requires WellFormed(t)
    ensures match Get(doc.root, loc)
            case Some(VObject(ms)) =>
              (match Keyword(ms, "$ref")
               case None => true
               case Some(VString(s)) =>
                 if s != [] && doc.resolve(s).Some? && Get(doc.root, doc.resolve(s).value).Some?
                 then Accepts(doc, floating, loc, t) <==> Accepts(doc, floating, doc.resolve(s).value, t)
                 else Accepts(doc, floating, loc, t)
               case _ => Accepts(doc, floating, loc, t))
            case _ => Accepts(doc, floating, loc, t)
  {
    hide Doc.Meaning, GraphOf, Accepted, Ascii;
    TypelessAccepts(GraphOf(doc, floating), t);
    if doc.Next(loc).Some? {
      doc.MeaningOfNext(loc);
    } else {
      doc.MeaningOfEnd(loc);
    }
  }

  // ------------------------------------------------------------ documents with one keyword

  /** A number that tells the keywords apart. */
  function Tag(name: Bytes): nat {
    if |name| < 3 then 0
    else var third: int := name[2]; |name| * 65536 + third * 256 + name[if |name| > 10 then 10 else |name| - 1]
  }

  lemma {:induction false} ScalarTags()
    ensures Tag(Ascii("type")) == 290917
    ensures Tag(Ascii("minimum")) == 487021
    ensures Tag(Ascii("exclusiveMinimum")) == 1074025
    ensures Tag(Ascii("maximum")) == 489581
    ensures Tag(Ascii("exclusiveMaximum")) == 1074017
    ensures Tag(Ascii("minLength")) == 618088
    ensures Tag(Ascii("maxLength")) == 620648
    ensures Tag(Ascii("minItems")) == 552563
    ensures Tag(Ascii("maxItems")) == 555123
    ensures Tag(Ascii("minProperties")) == 880233
    ensures Tag(Ascii("maxProperties")) == 882793
  {
  }

  lemma {:induction false} ContainerTags()
    ensures Tag(Ascii("items")) == 353651
    ensures Tag(Ascii("additionalItems")) == 1008713
    ensures Tag(Ascii("properties")) == 683891
    ensures Tag(Ascii("required")) == 553316
    ensures Tag(Ascii("additionalProperties")) == 1336400
  {
  }

  lemma {:induction false} CombiningTags()
    ensures Tag(Ascii("allOf")) == 355430
    ensures Tag(Ascii("anyOf")) == 358758
    ensures Tag(Ascii("oneOf")) == 353638
    ensures Tag(Ascii("not")) == 226420
    ensures Tag(Ascii("$ref")) == 288102
  {
  }

  /** The document `{"<name>": v}`. */
  ghost predicate IsOneKeyword(doc: Doc, name: string, v: Value) {
    doc.root == VObject([Member(Ascii(name), v)])
  }

  lemma {:induction false} OnlyKeyword(name: string, v: Value)
    ensures forall keyword: string :: Keyword([Member(Ascii(name), v)], keyword) == if Ascii(keyword) == Ascii(name) then Some(v) else None
  {
    hide Ascii;
    var ms := [Member(Ascii(name), v)];
    assert ms[1..] == [];
  }

  /** No keyword with other schemas stands there. */
  predicate NoOthers(ms: seq<Member>) {
    && Keyword(ms, "allOf").None? && Keyword(ms, "anyOf").None? && Keyword(ms, "oneOf").None? && Keyword(ms, "not").None?
    && Keyword(ms, "items").None? && Keyword(ms, "additionalItems").None?
    && Keyword(ms, "properties").None? && Keyword(ms, "required").None? && Keyword(ms, "additionalProperties").None?
    && Keyword(ms, "$ref").None?
  }

  lemma {:induction false} NothingBelow(doc: Doc, floating: Loc -> Floating, loc: Loc, ms: seq<Member>)
    requires Get(doc.root, loc) == Some(VObject(ms)) && NoOthers(ms)
    ensures AllEnd(GraphOf(doc, floating), At(loc))
  {
    hide Doc.Meaning, GraphOf, Keyword, Reached, Ascii;
    var g, live := GraphOf(doc, floating), iset{loc};
    ShapeOfNothing(doc, floating, loc, ms);
    assert g(loc) == ShapeOf(doc, loc, ms, floating(loc)) by { ShapeThere(doc, floating, loc, ms); }
    assert forall r :: RefersTo(g(loc), r) ==> r.Typeless?;
    ReachedIsLeast(g, At(loc), live);
    assert !Nests(g, At(loc), 1);
  }

  lemma {:induction false} ShapeOfNothing(doc: Doc, floating: Loc -> Floating, loc: Loc, ms: seq<Member>)
    requires NoOthers(ms)
    ensures var s := ShapeOf(doc, loc, ms, floating(loc));
            && s.allOf == [] && s.anyOf == [] && s.oneOf == [] && s.negated == None && s.items == NoItems
            && s.additionalItems == MayFollow && s.additionalProperties == MayFollow && s.properties == []
  {
    hide Doc.Meaning, Keyword, Under, ScalarKeywords, PropertiesAt, Inside;
    PlaceUnder(loc, ms, "allOf");
    PlaceUnder(loc, ms, "anyOf");
    PlaceUnder(loc, ms, "oneOf");
    PlaceUnder(loc, ms, "not");
    PlaceUnder(loc, ms, "items");
    PlaceUnder(loc, ms, "additionalItems");
    PlaceUnder(loc, ms, "additionalProperties");
    NothingInside();
    NoNames(doc, loc, ms);
  }

  lemma {:induction false} NothingInside()
    ensures Inside([], IsArray) == []
  {
  }

  lemma {:induction false} NoNames(doc: Doc, loc: Loc, ms: seq<Member>)
    requires Keyword(ms, "properties").None? && Keyword(ms, "required").None?
    ensures PropertiesAt(doc, loc, ms) == []
  {
    hide Keyword;
    FirstIsIn(TableNames(ms));
  }

  /** Where there is no other, the keywords without other schemas say it all. */
  lemma {:induction false} OnlyScalars(doc: Doc, floating: Loc -> Floating, loc: Loc, ms: seq<Member>, t: Tree)
    requires Get(doc.root, loc) == Some(VObject(ms)) && NoOthers(ms) && WellFormed(t)
    ensures Accepts(doc, floating, loc, t) <==> ScalarsAllow(ms, floating(loc), t)
  {
    hide Doc.Meaning, GraphOf, Keyword, Accepts, ScalarsAllow, CombinationsAllow, ElementAllowed, MemberAllowed, RequiredAllows;
    NothingBelow(doc, floating, loc, ms);
    MeaningByKeywords(doc, floating, loc, ms, t);
    OthersAllow(doc, floating, loc, ms, t);
  }

  lemma {:induction false} OthersAllow(doc: Doc, floating: Loc -> Floating, loc: Loc, ms: seq<Member>, t: Tree)
    requires NoOthers(ms)
    ensures CombinationsAllow(doc, floating, loc, ms, t)
    ensures forall ns :: RequiredAllows(doc, loc, ms, ns)
    ensures forall m :: MemberAllowed(doc, floating, loc, ms, m)
    ensures forall i, u :: ElementAllowed(doc, floating, loc, ms, i, u)
  {
    hide Doc.Meaning, Keyword, Accepts;
  }

  /** The keyword is none of those with other schemas. */
  predicate IsScalarName(name: string) {
    var n := Tag(Ascii(name));
    || n == Tag(Ascii("type"))
    || n == Tag(Ascii("minimum")) || n == Tag(Ascii("exclusiveMinimum")) || n == Tag(Ascii("maximum")) || n == Tag(Ascii("exclusiveMaximum"))
    || n == Tag(Ascii("minLength")) || n == Tag(Ascii("maxLength")) || n == Tag(Ascii("minItems")) || n == Tag(Ascii("maxItems"))
    || n == Tag(Ascii("minProperties")) || n == Tag(Ascii("maxProperties"))
  }

  lemma {:induction false} ScalarNameIsOther(name: string, v: Value)
    requires IsScalarName(name)
    ensures NoOthers([Member(Ascii(name), v)])
  {
    hide Ascii, Tag, Keyword;
    ScalarTags();
    ContainerTags();
    CombiningTags();
    OnlyKeyword(name, v);
  }

  lemma {:induction false} OneKeyword(doc: Doc, floating: Loc -> Floating, name: string, v: Value, t: Tree)
    requires IsOneKeyword(doc, name, v) && IsScalarName(name) && WellFormed(t)
    ensures Accepts(doc, floating, [], t) <==> ScalarsAllow([Member(Ascii(name), v)], floating([]), t)
  {
    hide Ascii, Tag, Keyword, Accepts, ScalarsAllow, IsScalarName, NoOthers;
    ScalarNameIsOther(name, v);
    OnlyScalars(doc, floating, [], doc.root.members, t);
  }

  lemma {:induction false} NoBounds(ms: seq<Member>)
    requires Keyword(ms, "minimum").None? && Keyword(ms, "maximum").None?
    ensures forall floating, n :: IntegerAllowed(ms, floating, n)
    ensures forall floating, lexeme :: DoubleAllowed(ms, floating, lexeme)
  {
    hide Keyword;
  }

  lemma {:induction false} NoLengths(ms: seq<Member>)
    requires Keyword(ms, "minLength").None? && Keyword(ms, "maxLength").None?
    ensures forall text :: LengthAllowed(ms, text)
  {
    hide Keyword, Utf8Text;
  }

  /** `{"minItems": n}` means that an array has at least `n` elements. */
  lemma {:induction false} MinItemsMeans(doc: Doc, floating: Loc -> Floating, n: nat, t: Tree)
    requires IsOneKeyword(doc, "minItems", VInt(n)) && n <= 0xFFFF_FFFF && WellFormed(t)
    ensures Accepts(doc, floating, [], t) <==> (t.Arr? ==> |t.elems| >= n)
  {
    hide Ascii, Tag, Accepts, Keyword, IntegerAllowed, DoubleAllowed, LengthAllowed, IsOfType;
    ScalarTags();
    OneKeyword(doc, floating, "minItems", VInt(n), t);
    OnlyKeyword("minItems", VInt(n));
    NoBounds(doc.root.members);
    NoLengths(doc.root.members);
  }

  /** `{"maxItems": n}`: at most `n` elements. */
  lemma {:induction false} MaxItemsMeans(doc: Doc, floating: Loc -> Floating, n: nat, t: Tree)
    requires IsOneKeyword(doc, "maxItems", VInt(n)) && n <= 0xFFFF_FFFF && WellFormed(t)
    ensures Accepts(doc, floating, [], t) <==> (t.Arr? ==> |t.elems| <= n)
  {
    hide Ascii, Tag, Accepts, Keyword, IntegerAllowed, DoubleAllowed, LengthAllowed, IsOfType;
    ScalarTags();
    OneKeyword(doc, floating, "maxItems", VInt(n), t);
    OnlyKeyword("maxItems", VInt(n));
    NoBounds(doc.root.members);
    NoLengths(doc.root.members);
  }

  /** `{"minProperties": n}`: an object has at least `n` members. */
  lemma {:induction false} MinPropertiesMeans(doc: Doc, floating: Loc -> Floating, n: nat, t: Tree)
    requires IsOneKeyword(doc, "minProperties", VInt(n)) && n <= 0xFFFF_FFFF && WellFormed(t)
    ensures Accepts(doc, floating, [], t) <==> (t.Obj? ==> |t.members| >= n)
  {
    hide Ascii, Tag, Accepts, Keyword, IntegerAllowed, DoubleAllowed, LengthAllowed, IsOfType;
    ScalarTags();
    OneKeyword(doc, floating, "minProperties", VInt(n), t);
    OnlyKeyword("minProperties", VInt(n));
    NoBounds(doc.root.members);
    NoLengths(doc.root.members);
  }

  /** `{"maxProperties": n}`: at most `n` members. */
  lemma {:induction false} MaxPropertiesMeans(doc: Doc, floating: Loc -> Floating, n: nat, t: Tree)
    requires IsOneKeyword(doc, "maxProperties", VInt(n)) && n <= 0xFFFF_FFFF && WellFormed(t)
    ensures Accepts(doc, floating, [], t) <==> (t.Obj? ==> |t.members| <= n)
  {
    hide Ascii, Tag, Accepts, Keyword, IntegerAllowed, DoubleAllowed, LengthAllowed, IsOfType;
    ScalarTags();
    OneKeyword(doc, floating, "maxProperties", VInt(n), t);
    OnlyKeyword("maxProperties", VInt(n));
    NoBounds(doc.root.members);
    NoLengths(doc.root.members);
  }

  lemma {:induction false} MinLengthOnly(ms: seq<Member>, n: nat, text: Bytes)
    requires Keyword(ms, "minLength") == Some(VInt(n)) && Keyword(ms, "maxLength").None? && n <= 0xFFFF_FFFF
    ensures LengthAllowed(ms, text) <==> forall cs | AllScalar(cs) && Utf8Text(cs) == text :: |cs| >= n
  {
    hide Keyword, Utf8Text;
  }

  /** `{"minLength": n}`: a string encodes at least `n` scalar values. */
  lemma {:induction false} MinLengthMeans(doc: Doc, floating: Loc -> Floating, n: nat, t: Tree)
    requires IsOneKeyword(doc, "minLength", VInt(n)) && n <= 0xFFFF_FFFF && WellFormed(t)
    ensures Accepts(doc, floating, [], t) <==> (t.Leaf? && t.e.String? ==> forall cs | AllScalar(cs) && Utf8Text(cs) == t.e.s :: |cs| >= n)
  {
    hide Ascii, Tag, Accepts, Keyword, LengthAllowed, IntegerAllowed, DoubleAllowed, IsOfType;
    ScalarTags();
    OneKeyword(doc, floating, "minLength", VInt(n), t);
    OnlyKeyword("minLength", VInt(n));
    NoBounds(doc.root.members);
    if t.Leaf? && t.e.String? {
      MinLengthOnly(doc.root.members, n, t.e.s);
    }
  }

  lemma {:induction false} MaxLengthOnly(ms: seq<Member>, n: nat, text: Bytes)
    requires Keyword(ms, "maxLength") == Some(VInt(n)) && Keyword(ms, "minLength").None? && n <= 0xFFFF_FFFF
    ensures LengthAllowed(ms, text) <==> forall cs | AllScalar(cs) && Utf8Text(cs) == text :: |cs| <= n
  {
    hide Keyword, Utf8Text;
  }

  /** `{"maxLength": n}`: at most `n` scalar values. */
  lemma {:induction false} MaxLengthMeans(doc: Doc, floating: Loc -> Floating, n: nat, t: Tree)
    requires IsOneKeyword(doc, "maxLength", VInt(n)) && n <= 0xFFFF_FFFF && WellFormed(t)
    ensures Accepts(doc, floating, [], t) <==> (t.Leaf? && t.e.String? ==> forall cs | AllScalar(cs) && Utf8Text(cs) == t.e.s :: |cs| <= n)
  {
    hide Ascii, Tag, Accepts, Keyword, LengthAllowed, IntegerAllowed, DoubleAllowed, IsOfType;
    ScalarTags();
    OneKeyword(doc, floating, "maxLength", VInt(n), t);
    OnlyKeyword("maxLength", VInt(n));
    NoBounds(doc.root.members);
    if t.Leaf? && t.e.String? {
      MaxLengthOnly(doc.root.members, n, t.e.s);
    }
  }

  /** `{"minimum": b}`: an integer is `b` or more. */
  lemma {:induction false} MinimumMeans(doc: Doc, floating: Loc -> Floating, b: int, t: Tree)
    requires IsOneKeyword(doc, "minimum", VInt(b)) && WellFormed(t)
    ensures Accepts(doc, floating, [], t) <==> (t.Leaf? ==> (IsInteger(t.e) ==> t.e.i >= b) && (t.e.Double? ==> floating([]).doubles(t.e.lexeme)))
  {
    hide Ascii, Tag, Accepts, Keyword, LengthAllowed, IsOfType;
    ScalarTags();
    OneKeyword(doc, floating, "minimum", VInt(b), t);
    OnlyKeyword("minimum", VInt(b));
    NoLengths(doc.root.members);
  }

  /** `{"maximum": b}`: an integer is `b` or less. */
  lemma {:induction false} MaximumMeans(doc: Doc, floating: Loc -> Floating, b: int, t: Tree)
    requires IsOneKeyword(doc, "maximum", VInt(b)) && WellFormed(t)
    ensures Accepts(doc, floating, [], t) <==> (t.Leaf? ==> (IsInteger(t.e) ==> t.e.i <= b) && (t.e.Double? ==> floating([]).doubles(t.e.lexeme)))
  {
    hide Ascii, Tag, Accepts, Keyword, LengthAllowed, IsOfType;
    ScalarTags();
    OneKeyword(doc, floating, "maximum", VInt(b), t);
    OnlyKeyword("maximum", VInt(b));
    NoLengths(doc.root.members);
  }

  /** `{"exclusiveMinimum": ..}` alone means nothing. */
  lemma {:induction false} ExclusiveMinimumAlone(doc: Doc, floating: Loc -> Floating, v: Value, t: Tree)
    requires IsOneKeyword(doc, "exclusiveMinimum", v) && WellFormed(t)
    ensures Accepts(doc, floating, [], t)
  {
    hide Ascii, Tag, Accepts, Keyword, IntegerAllowed, DoubleAllowed, LengthAllowed, IsOfType;
    ScalarTags();
    OneKeyword(doc, floating, "exclusiveMinimum", v, t);
    OnlyKeyword("exclusiveMinimum", v);
    NoBounds(doc.root.members);
    NoLengths(doc.root.members);
  }

  /** `{"exclusiveMaximum": ..}` alone means nothing. */
  lemma {:induction false} ExclusiveMaximumAlone(doc: Doc, floating: Loc -> Floating, v: Value, t: Tree)
    requires IsOneKeyword(doc, "exclusiveMaximum", v) && WellFormed(t)
    ensures Accepts(doc, floating, [], t)
  {
    hide Ascii, Tag, Accepts, Keyword, IntegerAllowed, DoubleAllowed, LengthAllowed, IsOfType;
    ScalarTags();
    OneKeyword(doc, floating, "exclusiveMaximum", v, t);
    OnlyKeyword("exclusiveMaximum", v);
    NoBounds(doc.root.members);
    NoLengths(doc.root.members);
  }

  lemma {:induction false} NamedTypes(name: Bytes, t: Tree)
    ensures name == Ascii("null") ==> (IsOfType(t, name) <==> t == Leaf(Null))
    ensures name == Ascii("boolean") ==> (IsOfType(t, name) <==> t == Leaf(Bool(true)) || t == Leaf(Bool(false)))
    ensures name == Ascii("object") ==> (IsOfType(t, name) <==> t.Obj?)
    ensures name == Ascii("array") ==> (IsOfType(t, name) <==> t.Arr?)
    ensures name == Ascii("string") ==> (IsOfType(t, name) <==> t.Leaf? && t.e.String?)
    ensures name == Ascii("integer") ==> (IsOfType(t, name) <==> t.Leaf? && IsInteger(t.e))
    ensures name == Ascii("number") ==> (IsOfType(t, name) <==> t.Leaf? && (IsInteger(t.e) || t.e.Double?))
  {
    hide Ascii;
    TypeNamesDiffer();
  }

  /** `{"type": name}`, for each of the seven names; any other name is that of no type. */
  lemma {:induction false} TypeMeans(doc: Doc, floating: Loc -> Floating, name: Bytes, t: Tree)
    requires IsOneKeyword(doc, "type", VString(name)) && WellFormed(t)
    ensures name == Ascii("null") ==> (Accepts(doc, floating, [], t) <==> t == Leaf(Null))
    ensures name == Ascii("boolean") ==> (Accepts(doc, floating, [], t) <==> t == Leaf(Bool(true)) || t == Leaf(Bool(false)))
    ensures name == Ascii("object") ==> (Accepts(doc, floating, [], t) <==> t.Obj?)
    ensures name == Ascii("array") ==> (Accepts(doc, floating, [], t) <==> t.Arr?)
    ensures name == Ascii("string") ==> (Accepts(doc, floating, [], t) <==> t.Leaf? && t.e.String?)
    ensures name == Ascii("integer") ==> (Accepts(doc, floating, [], t) <==> t.Leaf? && IsInteger(t.e))
    ensures name == Ascii("number") ==> (Accepts(doc, floating, [], t) <==> t.Leaf? && (IsInteger(t.e) || t.e.Double?))
    ensures Accepts(doc, floating, [], t) <==> IsOfType(t, name)
  {
    hide IsOfType, Ascii, Tag, Accepts, Keyword, IntegerAllowed, DoubleAllowed, LengthAllowed;
    ScalarTags();
    NamedTypes(name, t);
    OneKeyword(doc, floating, "type", VString(name), t);
    OnlyKeyword("type", VString(name));
    NoBounds(doc.root.members);
    NoLengths(doc.root.members);
  }

  /** `{"type": [..]}`: one of the types. */
  lemma {:induction false} TypesMean(doc: Doc, floating: Loc -> Floating, es: seq<Value>, t: Tree)
    requires IsOneKeyword(doc, "type", VArray(es)) && WellFormed(t)
    ensures Accepts(doc, floating, [], t) <==> exists i :: 0 <= i < |es| && es[i].VString? && IsOfType(t, es[i].s)
  {
    hide Ascii, Tag, Accepts, Keyword, IsOfType, IntegerAllowed, DoubleAllowed, LengthAllowed;
    ScalarTags();
    OneKeyword(doc, floating, "type", VArray(es), t);
    OnlyKeyword("type", VArray(es));
    NoBounds(doc.root.members);
    NoLengths(doc.root.members);
  }
}
