/**
 Validation against a schema document: it ends and decides what the document means unless combining keywords that can be
 reached lead back to themselves.
 */
module DocumentValidation {
  import opened Options
  import opened Json
  import opened Document
  import opened PointerAccess
  import opened SchemaCompile
  import opened Schema
  import opened Validation
  import opened SchemaGraph
  import opened SchemaCycles
  import opened SchemaKeywords
  import KeywordMeaning
  import opened GraphValidation
  import opened CompiledGraph
  import SchemaDocument
  import SchemaValidators

  // ------------------------------------------------------------ the places are finitely many

  /** The places of a document that are named by its own tokens. */
  ghost function Named(doc: Doc): iset<Loc> {
    iset loc: Loc | Get(doc.root, loc).Some? && forall t :: t in loc ==> t in doc.Letters()
  }

  ghost function Places(doc: Doc): set<Loc> {
    Words(doc.Letters(), Height(doc.root))
  }

  lemma {:induction false} NamedInPlay(doc: Doc, loc: Loc)
    requires loc in Named(doc)
    ensures doc.InPlay(Place(loc, Get(doc.root, loc).value)) && loc in Places(doc)
  {
    hide Height, Words;
    doc.GetInside(doc.root, loc);
    doc.InPlayIsFinite(Place(loc, Get(doc.root, loc).value));
  }

  lemma {:induction false} ReachIsNamed(doc: Doc, loc: Loc, n: nat)
    requires (forall t :: t in loc ==> t in doc.Letters()) && doc.Reach(loc, n).Some?
    ensures forall t :: t in doc.Reach(loc, n).value ==> t in doc.Letters()
    decreases n
  {
    hide Height, Doc.TokensIn;
    if n > 0 {
      var next := doc.Next(loc).value;
      var v := Get(doc.root, loc).value;
      doc.GetInside(doc.root, loc);
      assert forall t :: t in next ==> t in doc.RefTokens(v);
      RefTokensInside(doc, v);
      ReachIsNamed(doc, next, n - 1);
    }
  }

  lemma {:induction false} RefTokensInside(doc: Doc, v: Value)
    ensures doc.RefTokens(v) <= doc.TokensIn(v)
  {
  }

  lemma {:induction false} MeaningIsNamed(doc: Doc, loc: Loc)
    requires forall t :: t in loc ==> t in doc.Letters()
    ensures Alive(Named(doc), doc.Meaning(loc))
  {
    hide Doc.Letters;
    if n: nat :| doc.EndsAfter(loc, n) {
      forall m: nat | doc.EndsAfter(loc, m) ensures m == n {
        doc.EndIsUnique(loc, m, n);
      }
      ReachIsNamed(doc, loc, n);
    }
  }

  lemma {:induction false} NamedIsClosed(doc: Doc, floating: Loc -> Floating)
    ensures Closed(GraphOf(doc, floating), Named(doc)) && Alive(Named(doc), doc.Meaning(doc.start))
  {
    hide Named, RefersTo, GraphOf;
    forall loc, r | loc in Named(doc) && RefersTo(GraphOf(doc, floating)(loc), r) ensures Alive(Named(doc), r) {
      if r.At? {
        RefIsNamed(doc, floating, loc, r);
      }
    }
    MeaningIsNamed(doc, doc.start);
  }

  lemma {:induction false} RefIsNamed(doc: Doc, floating: Loc -> Floating, loc: Loc, r: SchemaRef)
    requires loc in Named(doc) && r.At? && RefersTo(GraphOf(doc, floating)(loc), r)
    ensures Alive(Named(doc), r)
  {
    hide Named, RefersTo, ShapeOf, SubPlaces, Doc.Meaning, Doc.InPlay;
    NamedInPlay(doc, loc);
    assert Get(doc.root, loc).Some? by { NamedIsThere(doc, loc); }
    var v := Get(doc.root, loc).value;
    if v.VObject? {
      RefsAreLinks(doc, loc, v.members, floating(loc), r);
      doc.SubPlacesInPlay(Place(loc, v));
      var ps := SubPlaces(loc, v);
      var k :| 0 <= k < |ps| && Meanings(doc, ps)[k] == r;
      InPlayIsNamed(doc, ps[k]);
      MeaningIsNamed(doc, ps[k].loc);
    } else {
      RefsAreLinks(doc, loc, [], floating(loc), r);
      NoSubPlaces(loc);
    }
  }

  lemma {:induction false} NamedIsThere(doc: Doc, loc: Loc)
    requires loc in Named(doc)
    ensures Get(doc.root, loc).Some?
  {
  }

  lemma {:induction false} InPlayIsNamed(doc: Doc, p: Place)
    requires doc.InPlay(p)
    ensures forall t :: t in p.loc ==> t in doc.Letters()
  {
  }

  lemma {:induction false} NoSubPlaces(loc: Loc)
    ensures SubPlaces(loc, VObject([])) == []
  {
  }

  /** All that validation can reach are words over the tokens of the document, no longer than it is deep. */
  lemma {:induction false} ReachedPlaces(doc: Doc, floating: Loc -> Floating)
    ensures forall loc :: loc in Reached(GraphOf(doc, floating), doc.Meaning(doc.start)) ==> loc in Named(doc) && loc in Places(doc)
  {
    hide GraphOf, Named, Reached, Closed, Places;
    NamedIsClosed(doc, floating);
    ReachedIsLeast(GraphOf(doc, floating), doc.Meaning(doc.start), Named(doc));
    forall loc | loc in Reached(GraphOf(doc, floating), doc.Meaning(doc.start)) ensures loc in Places(doc) {
      NamedInPlay(doc, loc);
    }
  }

  // ------------------------------------------------------------ whether validation ends

  /** Validators for a document nest without end exactly where it reaches a cycle of combining keywords. If they end they
      nest no deeper than there are places. */
  lemma {:induction false} NestingExactlyWhen(doc: Doc, floating: Loc -> Floating)
    ensures var g, root := GraphOf(doc, floating), doc.Meaning(doc.start);
            && (AllEnd(g, root) <==> !ReachesCycle(g, root))
            && (AllEnd(g, root) <==> forall loc :: loc in Reached(g, root) ==> !Nests(g, At(loc), |Places(doc)| + 1))
  {
    hide GraphOf, Named, Reached, Places;
    ReachedPlaces(doc, floating);
    AllEndExactlyWhen(GraphOf(doc, floating), doc.Meaning(doc.start), Places(doc));
  }

  /** One event for the validator of a place never ends exactly where schemas that all admit the event lead into a cycle of
      combining keywords. */
  lemma {:induction false} EventEndsExactlyWhen(doc: Doc, floating: Loc -> Floating, r: SchemaRef, e: Event)
    requires Alive(Named(doc), r)
    ensures var g := GraphOf(doc, floating); NeverBegins(g, r, e) <==> LeadsIntoCycle(Admitting(g, e), r)
  {
    hide GraphOf, Named, Admitting, NeverBegins, Places, LeadsIntoCycle, Ends, Nests;
    var g := GraphOf(doc, floating);
    AdmittingStays(doc, floating, e);
    NestsForeverExactlyWhen(Admitting(g, e), r, Places(doc), Named(doc));
    NeverBeginsExactlyWhen(g, r, e);
  }

  lemma {:induction false} AdmittingStays(doc: Doc, floating: Loc -> Floating, e: Event)
    ensures StaysIn(Admitting(GraphOf(doc, floating), e), Places(doc), Named(doc))
  {
    hide GraphOf, Named, Admitting, Places, SubRefs, RefersTo;
    var g := GraphOf(doc, floating);
    NamedIsClosed(doc, floating);
    forall loc | loc in Named(doc) ensures loc in Places(doc) {
      NamedInPlay(doc, loc);
    }
    forall a, b | a in Named(doc) && Combines(Admitting(g, e), a, b) ensures b in Named(doc) {
      SubsAdmitting(g, e, At(a));
      SubsAreReferred(g, a, At(b));
      assert Alive(Named(doc), At(b));
    }
  }

  /** Where no cycle of combining keywords is reached, validation of any tree ends and decides what the document means. */
  lemma {:induction false} ValidatesDocument(doc: Doc, floating: Loc -> Floating, fuel: nat, t: Tree)
    requires Representable(doc.root) && TreeOk(t) && fuel >= |Places(doc)|
    requires !ReachesCycle(GraphOf(doc, floating), doc.Meaning(doc.start))
    ensures var g, root := GraphOf(doc, floating), doc.Meaning(doc.start);
            AllEnd(g, root)
            && RunAt(g, fuel, FreshAt(root), TreeEvents(t)) == Some(if MeansFrom(g, root, t) then FreshAt(root) else DeadAt(root))
  {
    hide GraphOf, GraphOk, Reached, Places, RunAt, MeansFrom, ReachesCycle, Nests;
    var g, root := GraphOf(doc, floating), doc.Meaning(doc.start);
    NestingExactlyWhen(doc, floating);
    GraphOfIsOk(doc, floating);
    forall loc | loc in Reached(g, root) ensures !Nests(g, At(loc), fuel + 1) {
      if Nests(g, At(loc), fuel + 1) {
        NestsLess(g, At(loc), |Places(doc)| + 1, fuel + 1);
      }
    }
    ValidatesAlongReferences(g, fuel, root, t);
  }

  // ------------------------------------------------------------ from the document to the verdict

  /** Compiles a schema document, gives the schemas to a validator and the validator the events of a value: where no cycle of
      combining keywords is reached, the verdict is what the document means. */
  method Validate(doc: Doc, floating: Loc -> Floating, es: seq<Event>, ghost t: Tree) returns (ok: bool)
    requires Tidy(doc.root) && Representable(doc.root) && TreeOk(t) && es == TreeEvents(t)
    requires !ReachesCycle(GraphOf(doc, floating), doc.Meaning(doc.start))
    ensures AllEnd(GraphOf(doc, floating), doc.Meaning(doc.start))
    ensures ok == MeansFrom(GraphOf(doc, floating), doc.Meaning(doc.start), t)
    ensures ok == KeywordMeaning.Accepts(doc, floating, doc.start, t)
  {
    hide GraphOf, GraphOk, Reached, Places, RunAt, MeansFrom, ReachesCycle, Nests, AllEnd, Doc.Meaning, Tidy, TreeEvents, Complete,
         SchemaDocument.GenericSchemaDocument.Valid, SchemaDocument.GenericSchemaDocument.Linked, Alive, BuiltPlaces,
         SchemaValidators.SchemaValidator.Valid;
    var compiled := new SchemaDocument.GenericSchemaDocument(doc);
    var graph, root := GraphLinked(doc.root, compiled.links, floating), compiled.root;
    CompiledIsComplete(compiled);
    CompiledEnds(doc, compiled.links, floating, t);
    var validator := new SchemaValidators.SchemaValidator(graph, root);
    ok := validator.Validate(es, t, |Places(doc)|);
  }

  lemma {:induction false} CompiledIsComplete(compiled: SchemaDocument.GenericSchemaDocument)
    requires compiled.Linked() && compiled.open == {} && Tidy(compiled.doc.root) && compiled.Built(compiled.root)
    ensures Complete(compiled.doc, compiled.links) && Alive(BuiltPlaces(compiled.links), compiled.root)
  {
    hide SchemaDocument.LinksMean;
    forall loc, k | loc in compiled.links && 0 <= k < |compiled.links[loc]|
      ensures Alive(BuiltPlaces(compiled.links), compiled.links[loc][k])
    {
      assert compiled.Built(compiled.links[loc][k]);
    }
  }

  /** The compiled graph is fit for validation and means what that of the document means. */
  lemma {:induction false} CompiledEnds(doc: Doc, links: map<Loc, seq<SchemaRef>>, floating: Loc -> Floating, t: Tree)
    requires Representable(doc.root) && Complete(doc, links) && Alive(BuiltPlaces(links), doc.Meaning(doc.start))
    requires !ReachesCycle(GraphOf(doc, floating), doc.Meaning(doc.start))
    ensures var g, h, root := GraphOf(doc, floating), GraphLinked(doc.root, links, floating), doc.Meaning(doc.start);
            && GraphOk(h) && (forall loc :: loc in Reached(h, root) ==> !Nests(h, At(loc), |Places(doc)| + 1))
            && AllEnd(g, root) && AllEnd(h, root) && (MeansFrom(g, root, t) <==> MeansFrom(h, root, t))
  {
    hide GraphOf, GraphLinked, Reached, Places, MeansFrom, ReachesCycle, Nests, AllEnd, Doc.Meaning, Complete, Agree, BuiltPlaces, GraphOk;
    var g, h, root, live := GraphOf(doc, floating), GraphLinked(doc.root, links, floating), doc.Meaning(doc.start), BuiltPlaces(links);
    NestingExactlyWhen(doc, floating);
    CompiledAgrees(doc, links, floating);
    ReachedSame(g, h, live, root);
    forall loc | loc in Reached(h, root) ensures !Nests(h, At(loc), |Places(doc)| + 1) {
      NestsSame(g, h, live, At(loc), |Places(doc)| + 1);
    }
    MeansFromSame(g, h, live, root, t);
    LinkedIsOk(doc, links, floating);
  }

  lemma {:induction false} LinkedIsOk(doc: Doc, links: map<Loc, seq<SchemaRef>>, floating: Loc -> Floating)
    requires Representable(doc.root) && Complete(doc, links)
    ensures GraphOk(GraphLinked(doc.root, links, floating))
  {
    hide GraphOf, ShapeOk, ShapeLinked, Complete;
    var h := GraphLinked(doc.root, links, floating);
    GraphOfIsOk(doc, floating);
    forall loc: Loc ensures ShapeOk(h(loc)) {
      if loc in links {
        LinkedIsMeant(doc, links, floating, loc);
        assert ShapeOk(GraphOf(doc, floating)(loc));
      } else {
        assert h(loc) == TypelessShape();
        TypelessIsOk();
      }
    }
  }

  lemma {:induction false} TypelessIsOk()
    ensures ShapeOk(TypelessShape())
  {
  }

  // ------------------------------------------------------------ some documents

  /** Where a reference to the document itself leads: `resolve` knows that it is one. */
  ghost predicate KnowsItself(doc: Doc) {
    doc.start == [] && doc.resolve(Ascii("#")) == Some([])
  }

  function RefTo(text: string): Value {
    VObject([Member(REF, VString(Ascii(text)))])
  }

  function ToItself(): Value {
    RefTo("#")
  }

  lemma {:induction false} AsciiDiffers(s: string, t: string, i: nat)
    requires |s| != |t| || (i < |s| && s[i] as int % 256 != t[i] as int % 256)
    ensures Ascii(s) != Ascii(t)
  {
    if |s| == |t| {
      assert Ascii(s)[i] != Ascii(t)[i];
    }
  }

  /** A reference to the place of an object that is none means that place. */
  lemma {:induction false} ReferenceMeans(doc: Doc, loc: Loc, text: string, target: Loc)
    requires Get(doc.root, loc) == Some(RefTo(text)) && text != "" && doc.resolve(Ascii(text)) == Some(target)
    requires Get(doc.root, target).Some? && Get(doc.root, target).value.VObject? && !doc.HasRef(Get(doc.root, target).value)
    ensures doc.Meaning(loc) == At(target)
  {
    hide Doc.Meaning;
    var v := RefTo(text);
    assert v.members[0].name == REF;
    assert |Ascii(text)| == |text|;
    assert doc.Next(loc) == Some(target);
    doc.MeaningOfNext(loc);
    doc.MeaningOfEnd(target);
  }

  lemma {:induction false} StartIsItself(doc: Doc)
    requires doc.root.VObject? && !doc.HasRef(doc.root)
    ensures doc.Meaning([]) == At([])
  {
    hide Doc.Meaning;
    doc.MeaningOfEnd([]);
  }

  /** Of an object with one member all other keywords are absent. */
  lemma {:induction false} OtherKeyword(loc: Loc, name: string, v: Value, keyword: string)
    requires Ascii(name) != Ascii(keyword)
    ensures var ms := [Member(Ascii(name), v)]; Keyword(ms, keyword) == None && Under(loc, ms, keyword) == []
  {
    hide Ascii;
    var ms := [Member(Ascii(name), v)];
    assert FindMember(ms[1..], Ascii(keyword)) == 0;
  }

  /** `{"allOf": [{"$ref": "#"}]}` */
  function CombiningItself(): Value {
    VObject([Member(Ascii("allOf"), VArray([ToItself()]))])
  }

  lemma {:induction false} CombiningHasNoRef(doc: Doc)
    requires doc.root == CombiningItself()
    ensures !doc.HasRef(doc.root)
  {
    AsciiDiffers("allOf", "$ref", 0);
    OtherKeyword([], "allOf", VArray([ToItself()]), "$ref");
  }

  /** A place whose first keyword is `allOf` with a reference to the place itself. */
  lemma {:induction false} CombinesItself(doc: Doc, floating: Loc -> Floating, here: Loc, text: string)
    requires text != "" && doc.resolve(Ascii(text)) == Some(here)
    requires Get(doc.root, here).Some? && Get(doc.root, here).value.VObject? && !doc.HasRef(Get(doc.root, here).value)
    requires Get(doc.root, here).value.members != []
    requires Get(doc.root, here).value.members[0] == Member(Ascii("allOf"), VArray([RefTo(text)]))
    ensures Combines(GraphOf(doc, floating), here, here)
  {
    hide Ascii, Doc.Meaning, ScalarKeywords, ItemsAt, AdditionalAt, PropertiesAt, Get;
    var ms := Get(doc.root, here).value.members;
    var name, index := NameToken0(Ascii("allOf")), IndexToken(0);
    var loc := here + [name] + [index];
    var ps := Inside(Under(here, ms, "allOf"), IsArray);
    GetAppended(doc.root, here, name);
    GetAppended(doc.root, here + [name], index);
    assert Get(doc.root, loc) == Some(RefTo(text));
    ReferenceMeans(doc, loc, text, here);
    assert ps[0] == Place(loc, RefTo(text));
    assert Meanings(doc, ps)[0] == At(here);
    assert GraphOf(doc, floating)(here).allOf == Meanings(doc, ps);
    assert SubRefs(GraphOf(doc, floating), At(here))[0] == At(here);
  }

  /** Without keywords of its own it admits everything. */
  lemma {:induction false} CombiningAdmits(doc: Doc, floating: Loc -> Floating, e: Event)
    requires KnowsItself(doc) && doc.root == CombiningItself() && BeginsValue(e)
    ensures Admits(Skeleton(GraphOf(doc, floating), At([])), e)
  {
    hide Ascii, Doc.Meaning, ItemsAt, AdditionalAt, PropertiesAt, Meanings, Keyword, FindMember, Under;
    var v := VArray([ToItself()]);
    AsciiDiffers("allOf", "type", 0);
    AsciiDiffers("allOf", "minimum", 0);
    AsciiDiffers("allOf", "maximum", 0);
    AsciiDiffers("allOf", "minLength", 0);
    AsciiDiffers("allOf", "maxLength", 0);
    OtherKeyword([], "allOf", v, "type");
    OtherKeyword([], "allOf", v, "minimum");
    OtherKeyword([], "allOf", v, "maximum");
    OtherKeyword([], "allOf", v, "minLength");
    OtherKeyword([], "allOf", v, "maxLength");
  }

  /** A document that combines itself: the validation of no value ends, whatever its type. */
  lemma {:induction false} CombinedNeverEnds(doc: Doc, floating: Loc -> Floating, fuel: nat, e: Event, es: seq<Event>)
    requires KnowsItself(doc) && doc.root == CombiningItself() && BeginsValue(e)
    ensures var g, root := GraphOf(doc, floating), doc.Meaning(doc.start);
            ReachesCycle(g, root) && !AllEnd(g, root) && RunAt(g, fuel, FreshAt(root), [e] + es) == None
  {
    hide GraphOf, Doc.Meaning, Skeleton, Admits, SubRefs, Reached, BeginAt, Nests, Places;
    var g := GraphOf(doc, floating);
    CombiningHasNoRef(doc);
    StartIsItself(doc);
    CombinesItself(doc, floating, [], "#");
    CombiningAdmits(doc, floating, e);
    ReachedIsClosed(g, At([]));
    assert IsCycle(g, [[]]);
    NestingExactlyWhen(doc, floating);
    SubsAdmitting(g, e, At([]));
    assert Circles(Admitting(g, e), At([]), [[]], 0);
    CircleNests(Admitting(g, e), At([]), [[]], 0, 0, fuel + 1);
    BeginEndsExactlyWhen(g, fuel, At([]), [], At([]), e);
    assert ([e] + es)[0] == e;
  }

  /** With an empty list of types it still combines itself, but no event goes round: schemas on a cycle that admit nothing
      in common do not keep validation from ending. */
  lemma {:induction false} AdmittingNothingEnds(doc: Doc, floating: Loc -> Floating, es: seq<Event>)
    requires KnowsItself(doc)
    requires doc.root == VObject([Member(Ascii("allOf"), VArray([ToItself()])), Member(Ascii("type"), VArray([]))])
    ensures var g, root := GraphOf(doc, floating), doc.Meaning(doc.start);
            ReachesCycle(g, root) && RunAt(g, 0, FreshAt(root), es).Some?
  {
    hide Ascii, Doc.Meaning, GraphOf, SubRefs, Reached, RunAt, Skeleton, Admits;
    var g, ms := GraphOf(doc, floating), doc.root.members;
    AsciiDiffers("allOf", "$ref", 0);
    AsciiDiffers("type", "$ref", 0);
    AsciiDiffers("allOf", "type", 0);
    OtherOfTwo(ms[0], ms[1], "$ref");
    StartIsItself(doc);
    CombinesItself(doc, floating, [], "#");
    ReachedIsClosed(g, At([]));
    assert IsCycle(g, [[]]);
    SecondOfTwo(ms[0], ms[1], "type");
    NoTypes(doc, floating);
    NothingAdmitted(g, es);
  }

  lemma {:induction false} NoTypes(doc: Doc, floating: Loc -> Floating)
    requires doc.root.VObject? && Keyword(doc.root.members, "type") == Some(VArray([]))
    ensures forall e :: !Admits(Skeleton(GraphOf(doc, floating), At([])), e)
  {
    hide Ascii, Doc.Meaning, ItemsAt, AdditionalAt, PropertiesAt, Meanings, Keyword, CheckInt, CheckUint, LengthHolds;
    ShapeOfRoot(doc, floating);
    assert GraphOf(doc, floating)([]).scalar.types == {};
  }

  lemma {:induction false} ShapeOfRoot(doc: Doc, floating: Loc -> Floating)
    requires doc.root.VObject?
    ensures GraphOf(doc, floating)([]) == ShapeOf(doc, [], doc.root.members, floating([]))
  {
    hide ShapeOf;
  }

  lemma {:induction false} OtherOfTwo(a: Member, b: Member, keyword: string)
    requires a.name != Ascii(keyword) && b.name != Ascii(keyword)
    ensures FindMember([a, b], Ascii(keyword)) == 2
  {
    assert [a, b][1..] == [b];
    assert [b][1..] == [];
  }

  lemma {:induction false} SecondOfTwo(a: Member, b: Member, keyword: string)
    requires a.name != Ascii(keyword) && b.name == Ascii(keyword)
    ensures Keyword([a, b], keyword) == Some(b.value)
  {
    hide Ascii;
    assert [a, b][1..] == [b];
    assert FindMember([b], Ascii(keyword)) == 0;
  }

  lemma {:induction false} NothingAdmitted(g: Graph, es: seq<Event>)
    requires forall e :: !Admits(Skeleton(g, At([])), e)
    ensures RunAt(g, 0, FreshAt(At([])), es).Some?
  {
    hide Skeleton, Admits;
    if es != [] {
      assert StepAt(g, 0, FreshAt(At([])), es[0]) == Some(DeadAt(At([])));
      StaysDead(g, At([]), es[1..]);
    }
  }

  lemma {:induction false} StaysDead(g: Graph, root: SchemaRef, es: seq<Event>)
    ensures RunAt(g, 0, DeadAt(root), es) == Some(DeadAt(root))
    decreases |es|
  {
    if es != [] {
      StaysDead(g, root, es[1..]);
    }
  }

  /** `{"properties": {"a": {"$ref": "#"}}}`: a cycle through members. */
  function ContainingItself(): Value {
    VObject([Member(Ascii("properties"), VObject([Member(Ascii("a"), ToItself())]))])
  }

  /** A document that contains itself refers to itself, but reaches no cycle of combining keywords. */
  lemma {:induction false} ContainingEnds(doc: Doc, floating: Loc -> Floating)
    requires KnowsItself(doc) && doc.root == ContainingItself()
    ensures var g, root := GraphOf(doc, floating), doc.Meaning(doc.start);
            RefersTo(g([]), root) && root == At([]) && !ReachesCycle(g, root)
  {
    hide Ascii, Doc.Meaning, RefersTo, Reached, ShapeOf;
    var g := GraphOf(doc, floating);
    var v := VObject([Member(Ascii("a"), ToItself())]);
    PropertiesDiffer();
    OtherKeyword([], "properties", v, "$ref");
    StartIsItself(doc);
    NothingCombined(doc, floating, "properties", v);
    MembersOfContaining(doc, floating);
    var live := iset{[]};
    assert Closed(g, live);
    ReachedIsLeast(g, At([]), live);
    NoCycleFrom(g, At([]), live);
  }

  lemma {:induction false} NoCycleFrom(g: Graph, r: SchemaRef, live: iset<Loc>)
    requires Reached(g, r) <= live && forall loc :: loc in live ==> SubRefs(g, At(loc)) == []
    ensures !ReachesCycle(g, r)
  {
    hide Reached, SubRefs;
    if cycle :| IsCycle(g, cycle) && cycle[0] in Reached(g, r) {
      assert cycle[0] in live;
      assert Combines(g, cycle[0], if |cycle| > 1 then cycle[1] else cycle[0]);
    }
  }

  /** A document with one keyword that is not a combining one. */
  lemma {:induction false} NothingCombined(doc: Doc, floating: Loc -> Floating, name: string, v: Value)
    requires doc.root == VObject([Member(Ascii(name), v)])
    requires Ascii(name) != Ascii("allOf") && Ascii(name) != Ascii("anyOf") && Ascii(name) != Ascii("oneOf") && Ascii(name) != Ascii("not")
    ensures SubRefs(GraphOf(doc, floating), At([])) == []
  {
    hide Ascii, Doc.Meaning, ScalarKeywords, ItemsAt, AdditionalAt, PropertiesAt;
    OtherKeyword([], name, v, "allOf");
    OtherKeyword([], name, v, "anyOf");
    OtherKeyword([], name, v, "oneOf");
    OtherKeyword([], name, v, "not");
    NothingMeant(doc);
    ShapeOfRoot(doc, floating);
    var s := GraphOf(doc, floating)([]);
    assert s.allOf == [] && s.anyOf == [] && s.oneOf == [] && s.negated == None;
  }

  lemma {:induction false} NothingMeant(doc: Doc)
    ensures Meanings(doc, Inside([], IsArray)) == []
  {
  }

  /** Its one place refers to itself and to nothing else. */
  lemma {:induction false} MembersOfContaining(doc: Doc, floating: Loc -> Floating)
    requires KnowsItself(doc) && doc.root == ContainingItself()
    ensures var s := GraphOf(doc, floating)([]);
            RefersTo(s, At([])) && forall r :: RefersTo(s, r) ==> r.Typeless? || r == At([])
  {
    hide Ascii, Doc.Meaning, ScalarKeywords, PropertiesAt;
    var v := VObject([Member(Ascii("a"), ToItself())]);
    PropertiesDiffer();
    OtherKeyword([], "properties", v, "allOf");
    OtherKeyword([], "properties", v, "anyOf");
    OtherKeyword([], "properties", v, "oneOf");
    OtherKeyword([], "properties", v, "not");
    OtherKeyword([], "properties", v, "items");
    OtherKeyword([], "properties", v, "additionalItems");
    OtherKeyword([], "properties", v, "additionalProperties");
    OnePropertyThere(doc);
    NothingMeant(doc);
    var s := GraphOf(doc, floating)([]);
    assert s.properties == PropertiesAt(doc, [], doc.root.members);
    assert s.properties[0].ref == At([]);
  }

  lemma {:induction false} PropertiesDiffer()
    ensures Ascii("properties") != Ascii("allOf") && Ascii("properties") != Ascii("anyOf") && Ascii("properties") != Ascii("oneOf")
    ensures Ascii("properties") != Ascii("not") && Ascii("properties") != Ascii("items") && Ascii("properties") != Ascii("required")
    ensures Ascii("properties") != Ascii("additionalItems") && Ascii("properties") != Ascii("additionalProperties")
    ensures Ascii("properties") != Ascii("$ref")
  {
    AsciiDiffers("properties", "allOf", 0);
    AsciiDiffers("properties", "anyOf", 0);
    AsciiDiffers("properties", "oneOf", 0);
    AsciiDiffers("properties", "not", 0);
    AsciiDiffers("properties", "items", 0);
    AsciiDiffers("properties", "required", 0);
    AsciiDiffers("properties", "additionalItems", 0);
    AsciiDiffers("properties", "additionalProperties", 0);
    AsciiDiffers("properties", "$ref", 0);
  }

  lemma {:induction false} OnePropertyThere(doc: Doc)
    requires KnowsItself(doc) && doc.root == ContainingItself()
    ensures var ps := PropertiesAt(doc, [], doc.root.members);
            ps != [] && forall k :: 0 <= k < |ps| ==> ps[k].ref == At([])
  {
    hide Ascii, Doc.Meaning;
    var ms, name := doc.root.members, Ascii("a");
    PropertiesDiffer();
    OtherKeyword([], "properties", ms[0].value, "required");
    OtherKeyword([], "properties", ms[0].value, "$ref");
    assert DeclaredNames(ms) == [name];
    assert RequiredNames(ms) == [];
    var loc := [NameToken0(Ascii("properties")), NameToken0(name)];
    assert [] + loc == loc;
    assert loc[1..] == [NameToken0(name)];
    assert loc[1..][1..] == [];
    assert Get(ms[0].value, loc[1..]) == Some(ToItself());
    ReferenceMeans(doc, loc, "#", []);
    assert name in TableNames(ms);
  }

  /** `{"default": {"allOf": [{"$ref": "#/default"}]}}`: a cycle that nothing reaches does no harm. */
  lemma {:induction false} UnreachedCycle(doc: Doc, floating: Loc -> Floating)
    requires doc.start == [] && doc.resolve(Ascii("#/default")) == Some([NameToken0(Ascii("default"))])
    requires doc.root == VObject([Member(Ascii("default"), VObject([Member(Ascii("allOf"), VArray([RefTo("#/default")]))]))])
    ensures var g := GraphOf(doc, floating);
            IsCycle(g, [[NameToken0(Ascii("default"))]]) && !ReachesCycle(g, doc.Meaning(doc.start))
  {
    hide Ascii, Doc.Meaning, RefersTo, Reached, GraphOf, SubRefs;
    var g, here := GraphOf(doc, floating), [NameToken0(Ascii("default"))];
    var v, all := doc.root.members[0].value, VArray([RefTo("#/default")]);
    DefaultDiffers();
    AsciiDiffers("allOf", "$ref", 0);
    OtherKeyword([], "default", v, "$ref");
    OtherKeyword([], "allOf", all, "$ref");
    GetAppended(doc.root, [], here[0]);
    assert [] + [here[0]] == here;
    CombinesItself(doc, floating, here, "#/default");
    StartIsItself(doc);
    NothingCombined(doc, floating, "default", v);
    OnlyDefault(doc, floating, v);
    assert Closed(g, iset{[]});
    ReachedIsLeast(g, At([]), iset{[]});
    NoCycleFrom(g, At([]), iset{[]});
  }

  lemma {:induction false} DefaultDiffers()
    ensures Ascii("default") != Ascii("allOf") && Ascii("default") != Ascii("anyOf") && Ascii("default") != Ascii("oneOf")
    ensures Ascii("default") != Ascii("not") && Ascii("default") != Ascii("items") && Ascii("default") != Ascii("required")
    ensures Ascii("default") != Ascii("additionalItems") && Ascii("default") != Ascii("additionalProperties")
    ensures Ascii("default") != Ascii("properties") && Ascii("default") != Ascii("$ref")
  {
    AsciiDiffers("default", "allOf", 0);
    AsciiDiffers("default", "anyOf", 0);
    AsciiDiffers("default", "oneOf", 0);
    AsciiDiffers("default", "not", 0);
    AsciiDiffers("default", "items", 0);
    AsciiDiffers("default", "required", 0);
    AsciiDiffers("default", "additionalItems", 0);
    AsciiDiffers("default", "additionalProperties", 0);
    AsciiDiffers("default", "properties", 0);
    AsciiDiffers("default", "$ref", 0);
  }


  lemma {:induction false} OnlyDefault(doc: Doc, floating: Loc -> Floating, v: Value)
    requires doc.root == VObject([Member(Ascii("default"), v)])
    ensures forall r :: RefersTo(GraphOf(doc, floating)([]), r) ==> r.Typeless?
  {
    hide Ascii, Doc.Meaning, ScalarKeywords;
    DefaultDiffers();
    OtherKeyword([], "default", v, "allOf");
    OtherKeyword([], "default", v, "anyOf");
    OtherKeyword([], "default", v, "oneOf");
    OtherKeyword([], "default", v, "not");
    OtherKeyword([], "default", v, "items");
    OtherKeyword([], "default", v, "additionalItems");
    OtherKeyword([], "default", v, "additionalProperties");
    OtherKeyword([], "default", v, "properties");
    NothingMeant(doc);
    OtherKeyword([], "default", v, "required");
    ShapeOfRoot(doc, floating);
    var names := TableNames(doc.root.members);
    FirstIsIn(names);
    assert PropertiesAt(doc, [], doc.root.members) == [];
  }
}
