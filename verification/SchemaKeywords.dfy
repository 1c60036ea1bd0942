/**
 The graph of a schema document: the keywords as the constructor of a schema reads them, and the references that the
 compiler resolves.
 */
module SchemaKeywords {
  import opened Options
  import opened Json
  import opened Document
  import opened PointerAccess
  import opened SchemaCompile
  import opened Schema
  import opened SchemaGraph

  function Keyword(ms: seq<Member>, keyword: string): Option<Value> {
    var i := FindMember(ms, Ascii(keyword));
    if i < |ms| then Some(ms[i].value) else None
  }

  function TypeNamed(name: Bytes): set<SimpleType> {
    if name == Ascii("null") then {NullType}
    else if name == Ascii("boolean") then {BooleanType}
    else if name == Ascii("object") then {ObjectType}
    else if name == Ascii("array") then {ArrayType}
    else if name == Ascii("string") then {StringType}
    else if name == Ascii("integer") then {IntegerType}
    else if name == Ascii("number") then {NumberType, IntegerType}
    else {}
  }

  function TypesNamed(es: seq<Value>): set<SimpleType> {
    if es == [] then {}
    else (if es[0].VString? then TypeNamed(es[0].s) else {}) + TypesNamed(es[1..])
  }

  /** All types if there is no keyword, none if it is neither a string nor an array. */
  function TypesOf(v: Option<Value>): set<SimpleType> {
    match v
    case None => ALL_TYPES
    case Some(VString(s)) => TypeNamed(s)
    case Some(VArray(es)) => TypesNamed(es)
    case _ => {}
  }

  function FlagOf(v: Option<Value>): bool {
    v.Some? && v.value.VBool? && v.value.b
  }

  /** A count is taken if it fits 32 bits. */
  function CountOf(v: Option<Value>): Option<nat> {
    if v.Some? && v.value.VInt? && 0 <= v.value.n <= 0xFFFF_FFFF then Some(v.value.n) else None
  }

  function LeastOf(v: Option<Value>): nat {
    if CountOf(v).Some? then CountOf(v).value else 0
  }

  function BoundOf(v: Option<Value>): Option<int> {
    if v.Some? && v.value.VInt? then Some(v.value.n) else None
  }

  predicate HasBound(ms: seq<Member>) {
    HasDoubleBound(ms) || BoundOf(Keyword(ms, "minimum")).Some? || BoundOf(Keyword(ms, "maximum")).Some?
  }

  predicate HasDoubleBound(ms: seq<Member>) {
    || (Keyword(ms, "minimum").Some? && Keyword(ms, "minimum").value.VDouble?)
    || (Keyword(ms, "maximum").Some? && Keyword(ms, "maximum").value.VDouble?)
  }

  /** The keywords without other schemas. */
  function ScalarKeywords(ms: seq<Member>, floating: Floating): Schema {
    TYPELESS.(
      types := TypesOf(Keyword(ms, "type")),
      minimum := BoundOf(Keyword(ms, "minimum")), exclusiveMinimum := FlagOf(Keyword(ms, "exclusiveMinimum")),
      maximum := BoundOf(Keyword(ms, "maximum")), exclusiveMaximum := FlagOf(Keyword(ms, "exclusiveMaximum")),
      floating := Floating(if HasBound(ms) then floating.doubles else text => true,
                           if HasDoubleBound(ms) then floating.integers else n => true),
      minLength := LeastOf(Keyword(ms, "minLength")), maxLength := CountOf(Keyword(ms, "maxLength")),
      minItems := LeastOf(Keyword(ms, "minItems")), maxItems := CountOf(Keyword(ms, "maxItems")),
      minProperties := LeastOf(Keyword(ms, "minProperties")), maxProperties := CountOf(Keyword(ms, "maxProperties")),
      defaultValueLength := match Keyword(ms, "default") case Some(VString(s)) => |s| case _ => 0)
  }

  ghost function Meanings(doc: Doc, ps: seq<Place>): seq<SchemaRef> {
    seq(|ps|, k requires 0 <= k < |ps| => doc.Meaning(ps[k].loc))
  }

  ghost function ItemsAt(doc: Doc, loc: Loc, ms: seq<Member>): GraphItems {
    var ps := Under(loc, ms, "items");
    if ps != [] && IsObject(ps[0]) then ListOf(doc.Meaning(ps[0].loc))
    else if ps != [] && IsArray(ps[0]) then TupleOf(Meanings(doc, Inside(ps, IsArray)))
    else NoItems
  }

  ghost function AdditionalAt(doc: Doc, loc: Loc, ms: seq<Member>, keyword: string): GraphAdditional {
    var ps := Under(loc, ms, keyword);
    if ps != [] && IsObject(ps[0]) then MustMatch(doc.Meaning(ps[0].loc))
    else if ps != [] && ps[0].value.VBool? && !ps[0].value.b then MayNotFollow
    else MayFollow
  }

  /** The strings under `required`. */
  function RequiredNames(ms: seq<Member>): seq<Bytes> {
    match Keyword(ms, "required")
    case Some(VArray(es)) => StringsIn(es)
    case _ => []
  }

  function StringsIn(es: seq<Value>): seq<Bytes> {
    if es == [] then [] else (if es[0].VString? then [es[0].s] else []) + StringsIn(es[1..])
  }

  function DeclaredNames(ms: seq<Member>): seq<Bytes> {
    match Keyword(ms, "properties")
    case Some(VObject(qs)) => seq(|qs|, k requires 0 <= k < |qs| => qs[k].name)
    case _ => []
  }

  /** The names that are not in the table yet are added to it. */
  function AddUnique(table: seq<Bytes>, names: seq<Bytes>): (r: seq<Bytes>)
    requires forall i, j :: 0 <= i < j < |table| ==> table[i] != table[j]
    ensures forall i, j :: 0 <= i < j < |r| ==> r[i] != r[j]
    ensures table <= r && forall name :: name in r <==> name in table || name in names
    decreases |names|
  {
    if names == [] then table
    else AddUnique(if names[0] in table then table else table + [names[0]], names[1..])
  }

  lemma {:induction false} FirstIsIn(names: seq<Bytes>)
    ensures names != [] ==> names[0] in names
  {
  }

  /** The names of the property table. */
  function TableNames(ms: seq<Member>): (names: seq<Bytes>)
    ensures forall i, j :: 0 <= i < j < |names| ==> names[i] != names[j]
    ensures forall name :: name in names <==> name in DeclaredNames(ms) || name in RequiredNames(ms)
  {
    AddUnique(AddUnique([], DeclaredNames(ms)), RequiredNames(ms))
  }

  /** An entry of the property table: a name that is only required has no schema of its own. */
  ghost function PropertyAt(doc: Doc, loc: Loc, ms: seq<Member>, name: Bytes): GraphProperty {
    var declared := name in DeclaredNames(ms);
    GraphProperty(name,
                  if declared then doc.Meaning(loc + [NameToken0(Ascii("properties")), NameToken0(name)]) else Typeless,
                  name in RequiredNames(ms), declared)
  }

  ghost function PropertiesAt(doc: Doc, loc: Loc, ms: seq<Member>): seq<GraphProperty> {
    var names := TableNames(ms);
    seq(|names|, k requires 0 <= k < |names| => PropertyAt(doc, loc, ms, names[k]))
  }

  /** What the constructor of a schema makes of the object at a place. */
  ghost function ShapeOf(doc: Doc, loc: Loc, ms: seq<Member>, floating: Floating): Shape {
    var negated := Under(loc, ms, "not");
    Shape(ScalarKeywords(ms, floating),
          ItemsAt(doc, loc, ms), AdditionalAt(doc, loc, ms, "additionalItems"),
          PropertiesAt(doc, loc, ms), AdditionalAt(doc, loc, ms, "additionalProperties"),
          Meanings(doc, Inside(Under(loc, ms, "allOf"), IsArray)),
          Meanings(doc, Inside(Under(loc, ms, "anyOf"), IsArray)),
          Meanings(doc, Inside(Under(loc, ms, "oneOf"), IsArray)),
          if negated != [] then Some(doc.Meaning(negated[0].loc)) else None)
  }

  ghost function GraphOf(doc: Doc, floating: Loc -> Floating): Graph {
    loc => match Get(doc.root, loc)
           case Some(VObject(ms)) => ShapeOf(doc, loc, ms, floating(loc))
           case _ => ShapeOf(doc, loc, [], floating(loc))
  }

  lemma {:induction false} MeaningsJoin(doc: Doc, a: seq<Place>, b: seq<Place>)
    ensures Meanings(doc, a + b) == Meanings(doc, a) + Meanings(doc, b)
  {
    hide Doc.Meaning;
  }

  /** A name under `properties` is that of a place in it. */
  lemma {:induction false} DeclaredPlace(doc: Doc, loc: Loc, ms: seq<Member>, name: Bytes)
    requires name in DeclaredNames(ms)
    ensures doc.Meaning(loc + [NameToken0(Ascii("properties")), NameToken0(name)])
            in Meanings(doc, Inside(Under(loc, ms, "properties"), IsObject))
  {
    hide Doc.Meaning;
    var i := FindMember(ms, Ascii("properties"));
    var qs := ms[i].value.members;
    var k :| 0 <= k < |qs| && DeclaredNames(ms)[k] == name;
    var ps := Inside(Under(loc, ms, "properties"), IsObject);
    assert ps[k].loc == loc + [NameToken0(Ascii("properties"))] + [NameToken0(name)];
    assert loc + [NameToken0(Ascii("properties"))] + [NameToken0(name)] == loc + [NameToken0(Ascii("properties")), NameToken0(name)];
    assert Meanings(doc, ps)[k] == doc.Meaning(ps[k].loc);
  }

  /** Every reference of the graph is one to which the compiler has given a schema: it is what one of the places means
      for whose schemas the constructor asks. */
  lemma {:induction false} RefsAreLinks(doc: Doc, loc: Loc, ms: seq<Member>, floating: Floating, ref: SchemaRef)
    requires ref.At? && RefersTo(ShapeOf(doc, loc, ms, floating), ref)
    ensures ref in Meanings(doc, SubPlaces(loc, VObject(ms)))
  {
    hide Doc.Meaning, Under, Inside, Only, Meanings, ScalarKeywords, PropertiesAt, ItemsAt, AdditionalAt;
    var all, any, one := Inside(Under(loc, ms, "allOf"), IsArray), Inside(Under(loc, ms, "anyOf"), IsArray), Inside(Under(loc, ms, "oneOf"), IsArray);
    var not := Under(loc, ms, "not");
    var properties, patterns := Inside(Under(loc, ms, "properties"), IsObject), Inside(Under(loc, ms, "patternProperties"), IsObject);
    var dependencies := Only(Inside(Under(loc, ms, "dependencies"), IsObject), IsObject);
    var additional := Only(Under(loc, ms, "additionalProperties"), IsObject);
    var items, tuple := Only(Under(loc, ms, "items"), IsObject), Inside(Under(loc, ms, "items"), IsArray);
    var others := Only(Under(loc, ms, "additionalItems"), IsObject);
    MeaningsJoin(doc, all, any);
    MeaningsJoin(doc, all + any, one);
    MeaningsJoin(doc, all + any + one, not);
    MeaningsJoin(doc, all + any + one + not, properties);
    MeaningsJoin(doc, all + any + one + not + properties, patterns);
    MeaningsJoin(doc, all + any + one + not + properties + patterns, dependencies);
    var most := all + any + one + not + properties + patterns + dependencies;
    MeaningsJoin(doc, most, additional);
    MeaningsJoin(doc, most + additional, items);
    MeaningsJoin(doc, most + additional + items, tuple);
    MeaningsJoin(doc, most + additional + items + tuple, others);
    assert SubPlaces(loc, VObject(ms)) == most + additional + items + tuple + others;
    PropertyRefs(doc, loc, ms, ref);
    ItemRefs(doc, loc, ms, ref);
    AdditionalRefs(doc, loc, ms, "additionalItems", ref);
    AdditionalRefs(doc, loc, ms, "additionalProperties", ref);
    NotRef(doc, loc, ms, floating);
  }

  lemma {:induction false} NotRef(doc: Doc, loc: Loc, ms: seq<Member>, floating: Floating)
    ensures var n := ShapeOf(doc, loc, ms, floating).negated; n.Some? ==> n.value in Meanings(doc, Under(loc, ms, "not"))
  {
    hide Doc.Meaning;
    var ps := Under(loc, ms, "not");
    assert ps != [] ==> Meanings(doc, ps)[0] == doc.Meaning(ps[0].loc);
  }

  lemma {:induction false} PropertyRefs(doc: Doc, loc: Loc, ms: seq<Member>, ref: SchemaRef)
    requires ref.At?
    ensures var ps := PropertiesAt(doc, loc, ms);
            (exists k :: 0 <= k < |ps| && ps[k].ref == ref) ==> ref in Meanings(doc, Inside(Under(loc, ms, "properties"), IsObject))
  {
    hide Doc.Meaning, Meanings, DeclaredNames, RequiredNames;
    var ps := PropertiesAt(doc, loc, ms);
    if k :| 0 <= k < |ps| && ps[k].ref == ref {
      DeclaredPlace(doc, loc, ms, ps[k].name);
    }
  }

  lemma {:induction false} ItemRefs(doc: Doc, loc: Loc, ms: seq<Member>, ref: SchemaRef)
    ensures var items, ps := ItemsAt(doc, loc, ms), Under(loc, ms, "items");
            && (items == ListOf(ref) ==> ref in Meanings(doc, Only(ps, IsObject)))
            && (items.TupleOf? && ref in items.refs ==> ref in Meanings(doc, Inside(ps, IsArray)))
  {
    hide Doc.Meaning;
    OnlyFirst(doc, loc, ms, "items");
  }

  lemma {:induction false} AdditionalRefs(doc: Doc, loc: Loc, ms: seq<Member>, keyword: string, ref: SchemaRef)
    ensures AdditionalAt(doc, loc, ms, keyword) == MustMatch(ref) ==> ref in Meanings(doc, Only(Under(loc, ms, keyword), IsObject))
  {
    hide Doc.Meaning;
    OnlyFirst(doc, loc, ms, keyword);
  }

  lemma {:induction false} OnlyFirst(doc: Doc, loc: Loc, ms: seq<Member>, keyword: string)
    ensures var ps := Under(loc, ms, keyword); ps != [] && IsObject(ps[0]) ==> doc.Meaning(ps[0].loc) in Meanings(doc, Only(ps, IsObject))
  {
    hide Doc.Meaning;
    var ps := Under(loc, ms, keyword);
    if ps != [] && IsObject(ps[0]) {
      assert Only(ps, IsObject)[0] == ps[0];
      assert Meanings(doc, Only(ps, IsObject))[0] == doc.Meaning(ps[0].loc);
    }
  }

  /** In a document whose integers fit 64 bits every schema of the graph is as the validator needs it. */
  lemma {:induction false} GraphOfIsOk(doc: Doc, floating: Loc -> Floating)
    requires Representable(doc.root)
    ensures GraphOk(GraphOf(doc, floating))
  {
    hide ShapeOk, ShapeOf;
    forall loc: Loc ensures ShapeOk(GraphOf(doc, floating)(loc)) {
      var v := Get(doc.root, loc);
      ShapeOfOk(doc, loc, [], floating(loc));
      if v.Some? && v.value.VObject? {
        GetRepresentable(doc.root, loc);
        ShapeOfOk(doc, loc, v.value.members, floating(loc));
      }
    }
  }

  lemma {:induction false} GetRepresentable(v: Value, p: Loc)
    requires Representable(v) && Get(v, p).Some?
    ensures Representable(Get(v, p).value)
    decreases |p|
  {
    if p != [] {
      GetRepresentable(Child(v, p[0]).value, p[1..]);
    }
  }

  lemma {:induction false} ShapeOfOk(doc: Doc, loc: Loc, ms: seq<Member>, floating: Floating)
    requires forall i :: 0 <= i < |ms| ==> Representable(ms[i].value)
    ensures ShapeOk(ShapeOf(doc, loc, ms, floating))
  {
    hide Doc.Meaning, ItemsAt, AdditionalAt, Meanings, Inside, Under, TypesOf, CountOf, LeastOf, FlagOf, BoundOf, Keyword, PropertiesAt;
    BoundOk(ms, "minimum");
    BoundOk(ms, "maximum");
    TableOfOk(doc, loc, ms);
  }

  lemma {:induction false} BoundOk(ms: seq<Member>, keyword: string)
    requires forall i :: 0 <= i < |ms| ==> Representable(ms[i].value)
    ensures var b := BoundOf(Keyword(ms, keyword)); b.Some? ==> IsInt64(b.value) || IsUint64(b.value)
  {
    hide FindMember, Ascii;
  }

  lemma {:induction false} TableOfOk(doc: Doc, loc: Loc, ms: seq<Member>)
    ensures var ps := PropertiesAt(doc, loc, ms);
            && (forall i, j :: 0 <= i < j < |ps| ==> ps[i].name != ps[j].name)
            && (forall i :: 0 <= i < |ps| && !ps[i].declared ==> ps[i].ref.Typeless?)
  {
    hide Doc.Meaning, DeclaredNames, RequiredNames, TableNames;
    var names := TableNames(ms);
    var ps := PropertiesAt(doc, loc, ms);
    assert forall k :: 0 <= k < |ps| ==> ps[k].name == names[k];
  }
}
