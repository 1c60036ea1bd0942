/**
 The graph that the compiler leaves: the schemas with the links it has made. It is the graph of the document, wherever the
 compiler has built a schema.
 */
module CompiledGraph {
  import opened Options
  import opened Json
  import opened Document
  import opened PointerAccess
  import opened SchemaCompile
  import opened Schema
  import opened SchemaGraph
  import opened SchemaCycles
  import opened SchemaKeywords
  import SchemaDocument

  // ------------------------------------------------------------ the links of one schema

  /** The last `n` links, and those before them. */
  function Last(refs: seq<SchemaRef>, n: nat): seq<SchemaRef> {
    if n <= |refs| then refs[|refs| - n..] else []
  }

  function Before(refs: seq<SchemaRef>, n: nat): seq<SchemaRef> {
    if n <= |refs| then refs[..|refs| - n] else []
  }

  /** The links of a schema by keyword. */
  datatype Links = Links(
    allOf: seq<SchemaRef>, anyOf: seq<SchemaRef>, oneOf: seq<SchemaRef>, negated: seq<SchemaRef>,
    properties: seq<SchemaRef>, additionalProperties: seq<SchemaRef>,
    items: seq<SchemaRef>, tuple: seq<SchemaRef>, additionalItems: seq<SchemaRef>)

  /** In the order in which the constructor of a schema asks for them. */
  function LinksOf(loc: Loc, ms: seq<Member>, refs: seq<SchemaRef>): Links {
    var others, tuple := |Only(Under(loc, ms, "additionalItems"), IsObject)|, |Inside(Under(loc, ms, "items"), IsArray)|;
    var items, additional := |Only(Under(loc, ms, "items"), IsObject)|, |Only(Under(loc, ms, "additionalProperties"), IsObject)|;
    var dependencies := |Only(Inside(Under(loc, ms, "dependencies"), IsObject), IsObject)|;
    var patterns, properties := |Inside(Under(loc, ms, "patternProperties"), IsObject)|, |Inside(Under(loc, ms, "properties"), IsObject)|;
    var not, one := |Under(loc, ms, "not")|, |Inside(Under(loc, ms, "oneOf"), IsArray)|;
    var any := |Inside(Under(loc, ms, "anyOf"), IsArray)|;
    var r1 := Before(refs, others);
    var r2 := Before(r1, tuple);
    var r3 := Before(r2, items);
    var r4 := Before(r3, additional);
    var r5 := Before(Before(r4, dependencies), patterns);
    var r6 := Before(r5, properties);
    var r7 := Before(r6, not);
    var r8 := Before(r7, one);
    Links(Before(r8, any), Last(r8, any), Last(r7, one), Last(r6, not), Last(r5, properties),
          Last(r3, additional), Last(r2, items), Last(r1, tuple), Last(refs, others))
  }

  lemma {:induction false} TakenApart(doc: Doc, a: seq<Place>, b: seq<Place>)
    ensures var refs := Meanings(doc, a + b); Before(refs, |b|) == Meanings(doc, a) && Last(refs, |b|) == Meanings(doc, b)
  {
    hide Doc.Meaning;
    MeaningsJoin(doc, a, b);
  }

  /** Taken apart, links that mean what their places mean are those of the keywords. */
  lemma {:induction false} LinksMeanKeywords(doc: Doc, loc: Loc, ms: seq<Member>)
    ensures LinksOf(loc, ms, Meanings(doc, SubPlaces(loc, VObject(ms))))
            == Links(Meanings(doc, Inside(Under(loc, ms, "allOf"), IsArray)),
                     Meanings(doc, Inside(Under(loc, ms, "anyOf"), IsArray)),
                     Meanings(doc, Inside(Under(loc, ms, "oneOf"), IsArray)),
                     Meanings(doc, Under(loc, ms, "not")),
                     Meanings(doc, Inside(Under(loc, ms, "properties"), IsObject)),
                     Meanings(doc, Only(Under(loc, ms, "additionalProperties"), IsObject)),
                     Meanings(doc, Only(Under(loc, ms, "items"), IsObject)),
                     Meanings(doc, Inside(Under(loc, ms, "items"), IsArray)),
                     Meanings(doc, Only(Under(loc, ms, "additionalItems"), IsObject)))
  {
    hide Doc.Meaning, Under, Inside, Only, Meanings, Last, Before;
    var all, any, one := Inside(Under(loc, ms, "allOf"), IsArray), Inside(Under(loc, ms, "anyOf"), IsArray), Inside(Under(loc, ms, "oneOf"), IsArray);
    var not := Under(loc, ms, "not");
    var properties, patterns := Inside(Under(loc, ms, "properties"), IsObject), Inside(Under(loc, ms, "patternProperties"), IsObject);
    var dependencies := Only(Inside(Under(loc, ms, "dependencies"), IsObject), IsObject);
    var additional := Only(Under(loc, ms, "additionalProperties"), IsObject);
    var items, tuple := Only(Under(loc, ms, "items"), IsObject), Inside(Under(loc, ms, "items"), IsArray);
    var others := Only(Under(loc, ms, "additionalItems"), IsObject);
    TakenApart(doc, all, any);
    TakenApart(doc, all + any, one);
    TakenApart(doc, all + any + one, not);
    TakenApart(doc, all + any + one + not, properties);
    TakenApart(doc, all + any + one + not + properties, patterns);
    TakenApart(doc, all + any + one + not + properties + patterns, dependencies);
    var most := all + any + one + not + properties + patterns + dependencies;
    TakenApart(doc, most, additional);
    TakenApart(doc, most + additional, items);
    TakenApart(doc, most + additional + items, tuple);
    TakenApart(doc, most + additional + items + tuple, others);
    assert SubPlaces(loc, VObject(ms)) == most + additional + items + tuple + others;
  }

  // ------------------------------------------------------------ the schema with its links

  function AdditionalLinked(v: Option<Value>, refs: seq<SchemaRef>): GraphAdditional {
    if refs != [] then MustMatch(refs[0])
    else if v.Some? && v.value.VBool? && !v.value.b then MayNotFollow
    else MayFollow
  }

  function ItemsLinked(v: Option<Value>, list: seq<SchemaRef>, tuple: seq<SchemaRef>): GraphItems {
    if list != [] then ListOf(list[0])
    else if v.Some? && v.value.VArray? then TupleOf(tuple)
    else NoItems
  }

  /** Where a name is in a list of names. */
  function IndexOfName(names: seq<Bytes>, name: Bytes): (i: nat)
    ensures i <= |names| && (i < |names| ==> names[i] == name) && (i == |names| ==> name !in names)
  {
    if names == [] || names[0] == name then 0 else 1 + IndexOfName(names[1..], name)
  }

  function PropertyLinked(ms: seq<Member>, refs: seq<SchemaRef>, name: Bytes): GraphProperty {
    var names := DeclaredNames(ms);
    var i := IndexOfName(names, name);
    GraphProperty(name, if i < |names| && i < |refs| then refs[i] else Typeless, name in RequiredNames(ms), i < |names|)
  }

  function PropertiesLinked(ms: seq<Member>, refs: seq<SchemaRef>): seq<GraphProperty> {
    var names := TableNames(ms);
    seq(|names|, k requires 0 <= k < |names| => PropertyLinked(ms, refs, names[k]))
  }

  function ShapeLinked(loc: Loc, ms: seq<Member>, refs: seq<SchemaRef>, floating: Floating): Shape {
    var l := LinksOf(loc, ms, refs);
    Shape(ScalarKeywords(ms, floating),
          ItemsLinked(Keyword(ms, "items"), l.items, l.tuple),
          AdditionalLinked(Keyword(ms, "additionalItems"), l.additionalItems),
          PropertiesLinked(ms, l.properties),
          AdditionalLinked(Keyword(ms, "additionalProperties"), l.additionalProperties),
          l.allOf, l.anyOf, l.oneOf, if l.negated != [] then Some(l.negated[0]) else None)
  }

  /** What the validator gets: the schemas the compiler has built. */
  function GraphLinked(root: Value, links: map<Loc, seq<SchemaRef>>, floating: Loc -> Floating): Graph {
    loc => match Get(root, loc)
           case Some(VObject(ms)) =>
             if loc in links then ShapeLinked(loc, ms, links[loc], floating(loc)) else TypelessShape()
           case _ => TypelessShape()
  }

  lemma {:induction false} PropertiesLinkedMean(doc: Doc, loc: Loc, ms: seq<Member>, name: Bytes)
    ensures PropertyLinked(ms, Meanings(doc, Inside(Under(loc, ms, "properties"), IsObject)), name) == PropertyAt(doc, loc, ms, name)
  {
    hide Doc.Meaning, RequiredNames, Ascii;
    var names, ps := DeclaredNames(ms), Inside(Under(loc, ms, "properties"), IsObject);
    var i := IndexOfName(names, name);
    if i < |names| {
      assert |ps| == |names|;
      assert ps[i].loc == loc + [NameToken0(Ascii("properties"))] + [NameToken0(name)];
      assert loc + [NameToken0(Ascii("properties"))] + [NameToken0(name)] == loc + [NameToken0(Ascii("properties")), NameToken0(name)];
    }
  }

  lemma {:induction false} AdditionalLinkedMeans(doc: Doc, loc: Loc, ms: seq<Member>, keyword: string)
    ensures AdditionalLinked(Keyword(ms, keyword), Meanings(doc, Only(Under(loc, ms, keyword), IsObject)))
            == AdditionalAt(doc, loc, ms, keyword)
  {
    hide Doc.Meaning, Ascii;
    OnlyOfOne(Under(loc, ms, keyword));
  }

  lemma {:induction false} OnlyOfOne(ps: seq<Place>)
    requires |ps| <= 1
    ensures Only(ps, IsObject) == if ps != [] && IsObject(ps[0]) then ps else []
  {
    if ps != [] {
      assert ps[1..] == [] && ps == [ps[0]];
    }
  }

  lemma {:induction false} ItemsLinkedMean(doc: Doc, loc: Loc, ms: seq<Member>)
    ensures ItemsLinked(Keyword(ms, "items"), Meanings(doc, Only(Under(loc, ms, "items"), IsObject)),
                        Meanings(doc, Inside(Under(loc, ms, "items"), IsArray)))
            == ItemsAt(doc, loc, ms)
  {
    hide Doc.Meaning, Ascii;
    OnlyOfOne(Under(loc, ms, "items"));
  }

  /** A schema with links that mean what their places mean is what the document says. */
  lemma {:induction false} ShapeLinkedMeans(doc: Doc, loc: Loc, ms: seq<Member>, floating: Floating)
    ensures ShapeLinked(loc, ms, Meanings(doc, SubPlaces(loc, VObject(ms))), floating) == ShapeOf(doc, loc, ms, floating)
  {
    hide Doc.Meaning, Under, Inside, Only, SubPlaces, ScalarKeywords, ItemsLinked, ItemsAt, AdditionalLinked, AdditionalAt, PropertyLinked,
         PropertyAt, LinksOf, TableNames, DeclaredNames, RequiredNames, Keyword;
    LinksMeanKeywords(doc, loc, ms);
    ItemsLinkedMean(doc, loc, ms);
    AdditionalLinkedMeans(doc, loc, ms, "additionalItems");
    AdditionalLinkedMeans(doc, loc, ms, "additionalProperties");
    var ps := Meanings(doc, Inside(Under(loc, ms, "properties"), IsObject));
    forall name ensures PropertyLinked(ms, ps, name) == PropertyAt(doc, loc, ms, name) {
      PropertiesLinkedMean(doc, loc, ms, name);
    }
    assert PropertiesLinked(ms, ps) == PropertiesAt(doc, loc, ms);
  }

  // ------------------------------------------------------------ the whole graph

  ghost function BuiltPlaces(links: map<Loc, seq<SchemaRef>>): iset<Loc> {
    iset loc: Loc | loc in links
  }

  /** What the compiler leaves: the links of every schema mean what their places mean, and lead to other schemas. */
  ghost predicate Complete(doc: Doc, links: map<Loc, seq<SchemaRef>>) {
    && (forall loc :: loc in links ==> SchemaDocument.LinksMean(doc, loc, links[loc]))
    && (forall loc, k :: loc in links && 0 <= k < |links[loc]| ==> Alive(BuiltPlaces(links), links[loc][k]))
  }

  /** Where a schema was built the compiled graph is that of the document. */
  lemma {:induction false} LinkedIsMeant(doc: Doc, links: map<Loc, seq<SchemaRef>>, floating: Loc -> Floating, loc: Loc)
    requires Complete(doc, links) && loc in links
    ensures GraphLinked(doc.root, links, floating)(loc) == GraphOf(doc, floating)(loc)
    ensures forall r :: RefersTo(GraphOf(doc, floating)(loc), r) ==> Alive(BuiltPlaces(links), r)
  {
    hide ShapeLinked, ShapeOf, SubPlaces, Doc.Meaning, RefersTo;
    assert SchemaDocument.LinksMean(doc, loc, links[loc]);
    var ms := Get(doc.root, loc).value.members;
    assert links[loc] == Meanings(doc, SubPlaces(loc, VObject(ms)));
    ShapeLinkedMeans(doc, loc, ms, floating(loc));
    forall r | RefersTo(ShapeOf(doc, loc, ms, floating(loc)), r) ensures Alive(BuiltPlaces(links), r) {
      if r.At? {
        RefsAreLinks(doc, loc, ms, floating(loc), r);
        var k :| 0 <= k < |links[loc]| && links[loc][k] == r;
      }
    }
  }

  /** The compiled graph and that of the document agree on all that validation with the compiled one can come to. */
  lemma {:induction false} CompiledAgrees(doc: Doc, links: map<Loc, seq<SchemaRef>>, floating: Loc -> Floating)
    requires Complete(doc, links)
    ensures Agree(GraphOf(doc, floating), GraphLinked(doc.root, links, floating), BuiltPlaces(links))
  {
    hide GraphOf, GraphLinked, Complete, RefersTo, BuiltPlaces;
    forall loc | loc in BuiltPlaces(links)
      ensures GraphOf(doc, floating)(loc) == GraphLinked(doc.root, links, floating)(loc)
      ensures forall s :: RefersTo(GraphOf(doc, floating)(loc), s) ==> Alive(BuiltPlaces(links), s)
    {
      assert loc in links by { BuiltIsLinked(links, loc); }
      LinkedIsMeant(doc, links, floating, loc);
    }
  }

  lemma {:induction false} BuiltIsLinked(links: map<Loc, seq<SchemaRef>>, loc: Loc)
    requires loc in BuiltPlaces(links)
    ensures loc in links
  {
  }
}
