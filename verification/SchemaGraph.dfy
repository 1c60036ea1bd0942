/**
 Compiled schemas refer to each other, and may do so in cycles; a validator runs along these references. This is what
 such a graph means, when it means anything, and that streaming validation decides it: along a tree a validator sees
 the graph only as deep as the tree is, where it cannot be told from a finite schema.
 */
module SchemaGraph {
  import opened Options
  import opened Json
  import opened Document
  import opened PointerAccess
  import opened SchemaCompile
  import opened Schema
  import opened Validation
  import opened Validity

  // ------------------------------------------------------------ graphs

  datatype GraphItems = NoItems | ListOf(ref: SchemaRef) | TupleOf(refs: seq<SchemaRef>)

  datatype GraphAdditional = MayFollow | MayNotFollow | MustMatch(ref: SchemaRef)

  datatype GraphProperty = GraphProperty(name: Bytes, ref: SchemaRef, required: bool, declared: bool)

  /** One schema; `scalar` has its keywords without other schemas. */
  datatype Shape = Shape(
    scalar: Schema,
    items: GraphItems, additionalItems: GraphAdditional,
    properties: seq<GraphProperty>, additionalProperties: GraphAdditional,
    allOf: seq<SchemaRef>, anyOf: seq<SchemaRef>, oneOf: seq<SchemaRef>, negated: Option<SchemaRef>)

  type Graph = Loc -> Shape

  type Rank = Loc -> nat

  function RankOf(rank: Rank, r: SchemaRef): nat {
    if r.At? then 1 + rank(r.loc) else 0
  }

  predicate AllBelow(rank: Rank, refs: seq<SchemaRef>, n: nat) {
    forall i :: 0 <= i < |refs| ==> RankOf(rank, refs[i]) < n
  }

  /** The combining keywords lead downwards: every cycle passes through elements or members. */
  ghost predicate Guarded(g: Graph, rank: Rank) {
    forall loc :: LeadsDown(g, rank, loc)
  }

  ghost predicate LeadsDown(g: Graph, rank: Rank, loc: Loc) {
    var n := 1 + rank(loc);
    && AllBelow(rank, g(loc).allOf, n) && AllBelow(rank, g(loc).anyOf, n) && AllBelow(rank, g(loc).oneOf, n)
    && (g(loc).negated.Some? ==> RankOf(rank, g(loc).negated.value) < n)
  }

  /** The schema that accepts everything. */
  function TypelessShape(): Shape {
    Shape(TYPELESS, NoItems, MayFollow, [], MayFollow, [], [], [], None)
  }

  function ShapeAt(g: Graph, r: SchemaRef): Shape {
    if r.Typeless? then TypelessShape() else g(r.loc)
  }

  /** The schemas of the combining keywords, in the order of their validators. */
  function SubRefs(g: Graph, r: SchemaRef): seq<SchemaRef> {
    var s := ShapeAt(g, r);
    s.allOf + s.anyOf + s.oneOf + if s.negated.Some? then [s.negated.value] else []
  }

  lemma {:induction false} SubRefsLeadDown(g: Graph, rank: Rank, r: SchemaRef)
    requires Guarded(g, rank)
    ensures forall i :: 0 <= i < |SubRefs(g, r)| ==> RankOf(rank, SubRefs(g, r)[i]) < RankOf(rank, r)
  {
    if r.At? {
      assert LeadsDown(g, rank, r.loc);
    }
  }

  /** Every schema that the keywords of a schema refer to. */
  predicate RefersTo(s: Shape, ref: SchemaRef) {
    || ref in s.allOf || ref in s.anyOf || ref in s.oneOf || s.negated == Some(ref)
    || s.items == ListOf(ref) || (s.items.TupleOf? && ref in s.items.refs)
    || s.additionalItems == MustMatch(ref) || s.additionalProperties == MustMatch(ref)
    || exists k :: 0 <= k < |s.properties| && s.properties[k].ref == ref
  }

  // ------------------------------------------------------------ meaning

  function AdditionalRef(a: GraphAdditional): Option<SchemaRef> {
    match a
    case MayFollow => Some(Typeless)
    case MayNotFollow => None
    case MustMatch(ref) => Some(ref)
  }

  function ItemRef(s: Shape, i: nat): Option<SchemaRef> {
    match s.items
    case NoItems => Some(Typeless)
    case ListOf(ref) => Some(ref)
    case TupleOf(refs) =>
      if refs == [] then Some(Typeless) else if i < |refs| then Some(refs[i]) else AdditionalRef(s.additionalItems)
  }

  function FindGraphProperty(ps: seq<GraphProperty>, name: Bytes): (i: nat)
    ensures i <= |ps| && (i < |ps| ==> ps[i].name == name)
    ensures forall j :: 0 <= j < i ==> ps[j].name != name
  {
    if ps == [] || ps[0].name == name then 0 else 1 + FindGraphProperty(ps[1..], name)
  }

  function MemberRef(s: Shape, name: Bytes): Option<SchemaRef> {
    var i := FindGraphProperty(s.properties, name);
    if i < |s.properties| then Some(s.properties[i].ref) else AdditionalRef(s.additionalProperties)
  }

  function DefaultLength(g: Graph, r: SchemaRef): nat {
    if r.At? then g(r.loc).scalar.defaultValueLength else 0
  }

  predicate NamesRequired(g: Graph, s: Shape, ms: seq<TreeMember>) {
    forall k :: 0 <= k < |s.properties| && s.properties[k].required ==>
      HasMember(ms, s.properties[k].name) || DefaultLength(g, s.properties[k].ref) > 0
  }

  /** What a place of the graph means for a tree. */
  ghost predicate Means(g: Graph, rank: Rank, r: SchemaRef, t: Tree)
    requires Guarded(g, rank)
    decreases t, RankOf(rank, r), 3
  {
    if r.Typeless? then Holds(TYPELESS, t)
    else MeansOwn(g, rank, r.loc, t) && MeansCombined(g, rank, r.loc, t)
  }

  ghost predicate MeansCombined(g: Graph, rank: Rank, loc: Loc, t: Tree)
    requires Guarded(g, rank)
    decreases t, 1 + rank(loc), 2
  {
    assert LeadsDown(g, rank, loc);
    var s, n := g(loc), 1 + rank(loc);
    && AllMean(g, rank, s.allOf, n, t)
    && (s.anyOf != [] ==> AnyMean(g, rank, s.anyOf, n, t))
    && (s.oneOf != [] ==> OneMean(g, rank, s.oneOf, n, t))
    && (s.negated.Some? ==> !Means(g, rank, s.negated.value, t))
  }

  ghost predicate AllMean(g: Graph, rank: Rank, refs: seq<SchemaRef>, n: nat, t: Tree)
    requires Guarded(g, rank) && AllBelow(rank, refs, n)
    decreases t, n, 0
  {
    forall i :: 0 <= i < |refs| ==> Means(g, rank, refs[i], t)
  }

  ghost predicate AnyMean(g: Graph, rank: Rank, refs: seq<SchemaRef>, n: nat, t: Tree)
    requires Guarded(g, rank) && AllBelow(rank, refs, n)
    decreases t, n, 0
  {
    exists i :: 0 <= i < |refs| && Means(g, rank, refs[i], t)
  }

  ghost predicate OneMean(g: Graph, rank: Rank, refs: seq<SchemaRef>, n: nat, t: Tree)
    requires Guarded(g, rank) && AllBelow(rank, refs, n)
    decreases t, n, 0
  {
    exists i :: 0 <= i < |refs| && Means(g, rank, refs[i], t) && forall j :: 0 <= j < |refs| && Means(g, rank, refs[j], t) ==> j == i
  }

  ghost predicate MeansOwn(g: Graph, rank: Rank, loc: Loc, t: Tree)
    requires Guarded(g, rank)
    decreases t, 0
  {
    var s, k := g(loc), g(loc).scalar;
    match t
    case Leaf(e) => IsScalar(e) && ScalarHolds(k, e)
    case Arr(ts) =>
      && ArrayType in k.types && k.minItems <= |ts| && AtMost(|ts|, k.maxItems)
      && forall i :: 0 <= i < |ts| ==> ItemRef(s, i).Some? && Means(g, rank, ItemRef(s, i).value, ts[i])
    case Obj(ms) =>
      && ObjectType in k.types && k.minProperties <= |ms| && AtMost(|ms|, k.maxProperties) && NamesRequired(g, s, ms)
      && forall i :: 0 <= i < |ms| ==>
           MemberRef(s, ms[i].name).Some? && Means(g, rank, MemberRef(s, ms[i].name).value, ms[i].tree)
  }

  // ------------------------------------------------------------ as deep as a tree

  /** A reference for elements or members: one level deeper. */
  ghost function Below(g: Graph, rank: Rank, r: SchemaRef, d: nat): Schema
    requires Guarded(g, rank)
    decreases d, 0, 0
  {
    if d == 0 then TYPELESS else Unrolled(g, rank, r, d - 1)
  }

  ghost function BelowAdditional(g: Graph, rank: Rank, a: GraphAdditional, d: nat): Additional
    requires Guarded(g, rank)
    decreases d, 0, 1
  {
    match a
    case MayFollow => Allowed
    case MayNotFollow => Forbidden
    case MustMatch(ref) => Must(Below(g, rank, ref, d))
  }

  ghost function BelowItems(g: Graph, rank: Rank, items: GraphItems, d: nat): Items
    requires Guarded(g, rank)
    decreases d, 0, 1
  {
    match items
    case NoItems => AnyItems
    case ListOf(ref) => ItemsList(Below(g, rank, ref, d))
    case TupleOf(refs) => ItemsTuple(seq(|refs|, i requires 0 <= i < |refs| => Below(g, rank, refs[i], d)))
  }

  ghost function BelowProperty(g: Graph, rank: Rank, p: GraphProperty, d: nat): Property
    requires Guarded(g, rank)
    decreases d, 0, 1
  {
    Property(p.name, Below(g, rank, p.ref, d), p.required, p.declared)
  }

  ghost function BelowProperties(g: Graph, rank: Rank, ps: seq<GraphProperty>, d: nat): (qs: seq<Property>)
    requires Guarded(g, rank)
    ensures |qs| == |ps| && forall i :: 0 <= i < |ps| ==> qs[i] == BelowProperty(g, rank, ps[i], d)
    decreases d, 0, 2
  {
    seq(|ps|, i requires 0 <= i < |ps| => BelowProperty(g, rank, ps[i], d))
  }

  ghost function Beside(g: Graph, rank: Rank, refs: seq<SchemaRef>, n: nat, d: nat): (ss: seq<Schema>)
    requires Guarded(g, rank) && AllBelow(rank, refs, n)
    ensures |ss| == |refs|
    decreases d, n, 0
  {
    seq(|refs|, i requires 0 <= i < |refs| => Unrolled(g, rank, refs[i], d))
  }

  /** The finite schema that the graph is down to depth `d`; behind that everything is accepted. */
  ghost function Unrolled(g: Graph, rank: Rank, r: SchemaRef, d: nat): Schema
    requires Guarded(g, rank)
    decreases d, RankOf(rank, r), 2
  {
    if r.Typeless? then TYPELESS
    else
      assert LeadsDown(g, rank, r.loc);
      var s, n := g(r.loc), 1 + rank(r.loc);
      s.scalar.(
        items := BelowItems(g, rank, s.items, d),
        additionalItems := BelowAdditional(g, rank, s.additionalItems, d),
        properties := BelowProperties(g, rank, s.properties, d),
        additionalProperties := BelowAdditional(g, rank, s.additionalProperties, d),
        allOf := Beside(g, rank, s.allOf, n, d),
        anyOf := Beside(g, rank, s.anyOf, n, d),
        oneOf := Beside(g, rank, s.oneOf, n, d),
        negated := if s.negated.Some? then Some(Unrolled(g, rank, s.negated.value, d)) else None)
  }

  /** A tree with at most `d` brackets around anything in it. */
  predicate Fits(t: Tree, d: nat) {
    match t
    case Leaf(_) => true
    case Arr(ts) => d > 0 && forall i :: 0 <= i < |ts| ==> Fits(ts[i], d - 1)
    case Obj(ms) => d > 0 && forall i :: 0 <= i < |ms| ==> Fits(ms[i].tree, d - 1)
  }

  // ------------------------------------------------------------ a tree sees no deeper

  lemma {:induction false} ItemBelow(g: Graph, rank: Rank, loc: Loc, i: nat, d: nat)
    requires Guarded(g, rank)
    ensures ItemSchema(Unrolled(g, rank, At(loc), d), i)
            == match ItemRef(g(loc), i) case None => None case Some(ref) => Some(Below(g, rank, ref, d))
  {
  }

  lemma {:induction false} SameIndex(g: Graph, rank: Rank, ps: seq<GraphProperty>, d: nat, name: Bytes)
    requires Guarded(g, rank)
    ensures FindProperty(BelowProperties(g, rank, ps, d), name) == FindGraphProperty(ps, name)
    decreases |ps|
  {
    hide Guarded, Below;
    var qs := BelowProperties(g, rank, ps, d);
    if ps != [] && ps[0].name != name {
      SameIndex(g, rank, ps[1..], d, name);
      assert qs[1..] == BelowProperties(g, rank, ps[1..], d);
    }
  }

  lemma {:induction false} MemberBelow(g: Graph, rank: Rank, loc: Loc, name: Bytes, d: nat)
    requires Guarded(g, rank)
    ensures MemberSchema(Unrolled(g, rank, At(loc), d), name)
            == match MemberRef(g(loc), name) case None => None case Some(ref) => Some(Below(g, rank, ref, d))
  {
    hide FindProperty, FindGraphProperty, Guarded, Beside;
    SameIndex(g, rank, g(loc).properties, d, name);
  }

  lemma {:induction false} DefaultBelow(g: Graph, rank: Rank, ref: SchemaRef, d: nat)
    requires Guarded(g, rank) && d > 0
    ensures Below(g, rank, ref, d).defaultValueLength == DefaultLength(g, ref)
  {
  }

  lemma {:induction false} RequiredBelow(g: Graph, rank: Rank, loc: Loc, ms: seq<TreeMember>, d: nat)
    requires Guarded(g, rank) && d > 0
    ensures RequiredHolds(Unrolled(g, rank, At(loc), d), ms) <==> NamesRequired(g, g(loc), ms)
  {
    hide HasMember, Below, DefaultLength, Guarded, Beside, BelowItems, BelowAdditional, BelowProperties;
    var s, u := g(loc), Unrolled(g, rank, At(loc), d);
    forall k | 0 <= k < |s.properties|
      ensures u.properties[k].schema.defaultValueLength == DefaultLength(g, s.properties[k].ref)
      ensures u.properties[k].required == s.properties[k].required && u.properties[k].name == s.properties[k].name
    {
      DefaultBelow(g, rank, s.properties[k].ref, d);
    }
  }

  /** On a tree that is no deeper than it was unrolled, a place of the graph means what its unrolled schema means. */
  lemma {:induction false} UnrolledMeans(g: Graph, rank: Rank, r: SchemaRef, t: Tree, d: nat)
    requires Guarded(g, rank) && Fits(t, d)
    ensures Holds(Unrolled(g, rank, r, d), t) <==> Means(g, rank, r, t)
    decreases t, RankOf(rank, r), 3
  {
    hide Own, Combined, MeansOwn, MeansCombined;
    if r.At? {
      OwnUnrolled(g, rank, r.loc, t, d);
      CombinedUnrolled(g, rank, r.loc, t, d);
    }
  }

  lemma {:induction false} OwnUnrolled(g: Graph, rank: Rank, loc: Loc, t: Tree, d: nat)
    requires Guarded(g, rank) && Fits(t, d)
    ensures Own(Unrolled(g, rank, At(loc), d), t) <==> MeansOwn(g, rank, loc, t)
    decreases t, 0, 0
  {
    hide Guarded, Holds, Means, ItemSchema, MemberSchema, ItemRef, MemberRef, RequiredHolds, NamesRequired;
    var s, u := g(loc), Unrolled(g, rank, At(loc), d);
    match t
    case Leaf(e) =>
    case Arr(ts) =>
      forall i | 0 <= i < |ts|
        ensures ElementHolds(u, i, ts[i]) <==> ItemRef(s, i).Some? && Means(g, rank, ItemRef(s, i).value, ts[i])
      {
        ItemBelow(g, rank, loc, i, d);
        if ItemRef(s, i).Some? {
          UnrolledMeans(g, rank, ItemRef(s, i).value, ts[i], d - 1);
        }
      }
      assert forall i :: 0 <= i < |ts| ==> ElementHolds(u, 0 + i, ts[i]) == ElementHolds(u, i, ts[i]);
    case Obj(ms) =>
      RequiredBelow(g, rank, loc, ms, d);
      forall i | 0 <= i < |ms|
        ensures MemberHolds(u, ms[i])
                <==> MemberRef(s, ms[i].name).Some? && Means(g, rank, MemberRef(s, ms[i].name).value, ms[i].tree)
      {
        MemberBelow(g, rank, loc, ms[i].name, d);
        if MemberRef(s, ms[i].name).Some? {
          UnrolledMeans(g, rank, MemberRef(s, ms[i].name).value, ms[i].tree, d - 1);
        }
      }
  }

  lemma {:induction false} CombinedUnrolled(g: Graph, rank: Rank, loc: Loc, t: Tree, d: nat)
    requires Guarded(g, rank) && Fits(t, d)
    ensures Combined(Unrolled(g, rank, At(loc), d), t) <==> MeansCombined(g, rank, loc, t)
    decreases t, 1 + rank(loc), 2
  {
    hide Guarded, Holds, Means, AllHold, AnyHolds, OneHolds, AllMean, AnyMean, OneMean, Beside, BelowItems, BelowAdditional, BelowProperties;
    var s, n := g(loc), 1 + rank(loc);
    assert LeadsDown(g, rank, loc) by { GuardedThere(g, rank, loc); }
    BesideMeans(g, rank, s.allOf, n, t, d);
    BesideMeans(g, rank, s.anyOf, n, t, d);
    BesideMeans(g, rank, s.oneOf, n, t, d);
    if s.negated.Some? {
      UnrolledMeans(g, rank, s.negated.value, t, d);
    }
  }

  lemma {:induction false} GuardedThere(g: Graph, rank: Rank, loc: Loc)
    requires Guarded(g, rank)
    ensures LeadsDown(g, rank, loc)
  {
  }

  lemma {:induction false} BesideMeans(g: Graph, rank: Rank, refs: seq<SchemaRef>, n: nat, t: Tree, d: nat)
    requires Guarded(g, rank) && AllBelow(rank, refs, n) && Fits(t, d)
    ensures var ss := Beside(g, rank, refs, n, d);
            && (AllHold(ss, t) <==> AllMean(g, rank, refs, n, t))
            && (AnyHolds(ss, t) <==> AnyMean(g, rank, refs, n, t))
            && (OneHolds(ss, t) <==> OneMean(g, rank, refs, n, t))
    decreases t, n, 1
  {
    hide Guarded, Holds, Means, Unrolled, AllHold, AnyHolds, OneHolds;
    var ss := Beside(g, rank, refs, n, d);
    forall i | 0 <= i < |refs| ensures Holds(ss[i], t) <==> Means(g, rank, refs[i], t) {
      UnrolledMeans(g, rank, refs[i], t, d);
    }
    var means := seq(|refs|, i requires 0 <= i < |refs| => Means(g, rank, refs[i], t));
    AllSame(g, rank, refs, n, t, ss, means);
    AnySame(g, rank, refs, n, t, means);
    OneSame(g, rank, refs, n, t, means);
    AnyMeans(ss, t, means);
    OneMeans(ss, t, means);
  }

  lemma {:induction false} AllSame(g: Graph, rank: Rank, refs: seq<SchemaRef>, n: nat, t: Tree, ss: seq<Schema>, means: seq<bool>)
    requires Guarded(g, rank) && AllBelow(rank, refs, n) && |means| == |refs| == |ss|
    requires forall i :: 0 <= i < |refs| ==> means[i] == Means(g, rank, refs[i], t)
    requires forall i :: 0 <= i < |ss| ==> means[i] == Holds(ss[i], t)
    ensures AllHold(ss, t) <==> AllMean(g, rank, refs, n, t)
  {
    hide Guarded, Holds, Means;
  }

  lemma {:induction false} AnySame(g: Graph, rank: Rank, refs: seq<SchemaRef>, n: nat, t: Tree, means: seq<bool>)
    requires Guarded(g, rank) && AllBelow(rank, refs, n) && |means| == |refs|
    requires forall i :: 0 <= i < |refs| ==> means[i] == Means(g, rank, refs[i], t)
    ensures AnyValid(means) <==> AnyMean(g, rank, refs, n, t)
  {
    hide Guarded, Means;
    if i :| 0 <= i < |means| && means[i] {
      assert Means(g, rank, refs[i], t);
    }
  }

  lemma {:induction false} OneSame(g: Graph, rank: Rank, refs: seq<SchemaRef>, n: nat, t: Tree, means: seq<bool>)
    requires Guarded(g, rank) && AllBelow(rank, refs, n) && |means| == |refs|
    requires forall i :: 0 <= i < |refs| ==> means[i] == Means(g, rank, refs[i], t)
    ensures OneValid(means) <==> OneMean(g, rank, refs, n, t)
  {
    hide Guarded, Means, OneValid, OneMean;
    if OneMean(g, rank, refs, n, t) {
      OneMeanIsValid(g, rank, refs, n, t, means);
    }
    if OneValid(means) {
      OneValidMeans(g, rank, refs, n, t, means);
    }
  }

  lemma {:induction false} OneMeanIsValid(g: Graph, rank: Rank, refs: seq<SchemaRef>, n: nat, t: Tree, means: seq<bool>)
    requires Guarded(g, rank) && AllBelow(rank, refs, n) && |means| == |refs|
    requires forall i :: 0 <= i < |refs| ==> means[i] == Means(g, rank, refs[i], t)
    requires OneMean(g, rank, refs, n, t)
    ensures OneValid(means)
  {
    hide Guarded, Means;
    var i :| 0 <= i < |refs| && Means(g, rank, refs[i], t) && forall j :: 0 <= j < |refs| && Means(g, rank, refs[j], t) ==> j == i;
    assert means[i] && forall j :: 0 <= j < |means| && means[j] ==> j == i;
  }

  lemma {:induction false} OneValidMeans(g: Graph, rank: Rank, refs: seq<SchemaRef>, n: nat, t: Tree, means: seq<bool>)
    requires Guarded(g, rank) && AllBelow(rank, refs, n) && |means| == |refs|
    requires forall i :: 0 <= i < |refs| ==> means[i] == Means(g, rank, refs[i], t)
    requires OneValid(means)
    ensures OneMean(g, rank, refs, n, t)
  {
    hide Guarded, Means;
    var i :| 0 <= i < |means| && means[i] && forall j :: 0 <= j < |means| && means[j] ==> j == i;
    assert Means(g, rank, refs[i], t) && forall j :: 0 <= j < |refs| && Means(g, rank, refs[j], t) ==> j == i;
  }

  // ------------------------------------------------------------ validation

  /** What the compiler guarantees of every schema. */
  ghost predicate ShapeOk(s: Shape) {
    && (s.scalar.minimum.Some? ==> IsInt64(s.scalar.minimum.value) || IsUint64(s.scalar.minimum.value))
    && (s.scalar.maximum.Some? ==> IsInt64(s.scalar.maximum.value) || IsUint64(s.scalar.maximum.value))
    && (forall i, j :: 0 <= i < j < |s.properties| ==> s.properties[i].name != s.properties[j].name)
    && (forall i :: 0 <= i < |s.properties| && !s.properties[i].declared ==> s.properties[i].ref.Typeless?)
  }

  ghost predicate GraphOk(g: Graph) {
    forall loc :: ShapeOk(g(loc))
  }

  lemma {:induction false} TypelessOk()
    ensures SchemaOk(TYPELESS)
  {
  }

  lemma {:induction false} UnrolledOk(g: Graph, rank: Rank, r: SchemaRef, d: nat)
    requires Guarded(g, rank) && GraphOk(g)
    ensures SchemaOk(Unrolled(g, rank, r, d))
    decreases d, RankOf(rank, r), 2
  {
    hide Guarded, GraphOk, Below, Beside, BelowItems, BelowAdditional, TableOk;
    TypelessOk();
    if r.At? {
      var s, n, u := g(r.loc), 1 + rank(r.loc), Unrolled(g, rank, r, d);
      assert LeadsDown(g, rank, r.loc) by { GuardedThere(g, rank, r.loc); }
      assert ShapeOk(s) by { OkThere(g, r.loc); }
      BesideOk(g, rank, s.allOf, n, d);
      BesideOk(g, rank, s.anyOf, n, d);
      BesideOk(g, rank, s.oneOf, n, d);
      if s.negated.Some? {
        UnrolledOk(g, rank, s.negated.value, d);
      }
      TableBelow(g, rank, r.loc, d);
      ItemsOk(g, rank, s.items, d);
      AdditionalOk(g, rank, s.additionalItems, d);
      AdditionalOk(g, rank, s.additionalProperties, d);
      forall i | 0 <= i < |u.properties| ensures SchemaOk(u.properties[i].schema) {
        BelowOk(g, rank, s.properties[i].ref, d);
      }
    }
  }

  lemma {:induction false} TableBelow(g: Graph, rank: Rank, loc: Loc, d: nat)
    requires Guarded(g, rank) && ShapeOk(g(loc))
    ensures TableOk(Unrolled(g, rank, At(loc), d))
  {
    hide Guarded;
    var s, u := g(loc), Unrolled(g, rank, At(loc), d);
    forall i | 0 <= i < |s.properties|
      ensures u.properties[i].name == s.properties[i].name && u.properties[i].declared == s.properties[i].declared
      ensures s.properties[i].ref.Typeless? ==> u.properties[i].schema == TYPELESS
    {
      assert u.properties[i] == BelowProperty(g, rank, s.properties[i], d);
      BelowTypeless(g, rank, d);
    }
  }

  lemma {:induction false} BelowTypeless(g: Graph, rank: Rank, d: nat)
    requires Guarded(g, rank)
    ensures Below(g, rank, Typeless, d) == TYPELESS
  {
    if d > 0 {
      assert Unrolled(g, rank, Typeless, d - 1) == TYPELESS;
    }
  }

  lemma {:induction false} ItemsOk(g: Graph, rank: Rank, items: GraphItems, d: nat)
    requires Guarded(g, rank) && GraphOk(g)
    ensures var r := BelowItems(g, rank, items, d);
            && (r.ItemsList? ==> SchemaOk(r.schema))
            && (r.ItemsTuple? ==> forall i :: 0 <= i < |r.schemas| ==> SchemaOk(r.schemas[i]))
    decreases d, 0, 1
  {
    hide Guarded, GraphOk, SchemaOk;
    match items
    case NoItems =>
    case ListOf(ref) => BelowOk(g, rank, ref, d);
    case TupleOf(refs) =>
      forall i | 0 <= i < |refs| ensures SchemaOk(Below(g, rank, refs[i], d)) {
        BelowOk(g, rank, refs[i], d);
      }
  }

  lemma {:induction false} AdditionalOk(g: Graph, rank: Rank, a: GraphAdditional, d: nat)
    requires Guarded(g, rank) && GraphOk(g)
    ensures BelowAdditional(g, rank, a, d).Must? ==> SchemaOk(BelowAdditional(g, rank, a, d).schema)
    decreases d, 0, 1
  {
    hide Guarded, GraphOk, SchemaOk;
    if a.MustMatch? {
      BelowOk(g, rank, a.ref, d);
    }
  }

  lemma {:induction false} OkThere(g: Graph, loc: Loc)
    requires GraphOk(g)
    ensures ShapeOk(g(loc))
  {
  }

  lemma {:induction false} BelowOk(g: Graph, rank: Rank, ref: SchemaRef, d: nat)
    requires Guarded(g, rank) && GraphOk(g)
    ensures SchemaOk(Below(g, rank, ref, d)) && (ref.Typeless? ==> Below(g, rank, ref, d) == TYPELESS)
    decreases d, 0, 0
  {
    hide Guarded, GraphOk;
    TypelessOk();
    if d > 0 {
      UnrolledOk(g, rank, ref, d - 1);
    }
  }

  lemma {:induction false} BesideOk(g: Graph, rank: Rank, refs: seq<SchemaRef>, n: nat, d: nat)
    requires Guarded(g, rank) && GraphOk(g) && AllBelow(rank, refs, n)
    ensures forall i :: 0 <= i < |refs| ==> SchemaOk(Beside(g, rank, refs, n, d)[i])
    decreases d, n, 0
  {
    hide Guarded, GraphOk, Unrolled, SchemaOk;
    forall i | 0 <= i < |refs| ensures SchemaOk(Beside(g, rank, refs, n, d)[i]) {
      UnrolledOk(g, rank, refs[i], d);
    }
  }

  /** Streaming validation decides what a place of the graph means, for every tree: however deep the tree, the
      validator is given the events of as deep a part of the graph. */
  lemma {:induction false} ValidatesGraph(g: Graph, rank: Rank, r: SchemaRef, t: Tree, d: nat)
    requires Guarded(g, rank) && GraphOk(g) && TreeOk(t) && Fits(t, d)
    ensures var s := Unrolled(g, rank, r, d); Run(Fresh(s), TreeEvents(t)) == if Means(g, rank, r, t) then Fresh(s) else Dead(s)
  {
    hide Guarded, GraphOk, Unrolled, Means, Run, SchemaOk, Holds;
    UnrolledOk(g, rank, r, d);
    ValidatesExactly(Unrolled(g, rank, r, d), t);
    UnrolledMeans(g, rank, r, t, d);
  }
}
