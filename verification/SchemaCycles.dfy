/**
 Where combining keywords lead back to themselves, validators begin validators without end. How deep they nest, that
 they nest without end exactly along a cycle, and what a graph means where they do not.
 */
module SchemaCycles {
  import opened Options
  import opened Json
  import opened Document
  import opened PointerAccess
  import opened SchemaCompile
  import opened Schema
  import opened SchemaGraph

  // ------------------------------------------------------------ nesting

  /** Validators for a value begin others for the same value, these others again, `n` deep. */
  predicate Nests(g: Graph, r: SchemaRef, n: nat)
    decreases n
  {
    n == 0 || exists i :: 0 <= i < |SubRefs(g, r)| && Nests(g, SubRefs(g, r)[i], n - 1)
  }

  ghost predicate Ends(g: Graph, r: SchemaRef) {
    exists n: nat :: !Nests(g, r, n)
  }

  lemma {:induction false} NestsLess(g: Graph, r: SchemaRef, m: nat, n: nat)
    requires m <= n && Nests(g, r, n)
    ensures Nests(g, r, m)
    decreases m
  {
    hide SubRefs;
    if m > 0 {
      var i :| 0 <= i < |SubRefs(g, r)| && Nests(g, SubRefs(g, r)[i], n - 1);
      NestsLess(g, SubRefs(g, r)[i], m - 1, n - 1);
    }
  }

  /** How deep they nest, if they do not nest `m` deep. */
  function DepthBelow(g: Graph, r: SchemaRef, m: nat): (n: nat)
    requires !Nests(g, r, m)
    ensures Nests(g, r, n) && !Nests(g, r, n + 1)
  {
    if Nests(g, r, m - 1) then m - 1 else DepthBelow(g, r, m - 1)
  }

  ghost function Depth(g: Graph, r: SchemaRef): (n: nat)
    requires Ends(g, r)
    ensures Nests(g, r, n) && !Nests(g, r, n + 1)
  {
    var m: nat :| !Nests(g, r, m);
    DepthBelow(g, r, m)
  }

  lemma {:induction false} SubsNestLess(g: Graph, r: SchemaRef, i: nat)
    requires Ends(g, r) && i < |SubRefs(g, r)|
    ensures Ends(g, SubRefs(g, r)[i]) && Depth(g, SubRefs(g, r)[i]) < Depth(g, r)
  {
    var sub, d := SubRefs(g, r)[i], Depth(g, r);
    assert !Nests(g, sub, d);
    if Depth(g, sub) >= d {
      NestsLess(g, sub, d, Depth(g, sub));
    }
  }

  // ------------------------------------------------------------ reaching

  predicate IsWalk(g: Graph, path: seq<Loc>) {
    forall k :: 0 <= k < |path| - 1 ==> RefersTo(g(path[k]), At(path[k + 1]))
  }

  /** Keywords of all kinds lead from a schema to a place. */
  ghost predicate Reaches(g: Graph, r: SchemaRef, loc: Loc) {
    exists path :: path != [] && r == At(path[0]) && path[|path| - 1] == loc && IsWalk(g, path)
  }

  /** The places that are reached: all that a validator for `r` can come to. */
  ghost function Reached(g: Graph, r: SchemaRef): iset<Loc> {
    iset loc: Loc | Reaches(g, r, loc)
  }

  ghost predicate Alive(live: iset<Loc>, r: SchemaRef) {
    r.At? ==> r.loc in live
  }

  /** No keyword leads out of the places. */
  ghost predicate Closed(g: Graph, live: iset<Loc>) {
    forall loc, r :: loc in live && RefersTo(g(loc), r) ==> Alive(live, r)
  }

  lemma {:induction false} ReachedIsClosed(g: Graph, r: SchemaRef)
    ensures Closed(g, Reached(g, r)) && Alive(Reached(g, r), r)
  {
    hide RefersTo;
    forall loc, s | loc in Reached(g, r) && RefersTo(g(loc), s) ensures Alive(Reached(g, r), s) {
      if s.At? {
        var path :| path != [] && r == At(path[0]) && path[|path| - 1] == loc && IsWalk(g, path);
        var longer := path + [s.loc];
        assert IsWalk(g, longer);
      }
    }
    if r.At? {
      assert IsWalk(g, [r.loc]);
    }
  }

  /** What is closed and has the start has all that is reached. */
  lemma {:induction false} ReachedIsLeast(g: Graph, r: SchemaRef, live: iset<Loc>)
    requires Closed(g, live) && Alive(live, r)
    ensures Reached(g, r) <= live
  {
    hide RefersTo;
    forall loc | loc in Reached(g, r) ensures loc in live {
      var path :| path != [] && r == At(path[0]) && path[|path| - 1] == loc && IsWalk(g, path);
      for k := 0 to |path| - 1
        invariant path[k] in live
      {
        assert RefersTo(g(path[k]), At(path[k + 1]));
        assert Alive(live, At(path[k + 1]));
      }
    }
  }

  lemma {:induction false} SubsAreReferred(g: Graph, loc: Loc, r: SchemaRef)
    requires r in SubRefs(g, At(loc))
    ensures RefersTo(g(loc), r)
  {
  }

  /** All that is reached ends. */
  ghost predicate AllEnd(g: Graph, r: SchemaRef) {
    forall loc :: loc in Reached(g, r) ==> Ends(g, At(loc))
  }

  // ------------------------------------------------------------ ranks

  /** The part of a graph that is reached. */
  ghost function GraphFrom(g: Graph, r: SchemaRef): Graph {
    loc => if loc in Reached(g, r) then g(loc) else TypelessShape()
  }

  ghost function DepthRank(g: Graph): Rank {
    loc => if Ends(g, At(loc)) then Depth(g, At(loc)) else 0
  }

  /** Ranks that fall along the combining keywords exist, on the part that is reached, exactly where nothing nests
      without end. */
  lemma {:induction false} RankExactlyWhen(g: Graph, r: SchemaRef)
    ensures (exists rank :: Guarded(GraphFrom(g, r), rank)) <==> AllEnd(g, r)
    ensures AllEnd(g, r) ==> Guarded(GraphFrom(g, r), DepthRank(g))
  {
    hide Guarded, Reached;
    if rank :| Guarded(GraphFrom(g, r), rank) {
      forall loc | loc in Reached(g, r) ensures Ends(g, At(loc)) {
        if Nests(g, At(loc), rank(loc) + 2) {
          NestsToRank(g, r, rank, At(loc), rank(loc) + 2);
        }
      }
    }
    if AllEnd(g, r) {
      DepthIsRank(g, r);
    }
  }

  lemma {:induction false} NestsToRank(g: Graph, r: SchemaRef, rank: Rank, s: SchemaRef, n: nat)
    requires Guarded(GraphFrom(g, r), rank) && Alive(Reached(g, r), s) && Nests(g, s, n)
    ensures n <= RankOf(rank, s)
    decreases n
  {
    hide Guarded, Reached, RefersTo;
    if n > 0 {
      var i :| 0 <= i < |SubRefs(g, s)| && Nests(g, SubRefs(g, s)[i], n - 1);
      assert s == At(s.loc) && GraphFrom(g, r)(s.loc) == g(s.loc);
      assert SubRefs(GraphFrom(g, r), s) == SubRefs(g, s);
      SubRefsLeadDown(GraphFrom(g, r), rank, s);
      ReachedIsClosed(g, r);
      SubsAreReferred(g, s.loc, SubRefs(g, s)[i]);
      assert Alive(Reached(g, r), SubRefs(g, s)[i]);
      NestsToRank(g, r, rank, SubRefs(g, s)[i], n - 1);
    }
  }

  lemma {:induction false} DepthIsRank(g: Graph, r: SchemaRef)
    requires AllEnd(g, r)
    ensures Guarded(GraphFrom(g, r), DepthRank(g))
  {
    hide Reached;
    forall loc ensures LeadsDown(GraphFrom(g, r), DepthRank(g), loc) {
      if loc in Reached(g, r) {
        DepthLeadsDown(g, loc);
      }
    }
  }

  lemma {:induction false} DepthLeadsDown(g: Graph, loc: Loc)
    requires Ends(g, At(loc))
    ensures LeadsDown(g, DepthRank(g), loc)
  {
    hide Ends, Depth, SubRefs, LeadsDown, DepthRank;
    forall i | 0 <= i < |SubRefs(g, At(loc))| ensures RankOf(DepthRank(g), SubRefs(g, At(loc))[i]) < 1 + DepthRank(g)(loc) {
      DepthFalls(g, loc, i);
    }
    FallingLeadsDown(g, DepthRank(g), loc);
  }

  lemma {:induction false} DepthFalls(g: Graph, loc: Loc, i: nat)
    requires Ends(g, At(loc)) && i < |SubRefs(g, At(loc))|
    ensures RankOf(DepthRank(g), SubRefs(g, At(loc))[i]) < 1 + DepthRank(g)(loc)
  {
    hide Ends, Depth, SubRefs;
    SubsNestLess(g, At(loc), i);
  }

  lemma {:induction false} FallingLeadsDown(g: Graph, rank: Rank, loc: Loc)
    requires forall i :: 0 <= i < |SubRefs(g, At(loc))| ==> RankOf(rank, SubRefs(g, At(loc))[i]) < 1 + rank(loc)
    ensures LeadsDown(g, rank, loc)
  {
    hide RankOf, SubRefs, AllBelow;
    var s, n := g(loc), 1 + rank(loc);
    assert forall r :: r in SubRefs(g, At(loc)) ==> RankOf(rank, r) < n;
    SubRefsContain(g, loc);
    PartBelow(rank, s.allOf, SubRefs(g, At(loc)), n);
    PartBelow(rank, s.anyOf, SubRefs(g, At(loc)), n);
    PartBelow(rank, s.oneOf, SubRefs(g, At(loc)), n);
  }

  lemma {:induction false} SubRefsContain(g: Graph, loc: Loc)
    ensures var s, subs := g(loc), SubRefs(g, At(loc));
            && (forall r :: r in s.allOf || r in s.anyOf || r in s.oneOf ==> r in subs)
            && (s.negated.Some? ==> s.negated.value in subs)
  {
  }

  lemma {:induction false} PartBelow(rank: Rank, part: seq<SchemaRef>, subs: seq<SchemaRef>, n: nat)
    requires (forall r :: r in part ==> r in subs) && forall r :: r in subs ==> RankOf(rank, r) < n
    ensures AllBelow(rank, part, n)
  {
    hide RankOf;
  }

  // ------------------------------------------------------------ cycles

  predicate Combines(g: Graph, a: Loc, b: Loc) {
    At(b) in SubRefs(g, At(a))
  }

  predicate IsChain(g: Graph, path: seq<Loc>) {
    forall k :: 0 <= k < |path| - 1 ==> Combines(g, path[k], path[k + 1])
  }

  predicate IsCycle(g: Graph, path: seq<Loc>) {
    path != [] && IsChain(g, path) && Combines(g, path[|path| - 1], path[0])
  }

  /** Combining keywords lead from a schema into a cycle of them. */
  predicate Circles(g: Graph, r: SchemaRef, path: seq<Loc>, k: nat) {
    k < |path| && r == At(path[0]) && IsChain(g, path) && Combines(g, path[|path| - 1], path[k])
  }

  ghost predicate LeadsIntoCycle(g: Graph, r: SchemaRef) {
    exists path, k :: Circles(g, r, path, k)
  }

  lemma {:induction false} CircleNests(g: Graph, r: SchemaRef, path: seq<Loc>, k: nat, j: nat, n: nat)
    requires Circles(g, r, path, k) && j < |path|
    ensures Nests(g, At(path[j]), n)
    decreases n
  {
    hide SubRefs;
    if n > 0 {
      var next := if j < |path| - 1 then j + 1 else k;
      assert Combines(g, path[j], path[next]);
      CircleNests(g, r, path, k, next, n - 1);
    }
  }

  /** From a place that nests `n` deep a chain of `n` places leads on. */
  lemma {:induction false} NestingChain(g: Graph, r: SchemaRef, n: nat) returns (path: seq<Loc>)
    requires Nests(g, r, n)
    ensures |path| == n && IsChain(g, path) && (n > 0 ==> r == At(path[0]))
    decreases n
  {
    path := [];
    if n > 0 {
      var i :| 0 <= i < |SubRefs(g, r)| && Nests(g, SubRefs(g, r)[i], n - 1);
      var rest := NestingChain(g, SubRefs(g, r)[i], n - 1);
      path := [r.loc] + rest;
      forall k | 0 < k < |path| - 1 ensures Combines(g, path[k], path[k + 1]) {
        assert Combines(g, rest[k - 1], rest[k - 1 + 1]);
      }
    }
  }

  /** In more members than there are elements one comes twice. */
  lemma {:induction false} ComesTwice(path: seq<Loc>, places: set<Loc>) returns (i: nat, j: nat)
    requires |path| > |places| && forall k :: 0 <= k < |path| ==> path[k] in places
    ensures i < j < |path| && path[i] == path[j]
    decreases |path|
  {
    var last := |path| - 1;
    if k :| 0 <= k < last && path[k] == path[last] {
      return k, last;
    }
    i, j := ComesTwice(path[..last], places - {path[last]});
  }

  /** The combining keywords lead from one of these places to another. */
  ghost predicate StaysIn(g: Graph, places: set<Loc>, live: iset<Loc>) {
    (forall loc :: loc in live ==> loc in places) && forall a, b :: a in live && Combines(g, a, b) ==> b in live
  }

  lemma {:induction false} ChainStays(g: Graph, path: seq<Loc>, places: set<Loc>, live: iset<Loc>)
    requires IsChain(g, path) && path != [] && path[0] in live && StaysIn(g, places, live)
    ensures forall k :: 0 <= k < |path| ==> path[k] in live
  {
    hide Combines;
    for k := 1 to |path|
      invariant forall j :: 0 <= j < k ==> path[j] in live
    {
      assert Combines(g, path[k - 1], path[k - 1 + 1]);
    }
  }

  /** Among finitely many places, validators nest without end exactly where a cycle is led into; to nest deeper than
      there are places is enough. */
  lemma {:induction false} NestsForeverExactlyWhen(g: Graph, r: SchemaRef, places: set<Loc>, live: iset<Loc>)
    requires Alive(live, r) && StaysIn(g, places, live)
    ensures !Ends(g, r) <==> LeadsIntoCycle(g, r)
    ensures !Ends(g, r) <==> Nests(g, r, |places| + 1)
  {
    hide Combines;
    if Nests(g, r, |places| + 1) {
      var path := NestingChain(g, r, |places| + 1);
      ChainStays(g, path, places, live);
      var i, j := ComesTwice(path, places);
      var into := path[..j];
      assert Combines(g, path[j - 1], path[j - 1 + 1]);
      forall k | 0 <= k < |into| - 1 ensures Combines(g, into[k], into[k + 1]) {
        assert Combines(g, path[k], path[k + 1]);
      }
      assert Circles(g, r, into, i);
    }
    if path, k :| Circles(g, r, path, k) {
      forall n: nat ensures Nests(g, r, n) {
        CircleNests(g, r, path, k, 0, n);
      }
    }
  }

  /** Keywords of any kind lead from a schema to a cycle of combining ones. */
  ghost predicate ReachesCycle(g: Graph, r: SchemaRef) {
    exists cycle :: IsCycle(g, cycle) && cycle[0] in Reached(g, r)
  }

  /** The same for all that is reached. */
  lemma {:induction false} AllEndExactlyWhen(g: Graph, r: SchemaRef, places: set<Loc>)
    requires forall loc :: loc in Reached(g, r) ==> loc in places
    ensures AllEnd(g, r) <==> !ReachesCycle(g, r)
    ensures AllEnd(g, r) <==> forall loc :: loc in Reached(g, r) ==> !Nests(g, At(loc), |places| + 1)
  {
    hide Reached, Combines;
    ReachedStays(g, r, places);
    forall loc | loc in Reached(g, r)
      ensures !Ends(g, At(loc)) <==> Nests(g, At(loc), |places| + 1)
      ensures !Ends(g, At(loc)) ==> ReachesCycle(g, r)
    {
      NestsForeverExactlyWhen(g, At(loc), places, Reached(g, r));
      if !Ends(g, At(loc)) {
        var path, k :| Circles(g, At(loc), path, k);
        CycleOfCircle(g, loc, path, k);
        ChainStays(g, path, places, Reached(g, r));
      }
    }
    if cycle :| IsCycle(g, cycle) && cycle[0] in Reached(g, r) {
      assert Circles(g, At(cycle[0]), cycle, 0);
      NestsForeverExactlyWhen(g, At(cycle[0]), places, Reached(g, r));
    }
  }

  lemma {:induction false} CycleOfCircle(g: Graph, loc: Loc, path: seq<Loc>, k: nat)
    requires Circles(g, At(loc), path, k)
    ensures IsCycle(g, path[k..])
  {
    hide Combines;
    var cycle := path[k..];
    forall j | 0 <= j < |cycle| - 1 ensures Combines(g, cycle[j], cycle[j + 1]) {
      assert Combines(g, path[k + j], path[k + j + 1]);
    }
  }

  lemma {:induction false} ReachedStays(g: Graph, r: SchemaRef, places: set<Loc>)
    requires forall loc :: loc in Reached(g, r) ==> loc in places
    ensures StaysIn(g, places, Reached(g, r))
  {
    hide Reached, RefersTo, SubRefs;
    ReachedIsClosed(g, r);
    forall a, b | a in Reached(g, r) && Combines(g, a, b) ensures b in Reached(g, r) {
      SubsAreReferred(g, a, At(b));
      assert Alive(Reached(g, r), At(b));
    }
  }

  // ------------------------------------------------------------ meaning

  /** What a schema means, where all that it reaches ends. */
  ghost predicate MeansFrom(g: Graph, r: SchemaRef, t: Tree)
    requires AllEnd(g, r)
  {
    RankExactlyWhen(g, r);
    Means(GraphFrom(g, r), DepthRank(g), r, t)
  }

  ghost predicate Agree(g: Graph, h: Graph, live: iset<Loc>) {
    Closed(g, live) && forall loc :: loc in live ==> g(loc) == h(loc)
  }

  lemma {:induction false} PartAgrees(g: Graph, r: SchemaRef)
    ensures Agree(g, GraphFrom(g, r), Reached(g, r))
  {
    hide Reached, RefersTo;
    ReachedIsClosed(g, r);
  }

  /** The meaning depends neither on the ranks nor on what is not reached. */
  lemma {:induction false} MeaningIsOne(g: Graph, rank: Rank, r: SchemaRef, t: Tree)
    requires Guarded(g, rank)
    ensures AllEnd(g, r) && (MeansFrom(g, r, t) <==> Means(g, rank, r, t))
  {
    hide Guarded, Reached, Means, Closed;
    RankOfPart(g, rank, r);
    RankExactlyWhen(g, r);
    PartAgrees(g, r);
    assert Alive(Reached(g, r), r) by { ReachedIsClosed(g, r); }
    MeansSame(g, rank, GraphFrom(g, r), DepthRank(g), Reached(g, r), r, t);
  }

  lemma {:induction false} RankOfPart(g: Graph, rank: Rank, r: SchemaRef)
    requires Guarded(g, rank)
    ensures Guarded(GraphFrom(g, r), rank)
  {
    hide Reached;
    forall loc ensures LeadsDown(GraphFrom(g, r), rank, loc) {
      assert LeadsDown(g, rank, loc);
    }
  }

  lemma {:induction false} MeansSame(g: Graph, a: Rank, h: Graph, b: Rank, live: iset<Loc>, r: SchemaRef, t: Tree)
    requires Guarded(g, a) && Guarded(h, b) && Agree(g, h, live) && Alive(live, r)
    ensures Means(g, a, r, t) <==> Means(h, b, r, t)
    decreases t, RankOf(a, r), 3
  {
    hide Guarded, Closed, MeansOwn, MeansCombined;
    if r.At? {
      OwnSame(g, a, h, b, live, r.loc, t);
      CombinedSame(g, a, h, b, live, r.loc, t);
    }
  }

  lemma {:induction false} ReferredIsAlive(g: Graph, live: iset<Loc>, loc: Loc, r: SchemaRef)
    requires Closed(g, live) && loc in live && RefersTo(g(loc), r)
    ensures Alive(live, r)
  {
  }

  lemma {:induction false} ItemIsReferred(s: Shape, i: nat)
    ensures ItemRef(s, i).Some? && ItemRef(s, i).value.At? ==> RefersTo(s, ItemRef(s, i).value)
  {
  }

  lemma {:induction false} MemberIsReferred(s: Shape, name: Bytes)
    ensures MemberRef(s, name).Some? && MemberRef(s, name).value.At? ==> RefersTo(s, MemberRef(s, name).value)
  {
    hide FindGraphProperty;
  }

  lemma {:induction false} NamesSame(g: Graph, h: Graph, live: iset<Loc>, loc: Loc, ms: seq<TreeMember>)
    requires Agree(g, h, live) && loc in live
    ensures NamesRequired(g, g(loc), ms) <==> NamesRequired(h, g(loc), ms)
  {
    hide Closed, HasMember, RefersTo;
    var s := g(loc);
    forall k | 0 <= k < |s.properties| ensures DefaultLength(g, s.properties[k].ref) == DefaultLength(h, s.properties[k].ref) {
      PropertyIsReferred(s, k);
      ReferredIsAlive(g, live, loc, s.properties[k].ref);
    }
  }

  lemma {:induction false} PropertyIsReferred(s: Shape, k: nat)
    requires k < |s.properties|
    ensures RefersTo(s, s.properties[k].ref)
  {
  }

  lemma {:induction false} OwnSame(g: Graph, a: Rank, h: Graph, b: Rank, live: iset<Loc>, loc: Loc, t: Tree)
    requires Guarded(g, a) && Guarded(h, b) && Agree(g, h, live) && loc in live
    ensures MeansOwn(g, a, loc, t) <==> MeansOwn(h, b, loc, t)
    decreases t, 0, 0
  {
    hide Guarded, Closed, Means, ItemRef, MemberRef, NamesRequired, RefersTo, ScalarHolds, AtMost;
    var s := g(loc);
    match t
    case Leaf(e) =>
    case Arr(ts) =>
      forall i | 0 <= i < |ts| && ItemRef(s, i).Some?
        ensures Means(g, a, ItemRef(s, i).value, ts[i]) <==> Means(h, b, ItemRef(s, i).value, ts[i])
      {
        ItemIsReferred(s, i);
        if ItemRef(s, i).value.At? {
          ReferredIsAlive(g, live, loc, ItemRef(s, i).value);
        }
        MeansSame(g, a, h, b, live, ItemRef(s, i).value, ts[i]);
      }
    case Obj(ms) =>
      NamesSame(g, h, live, loc, ms);
      forall i | 0 <= i < |ms| && MemberRef(s, ms[i].name).Some?
        ensures Means(g, a, MemberRef(s, ms[i].name).value, ms[i].tree) <==> Means(h, b, MemberRef(s, ms[i].name).value, ms[i].tree)
      {
        MemberIsReferred(s, ms[i].name);
        if MemberRef(s, ms[i].name).value.At? {
          ReferredIsAlive(g, live, loc, MemberRef(s, ms[i].name).value);
        }
        MeansSame(g, a, h, b, live, MemberRef(s, ms[i].name).value, ms[i].tree);
      }
  }

  lemma {:induction false} CombinedSame(g: Graph, a: Rank, h: Graph, b: Rank, live: iset<Loc>, loc: Loc, t: Tree)
    requires Guarded(g, a) && Guarded(h, b) && Agree(g, h, live) && loc in live
    ensures MeansCombined(g, a, loc, t) <==> MeansCombined(h, b, loc, t)
    decreases t, 1 + a(loc), 2
  {
    hide Guarded, Closed, Means, AllMean, AnyMean, OneMean, RefersTo;
    var s := g(loc);
    assert LeadsDown(g, a, loc) by { GuardedThere(g, a, loc); }
    assert LeadsDown(h, b, loc) by { GuardedThere(h, b, loc); }
    CombiningIsReferred(s);
    forall r | RefersTo(s, r) ensures Alive(live, r) {
      ReferredIsAlive(g, live, loc, r);
    }
    ListSame(g, a, h, b, live, s.allOf, 1 + a(loc), 1 + b(loc), t);
    ListSame(g, a, h, b, live, s.anyOf, 1 + a(loc), 1 + b(loc), t);
    ListSame(g, a, h, b, live, s.oneOf, 1 + a(loc), 1 + b(loc), t);
    if s.negated.Some? {
      MeansSame(g, a, h, b, live, s.negated.value, t);
    }
  }

  lemma {:induction false} CombiningIsReferred(s: Shape)
    ensures forall i :: 0 <= i < |s.allOf| ==> RefersTo(s, s.allOf[i])
    ensures forall i :: 0 <= i < |s.anyOf| ==> RefersTo(s, s.anyOf[i])
    ensures forall i :: 0 <= i < |s.oneOf| ==> RefersTo(s, s.oneOf[i])
    ensures s.negated.Some? ==> RefersTo(s, s.negated.value)
  {
  }

  lemma {:induction false} ListSame(g: Graph, a: Rank, h: Graph, b: Rank, live: iset<Loc>, refs: seq<SchemaRef>, m: nat, n: nat, t: Tree)
    requires Guarded(g, a) && Guarded(h, b) && Agree(g, h, live) && forall i :: 0 <= i < |refs| ==> Alive(live, refs[i])
    requires AllBelow(a, refs, m) && AllBelow(b, refs, n)
    ensures AllMean(g, a, refs, m, t) <==> AllMean(h, b, refs, n, t)
    ensures AnyMean(g, a, refs, m, t) <==> AnyMean(h, b, refs, n, t)
    ensures OneMean(g, a, refs, m, t) <==> OneMean(h, b, refs, n, t)
    decreases t, m, 1
  {
    hide Guarded, Closed, Means;
    forall i | 0 <= i < |refs| ensures Means(g, a, refs[i], t) <==> Means(h, b, refs[i], t) {
      MeansSame(g, a, h, b, live, refs[i], t);
    }
  }

  // ------------------------------------------------------------ graphs that agree

  lemma {:induction false} ReachedSame(g: Graph, h: Graph, live: iset<Loc>, r: SchemaRef)
    requires Agree(g, h, live) && Alive(live, r)
    ensures Reached(g, r) == Reached(h, r) && Reached(g, r) <= live
  {
    hide Reached, RefersTo;
    ReachedIsLeast(g, r, live);
    ReachedIsClosed(g, r);
    ReachedIsClosed(h, r);
    assert Closed(h, Reached(g, r));
    ReachedIsLeast(h, r, Reached(g, r));
    assert Closed(g, Reached(h, r));
    ReachedIsLeast(g, r, Reached(h, r));
  }

  lemma {:induction false} NestsSame(g: Graph, h: Graph, live: iset<Loc>, s: SchemaRef, n: nat)
    requires Agree(g, h, live) && Alive(live, s)
    ensures Nests(g, s, n) <==> Nests(h, s, n)
    decreases n
  {
    hide RefersTo, SubRefs, Closed;
    assert SubRefs(g, s) == SubRefs(h, s) by { SubsSame(g, h, live, s); }
    if n > 0 {
      forall i | 0 <= i < |SubRefs(g, s)| ensures Nests(g, SubRefs(g, s)[i], n - 1) <==> Nests(h, SubRefs(g, s)[i], n - 1) {
        SubsSame(g, h, live, s);
        NestsSame(g, h, live, SubRefs(g, s)[i], n - 1);
      }
    }
  }

  lemma {:induction false} SubsSame(g: Graph, h: Graph, live: iset<Loc>, s: SchemaRef)
    requires Agree(g, h, live) && Alive(live, s)
    ensures SubRefs(g, s) == SubRefs(h, s) && forall i :: 0 <= i < |SubRefs(g, s)| ==> Alive(live, SubRefs(g, s)[i])
  {
    hide RefersTo, Closed;
    if s.At? {
      forall i | 0 <= i < |SubRefs(g, s)| ensures Alive(live, SubRefs(g, s)[i]) {
        SubsAreReferred(g, s.loc, SubRefs(g, s)[i]);
        ReferredIsAlive(g, live, s.loc, SubRefs(g, s)[i]);
      }
    }
  }

  /** What a schema means depends only on what it reaches. */
  lemma {:induction false} MeansFromSame(g: Graph, h: Graph, live: iset<Loc>, r: SchemaRef, t: Tree)
    requires Agree(g, h, live) && Alive(live, r) && AllEnd(g, r)
    ensures AllEnd(h, r) && (MeansFrom(g, r, t) <==> MeansFrom(h, r, t))
  {
    hide Reached, RefersTo, Closed, Means, Guarded, Nests;
    ReachedSame(g, h, live, r);
    forall loc | loc in Reached(h, r) ensures Ends(h, At(loc)) {
      var n: nat :| !Nests(g, At(loc), n);
      NestsSame(g, h, live, At(loc), n);
    }
    RankExactlyWhen(g, r);
    RankExactlyWhen(h, r);
    var a, b := GraphFrom(g, r), GraphFrom(h, r);
    PartAgrees(g, r);
    assert Agree(a, b, Reached(g, r)) by { PartsAgree(g, h, r); }
    assert Alive(Reached(g, r), r) by { ReachedIsClosed(g, r); }
    MeansSame(a, DepthRank(g), b, DepthRank(h), Reached(g, r), r, t);
  }

  lemma {:induction false} PartsAgree(g: Graph, h: Graph, r: SchemaRef)
    requires Reached(g, r) == Reached(h, r) && forall loc :: loc in Reached(g, r) ==> g(loc) == h(loc)
    ensures Agree(GraphFrom(g, r), GraphFrom(h, r), Reached(g, r))
  {
    hide Reached, RefersTo;
    ReachedIsClosed(g, r);
  }
}
