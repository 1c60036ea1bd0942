/** Comparing document values: what it decides, and where that is not equality. */
module Equality {
  import opened Json
  import opened Document
  import opened Nesting
  import opened PointerAccess
  import opened Hashing

  /** How an integer is stored: modulo 2^64, negative ones in two's complement. */
  function Bits(n: int): nat {
    n % 0x1_0000_0000_0000_0000
  }

  /** How two numbers compare of which one at least is a double. */
  type Doubles = (Value, Value) -> bool

  /** The comparison: the types, then the members by name in any order, the elements in order, the bytes of strings
      and the bits of integers. */
  predicate Equal(doubles: Doubles, v: Value, w: Value)
    decreases v
  {
    match v
    case VNull => w.VNull?
    case VBool(b) => w == v
    case VInt(n) => (w.VInt? && Bits(n) == Bits(w.n)) || (w.VDouble? && doubles(v, w))
    case VDouble(_) => (w.VInt? || w.VDouble?) && doubles(v, w)
    case VString(_) => w == v
    case VArray(vs) => w.VArray? && |vs| == |w.elems| && forall i :: 0 <= i < |vs| ==> Equal(doubles, vs[i], w.elems[i])
    case VObject(ms) =>
      w.VObject? && |ms| == |w.members| && forall i :: 0 <= i < |ms| ==> Meets(doubles, ms[i], w.members)
  }

  /** The first member of that name compares equal. */
  predicate Meets(doubles: Doubles, m: Member, ns: seq<Member>)
    decreases m
  {
    var k := FindMember(ns, m.name);
    k < |ns| && Equal(doubles, m.value, ns[k].value)
  }

  /** Linear search. */
  method FindByName(ns: seq<Member>, name: Bytes) returns (k: nat)
    ensures k == FindMember(ns, name)
  {
    k := 0;
    assert ns[k..] == ns;
    while k < |ns|
      invariant k <= |ns| && FindMember(ns, name) == k + FindMember(ns[k..], name)
    {
      if ns[k].name == name {
        return;
      }
      assert ns[k..][1..] == ns[k + 1..];
      k := k + 1;
    }
  }

  /** The comparison as the program runs it. */
  method IsEqual(doubles: Doubles, v: Value, w: Value) returns (equal: bool)
    ensures equal == Equal(doubles, v, w)
    decreases v
  {
    match v
    case VObject(ms) =>
      if !w.VObject? || |ms| != |w.members| {
        return false;
      }
      for i := 0 to |ms|
        invariant forall j :: 0 <= j < i ==> Meets(doubles, ms[j], w.members)
      {
        var k := FindByName(w.members, ms[i].name);
        if k == |w.members| {
          return false;
        }
        var same := IsEqual(doubles, ms[i].value, w.members[k].value);
        if !same {
          return false;
        }
      }
      return true;
    case VArray(vs) =>
      if !w.VArray? || |vs| != |w.elems| {
        return false;
      }
      for i := 0 to |vs|
        invariant forall j :: 0 <= j < i ==> Equal(doubles, vs[j], w.elems[j])
      {
        var same := IsEqual(doubles, vs[i], w.elems[i]);
        if !same {
          return false;
        }
      }
      return true;
    case VInt(n) =>
      if w.VDouble? {
        return doubles(v, w);
      }
      return w.VInt? && Bits(n) == Bits(w.n);
    case VDouble(_) => return (w.VInt? || w.VDouble?) && doubles(v, w);
    case VNull => return w.VNull?;
    case VBool(b) => return w.VBool? && w.b == b;
    case VString(s) => return w.VString? && w.s == s;
  }

  // ------------------------------------------------------------ what it decides

  /** No object in the value has two members of one name. */
  predicate Unique(v: Value) {
    match v
    case VArray(vs) => forall i :: 0 <= i < |vs| ==> Unique(vs[i])
    case VObject(ms) => DistinctNames(ms) && forall i :: 0 <= i < |ms| ==> Unique(ms[i].value)
    case _ => true
  }

  /** The integers in the value are among the 2^64 from `low` on, as all of type int64 or all of type uint64 are. */
  predicate InWindow(v: Value, low: int) {
    match v
    case VInt(n) => low <= n < low + 0x1_0000_0000_0000_0000
    case VArray(vs) => forall i :: 0 <= i < |vs| ==> InWindow(vs[i], low)
    case VObject(ms) => forall i :: 0 <= i < |ms| ==> InWindow(ms[i].value, low)
    case _ => true
  }

  /** Values that the comparison is meant for. */
  predicate Plain(v: Value, low: int) {
    HasNoDouble(v) && Unique(v) && InWindow(v, low)
  }

  lemma {:induction false} SameBits(a: int, b: int, low: int)
    requires low <= a < low + 0x1_0000_0000_0000_0000 && low <= b < low + 0x1_0000_0000_0000_0000
    ensures Bits(a) == Bits(b) <==> a == b
  {
  }

  /** Where every object has distinct names and one range of 2^64 holds all integers, values compare equal exactly
      when they are the same but for the order of members. */
  lemma {:induction false} EqualExactlySimilar(doubles: Doubles, v: Value, w: Value, low: int)
    requires Plain(v, low) && Plain(w, low)
    ensures WellFormed(AcceptTree(v)) && WellFormed(AcceptTree(w))
    ensures Equal(doubles, v, w) <==> Similar(AcceptTree(v), AcceptTree(w))
    decreases v
  {
    AcceptTreeStandsForValue(v);
    AcceptTreeStandsForValue(w);
    match v
    case VInt(n) =>
      if w.VInt? {
        SameBits(n, w.n, low);
      }
    case VArray(vs) =>
      if w.VArray? && |vs| == |w.elems| {
        forall i | 0 <= i < |vs| ensures Equal(doubles, vs[i], w.elems[i]) <==> Similar(AcceptTree(vs[i]), AcceptTree(w.elems[i])) {
          EqualExactlySimilar(doubles, vs[i], w.elems[i], low);
        }
      }
    case VObject(ms) =>
      if w.VObject? {
        EqualMembers(doubles, ms, w.members, low);
        var ts, us := AcceptTree(v).members, AcceptTree(w).members;
        if Matched(ts, us) {
          MatchedIsRearranged(ts, us);
        }
        if Rearranged(ts, us) {
          RearrangedIsMatched(ts, us);
        }
      }
    case _ =>
  }

  ghost predicate DistinctTreeNames(ts: seq<TreeMember>) {
    forall i, j :: 0 <= i < j < |ts| ==> ts[i].name != ts[j].name
  }

  /** As many members, and for each a similar one of its name. */
  ghost predicate Matched(ts: seq<TreeMember>, us: seq<TreeMember>)
    requires AllMembersWellFormed(ts) && AllMembersWellFormed(us)
  {
    |ts| == |us| && forall i :: 0 <= i < |ts| ==> HasSimilar(ts[i], us)
  }

  ghost predicate HasSimilar(t: TreeMember, us: seq<TreeMember>)
    requires WellFormed(t.tree) && AllMembersWellFormed(us)
  {
    exists k :: 0 <= k < |us| && us[k].name == t.name && Similar(t.tree, us[k].tree)
  }

  lemma {:induction false} EqualMembers(doubles: Doubles, ms: seq<Member>, ns: seq<Member>, low: int)
    requires Plain(VObject(ms), low) && Plain(VObject(ns), low)
    ensures WellFormed(AcceptTree(VObject(ms))) && WellFormed(AcceptTree(VObject(ns)))
    ensures var ts, us := AcceptTree(VObject(ms)).members, AcceptTree(VObject(ns)).members;
            DistinctTreeNames(us) && (Equal(doubles, VObject(ms), VObject(ns)) <==> Matched(ts, us))
    decreases ms
  {
    AcceptTreeStandsForValue(VObject(ms));
    AcceptTreeStandsForValue(VObject(ns));
    var ts, us := AcceptTree(VObject(ms)).members, AcceptTree(VObject(ns)).members;
    forall i | 0 <= i < |ms|
      ensures Meets(doubles, ms[i], ns) <==> HasSimilar(ts[i], us)
    {
      var k := FindMember(ns, ms[i].name);
      if k < |ns| {
        EqualExactlySimilar(doubles, ms[i].value, ns[k].value, low);
        forall j | 0 <= j < |us| && us[j].name == ts[i].name ensures j == k {
          FindDistinct(ns, j);
        }
      }
    }
  }

  lemma {:induction false} MatchedIsRearranged(ts: seq<TreeMember>, us: seq<TreeMember>)
    requires AllMembersWellFormed(ts) && AllMembersWellFormed(us) && DistinctTreeNames(ts) && Matched(ts, us)
    ensures Rearranged(ts, us)
    decreases |ts|
  {
    hide Similar, WellFormed;
    if ts != [] {
      assert HasSimilar(ts[0], us);
      var k :| 0 <= k < |us| && us[k].name == ts[0].name && Similar(ts[0].tree, us[k].tree);
      var rest := Without(us, k);
      forall i | 0 <= i < |ts| - 1 ensures HasSimilar(ts[1..][i], rest) {
        assert HasSimilar(ts[i + 1], us);
        var j :| 0 <= j < |us| && us[j].name == ts[i + 1].name && Similar(ts[i + 1].tree, us[j].tree);
        assert rest[if j < k then j else j - 1] == us[j];
      }
      MatchedIsRearranged(ts[1..], rest);
    }
  }

  lemma {:induction false} SimilarInWhole(t: TreeMember, us: seq<TreeMember>, k: nat)
    requires WellFormed(t.tree) && AllMembersWellFormed(us) && k < |us| && HasSimilar(t, Without(us, k))
    ensures HasSimilar(t, us)
  {
    hide Similar, WellFormed;
    var rest := Without(us, k);
    var j :| 0 <= j < |rest| && rest[j].name == t.name && Similar(t.tree, rest[j].tree);
    assert us[if j < k then j else j + 1] == rest[j];
  }

  lemma {:induction false} RearrangedIsMatched(ts: seq<TreeMember>, us: seq<TreeMember>)
    requires AllMembersWellFormed(ts) && AllMembersWellFormed(us) && Rearranged(ts, us)
    ensures Matched(ts, us)
    decreases |ts|
  {
    hide Similar, WellFormed;
    if ts != [] {
      var k :| 0 <= k < |us| && us[k].name == ts[0].name && Similar(ts[0].tree, us[k].tree)
               && Rearranged(ts[1..], Without(us, k));
      var rest := Without(us, k);
      RearrangedIsMatched(ts[1..], rest);
      forall i | 0 < i < |ts| ensures HasSimilar(ts[i], us) {
        assert HasSimilar(ts[1..][i - 1], rest);
        SimilarInWhole(ts[i], us, k);
      }
    }
  }

  /** Values that compare equal have the same hash. */
  lemma {:induction false} EqualValuesHashAlike(numbers: Numbers, doubles: Doubles, v: Value, w: Value, low: int)
    requires Plain(v, low) && Plain(w, low) && Equal(doubles, v, w)
    ensures WellFormed(AcceptTree(v)) && WellFormed(AcceptTree(w))
    ensures CodeOf(numbers, AcceptTree(v)) == CodeOf(numbers, AcceptTree(w))
  {
    EqualExactlySimilar(doubles, v, w, low);
    OrderDoesNotMatter(numbers, AcceptTree(v), AcceptTree(w));
  }

  // ------------------------------------------------------------ an equivalence, where names are distinct

  predicate HasName(ns: seq<Member>, name: Bytes) {
    exists k :: 0 <= k < |ns| && ns[k].name == name
  }

  /** Counting names: as many members, whose names differ and are all there, leave no room for others. */
  lemma {:induction false} SameNames(ms: seq<Member>, ns: seq<Member>)
    requires DistinctNames(ms) && |ms| == |ns| && forall i :: 0 <= i < |ms| ==> HasName(ns, ms[i].name)
    ensures DistinctNames(ns) && forall k :: 0 <= k < |ns| ==> HasName(ms, ns[k].name)
    decreases |ms|
  {
    if ms != [] {
      assert HasName(ns, ms[0].name);
      var k :| 0 <= k < |ns| && ns[k].name == ms[0].name;
      var rest := Without(ns, k);
      forall i | 0 <= i < |ms| - 1 ensures HasName(rest, ms[1..][i].name) {
        assert HasName(ns, ms[i + 1].name) && ms[0].name != ms[i + 1].name;
        var j :| 0 <= j < |ns| && ns[j].name == ms[i + 1].name;
        assert rest[if j < k then j else j - 1] == ns[j];
      }
      SameNames(ms[1..], rest);
      NamesWithout(ms, ns, k);
    }
  }

  lemma {:induction false} NamesWithout(ms: seq<Member>, ns: seq<Member>, k: nat)
    requires DistinctNames(ms) && ms != [] && k < |ns| && ns[k].name == ms[0].name
    requires DistinctNames(Without(ns, k)) && forall j :: 0 <= j < |ns| - 1 ==> HasName(ms[1..], Without(ns, k)[j].name)
    ensures DistinctNames(ns) && forall j :: 0 <= j < |ns| ==> HasName(ms, ns[j].name)
  {
    var rest := Without(ns, k);
    forall j | 0 <= j < |ns| && j != k ensures ns[j].name != ns[k].name && HasName(ms, ns[j].name) {
      var r := if j < k then j else j - 1;
      assert rest[r] == ns[j] && HasName(ms[1..], rest[r].name);
      var i :| 0 <= i < |ms[1..]| && ms[1..][i].name == rest[r].name;
      assert ms[i + 1].name == ns[j].name && ms[0].name != ms[i + 1].name;
    }
    forall i, j | 0 <= i < j < |ns| ensures ns[i].name != ns[j].name {
      if i != k && j != k {
        assert rest[if i < k then i else i - 1] == ns[i] && rest[if j < k then j else j - 1] == ns[j];
      }
    }
    assert HasName(ms, ns[k].name);
  }

  /** What an object with distinct names compares equal to has the same names. */
  lemma {:induction false} EqualObjectsShareNames(doubles: Doubles, ms: seq<Member>, ns: seq<Member>)
    requires DistinctNames(ms) && Equal(doubles, VObject(ms), VObject(ns))
    ensures DistinctNames(ns) && forall k :: 0 <= k < |ns| ==> HasName(ms, ns[k].name)
  {
    forall i | 0 <= i < |ms| ensures HasName(ns, ms[i].name) {
      assert Meets(doubles, ms[i], ns);
    }
    SameNames(ms, ns);
  }

  /** Two values that compare equal to a third compare equal. */
  lemma {:induction false} EqualToTheSame(doubles: Doubles, a: Value, b: Value, x: Value)
    requires Unique(a) && Unique(b) && HasNoDouble(a) && HasNoDouble(b) && HasNoDouble(x)
    requires Equal(doubles, a, x) && Equal(doubles, b, x)
    ensures Equal(doubles, a, b)
    decreases a
  {
    match a
    case VArray(vs) =>
      forall i | 0 <= i < |vs| ensures Equal(doubles, vs[i], b.elems[i]) {
        EqualToTheSame(doubles, vs[i], b.elems[i], x.elems[i]);
      }
    case VObject(ms) =>
      EqualObjectsShareNames(doubles, b.members, x.members);
      forall i | 0 <= i < |ms| ensures Meets(doubles, ms[i], b.members) {
        assert Meets(doubles, ms[i], x.members);
        var j := FindMember(x.members, ms[i].name);
        assert HasName(b.members, x.members[j].name);
        var k := FindMember(b.members, ms[i].name);
        assert Meets(doubles, b.members[k], x.members);
        EqualToTheSame(doubles, ms[i].value, b.members[k].value, x.members[j].value);
      }
    case _ =>
  }

  lemma {:induction false} EqualToItself(doubles: Doubles, v: Value)
    requires Unique(v) && HasNoDouble(v)
    ensures Equal(doubles, v, v)
  {
    match v
    case VArray(vs) =>
      forall i | 0 <= i < |vs| ensures Equal(doubles, vs[i], vs[i]) {
        EqualToItself(doubles, vs[i]);
      }
    case VObject(ms) =>
      forall i | 0 <= i < |ms| ensures Meets(doubles, ms[i], ms) {
        FindDistinct(ms, i);
        EqualToItself(doubles, ms[i].value);
      }
    case _ =>
  }

  /** On values without doubles or repeated names, comparing equal is an equivalence. */
  lemma {:induction false} EqualIsEquivalence(doubles: Doubles, a: Value, b: Value, c: Value)
    requires Unique(a) && Unique(b) && Unique(c) && HasNoDouble(a) && HasNoDouble(b) && HasNoDouble(c)
    ensures Equal(doubles, a, a) && (Equal(doubles, a, b) ==> Equal(doubles, b, a))
    ensures Equal(doubles, a, b) && Equal(doubles, b, c) ==> Equal(doubles, a, c)
  {
    hide Equal;
    EqualToItself(doubles, a);
    EqualToItself(doubles, b);
    EqualToItself(doubles, c);
    if Equal(doubles, a, b) {
      EqualToTheSame(doubles, b, a, b);
      if Equal(doubles, b, c) {
        EqualToTheSame(doubles, c, b, c);
        EqualToTheSame(doubles, a, c, b);
      }
    }
  }

  // ------------------------------------------------------------ repeated names

  /** An object with distinct names compares equal to none with a repeated name. */
  lemma {:induction false} DistinctIsNotRepeated(doubles: Doubles, ms: seq<Member>, ns: seq<Member>)
    requires DistinctNames(ms) && !DistinctNames(ns)
    ensures !Equal(doubles, VObject(ms), VObject(ns))
  {
    if Equal(doubles, VObject(ms), VObject(ns)) {
      EqualObjectsShareNames(doubles, ms, ns);
    }
  }

  /** The members of that name all compare equal to one value. */
  ghost predicate HaveCommonValue(doubles: Doubles, ms: seq<Member>, name: Bytes) {
    exists x :: AllEqualTo(doubles, ms, name, x)
  }

  predicate AllEqualTo(doubles: Doubles, ms: seq<Member>, name: Bytes, x: Value) {
    forall i :: 0 <= i < |ms| && ms[i].name == name ==> Equal(doubles, ms[i].value, x)
  }

  ghost function CommonValue(doubles: Doubles, ms: seq<Member>, name: Bytes): (x: Value)
    requires HaveCommonValue(doubles, ms, name)
    ensures AllEqualTo(doubles, ms, name, x)
  {
    var x :| AllEqualTo(doubles, ms, name, x);
    x
  }

  /** An object, whatever its names, compares equal to some value exactly when, for each name, the values under it
      have one to which they all compare equal. */
  lemma {:induction false} EqualsSomeExactlyWhen(doubles: Doubles, ms: seq<Member>)
    ensures (exists w :: Equal(doubles, VObject(ms), w)) <==> forall i :: 0 <= i < |ms| ==> HaveCommonValue(doubles, ms, ms[i].name)
  {
    if w :| Equal(doubles, VObject(ms), w) {
      forall i | 0 <= i < |ms| ensures HaveCommonValue(doubles, ms, ms[i].name) {
        assert Meets(doubles, ms[i], w.members);
        var x := w.members[FindMember(w.members, ms[i].name)].value;
        forall j | 0 <= j < |ms| && ms[j].name == ms[i].name ensures Equal(doubles, ms[j].value, x) {
          assert Meets(doubles, ms[j], w.members);
        }
        assert AllEqualTo(doubles, ms, ms[i].name, x);
      }
    }
    if forall i :: 0 <= i < |ms| ==> HaveCommonValue(doubles, ms, ms[i].name) {
      var ns := seq(|ms|, i requires 0 <= i < |ms| => Member(ms[i].name, CommonValue(doubles, ms, ms[i].name)));
      forall i | 0 <= i < |ms| ensures Meets(doubles, ms[i], ns) {
        assert ns[i].name == ms[i].name;
        var k := FindMember(ns, ms[i].name);
        assert ns[k].value == CommonValue(doubles, ms, ms[i].name);
      }
      assert Equal(doubles, VObject(ms), VObject(ns));
    }
  }

  /** Values whose objects all have distinct names, and which hold no doubles. */
  predicate MembersUnique(ms: seq<Member>) {
    forall i :: 0 <= i < |ms| ==> Unique(ms[i].value) && HasNoDouble(ms[i].value)
  }

  /** Members that share a name have values that compare equal. */
  predicate Agreeing(doubles: Doubles, ms: seq<Member>) {
    forall i, j :: 0 <= i < |ms| && 0 <= j < |ms| && ms[i].name == ms[j].name ==> Equal(doubles, ms[i].value, ms[j].value)
  }

  /** An object compares equal to itself, and to anything at all, exactly when the members that share a name have
      values that compare equal; so this is when the documentation is wrong about one with a repeated name. */
  lemma {:induction false} SelfEqualExactlyWhen(doubles: Doubles, ms: seq<Member>)
    requires MembersUnique(ms)
    ensures Equal(doubles, VObject(ms), VObject(ms)) <==> Agreeing(doubles, ms)
    ensures (exists w :: HasNoDouble(w) && Equal(doubles, VObject(ms), w)) <==> Agreeing(doubles, ms)
  {
    if w :| HasNoDouble(w) && Equal(doubles, VObject(ms), w) {
      EqualThenAgreeing(doubles, ms, w.members);
    }
    if Agreeing(doubles, ms) {
      forall i | 0 <= i < |ms| ensures Meets(doubles, ms[i], ms) {
        var k := FindMember(ms, ms[i].name);
        assert ms[i].name == ms[k].name;
      }
      assert HasNoDouble(VObject(ms)) && Equal(doubles, VObject(ms), VObject(ms));
    }
  }

  /** Names repeated further in: here an object equals itself, as both values compare equal to the first of them, which
      does not compare equal to the second. */
  lemma {:induction false} RepeatedFurtherIn(doubles: Doubles)
    ensures var v := VObject([Member([0x61], VNull), Member([0x61], VNull)]);
            var w := VObject([Member([0x61], VNull), Member([0x62], VNull)]);
            var ms := [Member([0x61], w), Member([0x61], v)];
            Equal(doubles, VObject(ms), VObject(ms)) && !Agreeing(doubles, ms)
  {
    RepeatedNames(doubles);
    var v := VObject([Member([0x61], VNull), Member([0x61], VNull)]);
    var w := VObject([Member([0x61], VNull), Member([0x62], VNull)]);
    var ms := [Member([0x61], w), Member([0x61], v)];
    assert w.members[1].name[0] == 0x62;
    assert Meets(doubles, w.members[0], w.members) && Meets(doubles, w.members[1], w.members);
    assert Equal(doubles, w, w);
    assert ms[0].name == ms[1].name;
    assert Meets(doubles, ms[0], ms) && Meets(doubles, ms[1], ms);
    assert !Equal(doubles, ms[0].value, ms[1].value);
  }

  lemma {:induction false} EqualThenAgreeing(doubles: Doubles, ms: seq<Member>, ns: seq<Member>)
    requires MembersUnique(ms) && HasNoDouble(VObject(ns)) && Equal(doubles, VObject(ms), VObject(ns))
    ensures Agreeing(doubles, ms)
  {
    forall i, j | 0 <= i < |ms| && 0 <= j < |ms| && ms[i].name == ms[j].name
      ensures Equal(doubles, ms[i].value, ms[j].value)
    {
      assert Meets(doubles, ms[i], ns) && Meets(doubles, ms[j], ns);
      EqualToTheSame(doubles, ms[i].value, ms[j].value, ns[FindMember(ns, ms[i].name)].value);
    }
  }

  /** On the right of a comparison, an object with members always compares equal to something. */
  lemma {:induction false} EqualFromTheLeft(doubles: Doubles, ns: seq<Member>)
    requires MembersUnique(ns)
    ensures exists v :: Equal(doubles, v, VObject(ns))
  {
    var ms := seq(|ns|, i requires 0 <= i < |ns| => ns[0]);
    forall i | 0 <= i < |ms| ensures Meets(doubles, ms[i], ns) {
      EqualToItself(doubles, ns[0].value);
    }
    assert Equal(doubles, VObject(ms), VObject(ns));
  }

  /** Turning a comparison round that came out equal gives equal again exactly when the right side has no name that
      the left has not, and its members that share a name have values that compare equal. */
  lemma {:induction false} SymmetricExactlyWhen(doubles: Doubles, ms: seq<Member>, ns: seq<Member>)
    requires MembersUnique(ms) && MembersUnique(ns) && Equal(doubles, VObject(ms), VObject(ns))
    ensures Equal(doubles, VObject(ns), VObject(ms))
            <==> Agreeing(doubles, ns) && forall k :: 0 <= k < |ns| ==> HasName(ms, ns[k].name)
  {
    if Equal(doubles, VObject(ns), VObject(ms)) {
      EqualThenAgreeing(doubles, ns, ms);
      forall k | 0 <= k < |ns| ensures HasName(ms, ns[k].name) {
        assert Meets(doubles, ns[k], ms);
      }
    }
    if Agreeing(doubles, ns) && forall k :: 0 <= k < |ns| ==> HasName(ms, ns[k].name) {
      forall k | 0 <= k < |ns| ensures Meets(doubles, ns[k], ms) {
        assert HasName(ms, ns[k].name);
        var i := FindMember(ms, ns[k].name);
        assert Meets(doubles, ms[i], ns);
        var j := FindMember(ns, ns[k].name);
        assert Equal(doubles, ns[k].value, ns[j].value);
        EqualToTheSame(doubles, ns[k].value, ms[i].value, ns[j].value);
      }
    }
  }

  /** Such a pair, against the documentation: equal, but not the other way round. */
  lemma {:induction false} RepeatedNames(doubles: Doubles)
    ensures var v := VObject([Member([0x61], VNull), Member([0x61], VNull)]);
            var w := VObject([Member([0x61], VNull), Member([0x62], VNull)]);
            Equal(doubles, v, w) && !Equal(doubles, w, v)
  {
    var v := VObject([Member([0x61], VNull), Member([0x61], VNull)]);
    var w := VObject([Member([0x61], VNull), Member([0x62], VNull)]);
    assert v.members[0].name == v.members[1].name == w.members[0].name;
    assert w.members[1].name[0] != v.members[0].name[0];
    assert !Meets(doubles, w.members[1], v.members);
    assert Meets(doubles, v.members[0], w.members) && Meets(doubles, v.members[1], w.members);
  }

  // ------------------------------------------------------------ integers of both signs

  /** -1 compares equal to 2^64 - 1. */
  lemma {:induction false} BitsAreNotValues(doubles: Doubles, a: int, b: int)
    requires (IsInt64(a) || IsUint64(a)) && (IsInt64(b) || IsUint64(b))
    ensures Equal(doubles, VInt(a), VInt(b))
            <==> a == b || a - b == 0x1_0000_0000_0000_0000 || b - a == 0x1_0000_0000_0000_0000
  {
  }
}
