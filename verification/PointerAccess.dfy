/** Resolving a JSON pointer in a value, and creating the value it points to. */
module PointerAccess {
  import opened Options
  import opened Json
  import opened Document
  import opened JsonPointer
  import opened ReaderSpec

  /** Where a name first occurs among the members; their number if it does not. */
  function FindMember(ms: seq<Member>, name: Bytes): (i: nat)
    ensures i <= |ms| && (i < |ms| ==> ms[i].name == name)
    ensures forall j :: 0 <= j < i ==> ms[j].name != name
  {
    if ms == [] || ms[0].name == name then 0 else 1 + FindMember(ms[1..], name)
  }

  predicate DistinctNames(ms: seq<Member>) {
    forall i, j :: 0 <= i < j < |ms| ==> ms[i].name != ms[j].name
  }

  /** Where names differ, a member is found by its name. */
  lemma {:induction false} FindDistinct(ms: seq<Member>, k: nat)
    requires k < |ms| && DistinctNames(ms)
    ensures FindMember(ms, ms[k].name) == k
    decreases |ms|
  {
    if k > 0 {
      assert ms[0].name != ms[k].name;
      FindDistinct(ms[1..], k - 1);
    }
  }

  /** The value one token leads to. */
  function Child(v: Value, t: Token): Option<Value> {
    match v
    case VObject(ms) =>
      var i := FindMember(ms, t.name);
      if i < |ms| then Some(ms[i].value) else None
    case VArray(es) => if t.index != INVALID_INDEX && t.index < |es| then Some(es[t.index]) else None
    case _ => None
  }

  /** Section 4 of RFC 6901: a name leads to the first member of that name, an index to the element of that number, and
      nothing else leads anywhere. */
  lemma {:induction false} ChildExactly(v: Value, t: Token, w: Value)
    ensures Child(v, t) == Some(w) <==>
              || (v.VObject? && exists i :: 0 <= i < |v.members| && v.members[i] == Member(t.name, w)
                                            && forall j :: 0 <= j < i ==> v.members[j].name != t.name)
              || (v.VArray? && t.index != INVALID_INDEX && t.index < |v.elems| && v.elems[t.index] == w)
  {
    if v.VObject? {
      var i := FindMember(v.members, t.name);
      if Child(v, t) == Some(w) {
        assert v.members[i] == Member(t.name, w);
      }
      if k :| 0 <= k < |v.members| && v.members[k] == Member(t.name, w) && forall j :: 0 <= j < k ==> v.members[j].name != t.name {
        assert i == k;
      }
    }
  }

  function Get(v: Value, p: seq<Token>): Option<Value>
    decreases |p|
  {
    if p == [] then Some(v)
    else match Child(v, p[0])
      case None => None
      case Some(c) => Get(c, p[1..])
  }

  method Resolve(root: Value, p: seq<Token>) returns (v: Option<Value>, unresolved: nat)
    ensures v == Get(root, p)
    ensures v.None? ==> unresolved < |p| && Get(root, p[..unresolved]).Some? && Get(root, p[..unresolved + 1]).None?
  {
    var here := root;
    var k := 0;
    assert p[k..] == p;
    while k < |p|
      invariant k <= |p| && Get(here, p[k..]) == Get(root, p) && Get(root, p[..k]) == Some(here)
    {
      assert p[k..][1..] == p[k + 1..];
      assert p[..k + 1] == p[..k] + [p[k]];
      GetAppended(root, p[..k], p[k]);
      var c := Child(here, p[k]);
      if c.None? {
        return None, k;
      }
      here := c.value;
      k := k + 1;
    }
    assert p[k..] == [];
    return Some(here), 0;
  }

  lemma {:induction false} GetAppended(v: Value, p: seq<Token>, t: Token)
    ensures Get(v, p + [t]) == if Get(v, p).Some? then Child(Get(v, p).value, t) else None
    decreases |p|
  {
    if p == [] {
      assert [t][1..] == [];
    } else if Child(v, p[0]).Some? {
      assert (p + [t])[1..] == p[1..] + [t];
      GetAppended(Child(v, p[0]).value, p[1..], t);
    }
  }

  // ------------------------------------------------------------ creation

  /** The root afterwards, whether the value existed, and the value. */
  datatype Created = Created(root: Value, exist: bool, value: Value)

  predicate IsDash(t: Token) {
    t.name == [MINUS]
  }

  /** The container after the change of its type, if one is needed for the token. */
  function Retyped(v: Value, t: Token): (w: Value)
    ensures w.VArray? || w.VObject?
    ensures w.VArray? ==> t.index != INVALID_INDEX
  {
    if t.index == INVALID_INDEX then (if v.VObject? then v else VObject([]))
    else if v.VArray? || v.VObject? then v else VArray([])
  }

  /** The elements with as many nulls behind them as the index needs. */
  function Padded(es: seq<Value>, index: nat): (r: seq<Value>)
    ensures index < |r| && |es| <= |r| && r[..|es|] == es
    decreases if |es| <= index then index + 1 - |es| else 0
  {
    if index < |es| then es else Padded(es + [VNull], index)
  }

  function Create(v: Value, p: seq<Token>): Created
    decreases |p|
  {
    if p == [] then Created(v, true, v)
    else if v.VArray? && IsDash(p[0]) then
      var c := Create(VNull, p[1..]);
      Created(VArray(v.elems + [c.root]), false, c.value)
    else match Retyped(v, p[0])
      case VArray(es) =>
        var i, padded := p[0].index, Padded(es, p[0].index);
        var c := Create(padded[i], p[1..]);
        Created(VArray(padded[i := c.root]), i < |es| && c.exist, c.value)
      case VObject(ms) =>
        var i := FindMember(ms, p[0].name);
        if i < |ms| then
          var c := Create(ms[i].value, p[1..]);
          Created(VObject(ms[i := Member(p[0].name, c.root)]), c.exist, c.value)
        else
          var c := Create(VNull, p[1..]);
          Created(VObject(ms + [Member(p[0].name, c.root)]), false, c.value)
  }

  /** Some "-" token stands where there is an array. */
  predicate MeetsDash(v: Value, p: seq<Token>)
    decreases |p|
  {
    p != [] && ((v.VArray? && IsDash(p[0])) || MeetsDash(Next(v, p[0]), p[1..]))
  }

  /** The value from which creation goes on. */
  function Next(v: Value, t: Token): Value {
    if Child(Retyped(v, t), t).Some? then Child(Retyped(v, t), t).value else VNull
  }

  lemma {:induction false} PaddedWithNulls(es: seq<Value>, index: nat)
    ensures forall k :: |es| <= k < |Padded(es, index)| ==> Padded(es, index)[k] == VNull
    decreases if |es| <= index then index + 1 - |es| else 0
  {
    if index >= |es| {
      PaddedWithNulls(es + [VNull], index);
      var r := Padded(es, index);
      assert r[..|es| + 1] == es + [VNull];
      assert r[|es|] == (es + [VNull])[|es|];
    }
  }

  lemma {:induction false} FindUpdated(ms: seq<Member>, i: nat, v: Value, name: Bytes)
    requires i < |ms|
    ensures FindMember(ms[i := Member(ms[i].name, v)], name) == FindMember(ms, name)
    decreases |ms|
  {
    var ns := ms[i := Member(ms[i].name, v)];
    if i == 0 {
      assert ns[1..] == ms[1..];
    } else {
      assert ns[1..] == ms[1..][i - 1 := Member(ms[i].name, v)];
      FindUpdated(ms[1..], i - 1, v, name);
    }
  }

  lemma {:induction false} FindAppended(ms: seq<Member>, m: Member, name: Bytes)
    ensures FindMember(ms + [m], name) == if FindMember(ms, name) < |ms| then FindMember(ms, name)
                                          else if m.name == name then |ms| else |ms| + 1
    decreases |ms|
  {
    if ms == [] {
      assert ([m] + [])[1..] == [];
    } else {
      assert (ms + [m])[1..] == ms[1..] + [m];
      FindAppended(ms[1..], m, name);
    }
  }

  /** The step of creation that is not an append to an array: it replaces the child by what creation makes of it,
      and the child can be found at its token afterwards. */
  lemma {:induction false} CreateStep(v: Value, p: seq<Token>)
    requires p != [] && !(v.VArray? && IsDash(p[0]))
    ensures var c, r := Create(Next(v, p[0]), p[1..]), Create(v, p);
            && Child(r.root, p[0]) == Some(c.root) && r.value == c.value
            && r.exist == (c.exist && Child(v, p[0]).Some?)
  {
    hide Create;
    CreateUnfolds(v, p);
    match Retyped(v, p[0])
    case VArray(es) =>
      PaddedWithNulls(es, p[0].index);
    case VObject(ms) =>
      var i := FindMember(ms, p[0].name);
      if i < |ms| {
        FindUpdated(ms, i, Create(ms[i].value, p[1..]).root, p[0].name);
      } else {
        FindAppended(ms, Member(p[0].name, Create(VNull, p[1..]).root), p[0].name);
      }
  }

  lemma {:induction false} CreateUnfolds(v: Value, p: seq<Token>)
    requires p != [] && !(v.VArray? && IsDash(p[0]))
    ensures match Retyped(v, p[0])
            case VArray(es) =>
              var i, padded := p[0].index, Padded(es, p[0].index);
              var c := Create(padded[i], p[1..]);
              Create(v, p) == Created(VArray(padded[i := c.root]), i < |es| && c.exist, c.value)
            case VObject(ms) =>
              var i := FindMember(ms, p[0].name);
              var c := Create(if i < |ms| then ms[i].value else VNull, p[1..]);
              var m := Member(p[0].name, c.root);
              Create(v, p) == Created(VObject(if i < |ms| then ms[i := m] else ms + [m]), i < |ms| && c.exist, c.value)
            case _ => false
  {
  }

  /** What creation at one token makes of a value: an array or an object as the token wants it where there was neither,
      an object where an array cannot have the token, and otherwise one element, member or run of nulls more if the
      container lacks it. */
  lemma {:induction false} CreateOne(v: Value, t: Token)
    ensures var r := Create(v, [t]);
            match v
            case VArray(es) =>
              if IsDash(t) then r == Created(VArray(es + [VNull]), false, VNull)
              else if t.index == INVALID_INDEX then r == Created(VObject([Member(t.name, VNull)]), false, VNull)
              else if t.index < |es| then r == Created(v, true, es[t.index])
              else r == Created(VArray(es + Nulls(t.index + 1 - |es|)), false, VNull)
            case VObject(ms) =>
              if HasName(ms, t.name) then r.root == v && r.exist && Some(r.value) == Child(v, t)
              else r == Created(VObject(ms + [Member(t.name, VNull)]), false, VNull)
            case _ =>
              if t.index == INVALID_INDEX then r == Created(VObject([Member(t.name, VNull)]), false, VNull)
              else r == Created(VArray(Nulls(t.index + 1)), false, VNull)
  {
    hide Create;
    CreateNone(VNull);
    if v.VArray? && IsDash(t) {
      CreateAppends(v, t);
    } else if v.VObject? || t.index == INVALID_INDEX {
      CreateInObject(v, t);
    } else {
      CreateInArray(v, t);
    }
  }

  lemma {:induction false} CreateNone(v: Value)
    ensures Create(v, []) == Created(v, true, v)
  {
  }

  lemma {:induction false} CreateAppends(v: Value, t: Token)
    requires v.VArray? && IsDash(t)
    ensures Create(v, [t]) == Created(VArray(v.elems + [VNull]), false, VNull)
  {
    assert [t][1..] == [];
  }

  lemma {:induction false} CreateInObject(v: Value, t: Token)
    requires !(v.VArray? && IsDash(t)) && (v.VObject? || t.index == INVALID_INDEX)
    ensures var ms := if v.VObject? then v.members else [];
            if HasName(ms, t.name) then Create(v, [t]).root == v && Create(v, [t]).exist && Some(Create(v, [t]).value) == Child(v, t)
            else Create(v, [t]) == Created(VObject(ms + [Member(t.name, VNull)]), false, VNull)
    ensures !v.VObject? ==> Create(v, [t]) == Created(VObject([Member(t.name, VNull)]), false, VNull)
  {
    hide Create;
    assert [t][1..] == [];
    CreateUnfolds(v, [t]);
    var ms := if v.VObject? then v.members else [];
    var i := FindMember(ms, t.name);
    CreateNone(if i < |ms| then ms[i].value else VNull);
    if i < |ms| {
      assert ms[i := Member(ms[i].name, ms[i].value)] == ms;
    }
    assert [] + [Member(t.name, VNull)] == [Member(t.name, VNull)];
  }

  lemma {:induction false} CreateInArray(v: Value, t: Token)
    requires !(v.VArray? && IsDash(t)) && !v.VObject? && t.index != INVALID_INDEX
    ensures var es, n := if v.VArray? then v.elems else [], t.index;
            Create(v, [t]) == if n < |es| then Created(v, true, es[n]) else Created(VArray(es + Nulls(n + 1 - |es|)), false, VNull)
    ensures !v.VArray? ==> Create(v, [t]) == Created(VArray(Nulls(t.index + 1)), false, VNull)
  {
    hide Create;
    assert [t][1..] == [];
    CreateUnfolds(v, [t]);
    var es, n := if v.VArray? then v.elems else [], t.index;
    PaddedIs(es, n);
    var padded := Padded(es, n);
    assert padded[n := padded[n]] == padded;
    CreateNone(padded[n]);
    assert [] + Nulls(n + 1) == Nulls(n + 1);
  }

  function Nulls(n: nat): seq<Value> {
    seq(n, i => VNull)
  }

  predicate HasName(ms: seq<Member>, name: Bytes) {
    exists i :: 0 <= i < |ms| && ms[i].name == name
  }

  lemma {:induction false} PaddedIs(es: seq<Value>, index: nat)
    ensures Padded(es, index) == if index < |es| then es else es + Nulls(index + 1 - |es|)
    decreases if |es| <= index then index + 1 - |es| else 0
  {
    if index >= |es| {
      PaddedIs(es + [VNull], index);
      assert es + [VNull] + Nulls(index - |es|) == es + Nulls(index + 1 - |es|);
    }
  }

  /** The container with another value where the token leads to. */
  function WithChild(v: Value, t: Token, c: Value): Value
    requires Child(v, t).Some?
  {
    if v.VArray? then VArray(v.elems[t.index := c]) else VObject(v.members[FindMember(v.members, t.name) := Member(t.name, c)])
  }

  /** Creation goes on in what the first token has made. */
  predicate GoesOn(v: Value, p: seq<Token>)
    requires p != []
  {
    var first := Create(v, p[..1]);
    && Child(first.root, p[0]).Some?
    && var c := Create(Child(first.root, p[0]).value, p[1..]);
       Create(v, p) == Created(WithChild(first.root, p[0], c.root), first.exist && c.exist, c.value)
  }

  /** Creation along more tokens goes on in what one token has made, and changes nothing else there. */
  lemma {:induction false} CreateMore(v: Value, p: seq<Token>)
    requires p != []
    ensures if v.VArray? && IsDash(p[0]) then var c := Create(VNull, p[1..]); Create(v, p) == Created(VArray(v.elems + [c.root]), false, c.value)
            else GoesOn(v, p)
  {
    if v.VArray? && IsDash(p[0]) {
      CreateDash(v, p);
    } else if Retyped(v, p[0]).VArray? {
      MoreInArray(v, p);
    } else {
      MoreInObject(v, p);
    }
  }

  lemma {:induction false} MoreInArray(v: Value, p: seq<Token>)
    requires p != [] && !(v.VArray? && IsDash(p[0])) && Retyped(v, p[0]).VArray?
    ensures GoesOn(v, p)
  {
    hide Create, FindMember;
    var one := p[..1];
    assert one[1..] == [] && one[0] == p[0];
    CreateUnfolds(v, p);
    CreateUnfolds(v, one);
    CreateNone(Padded(Retyped(v, p[0]).elems, p[0].index)[p[0].index]);
    var first := Create(v, one);
    assert Create(v, p).root == WithChild(first.root, p[0], Create(Child(first.root, p[0]).value, p[1..]).root);
  }

  lemma {:induction false} MoreInObject(v: Value, p: seq<Token>)
    requires p != [] && !(v.VArray? && IsDash(p[0])) && Retyped(v, p[0]).VObject?
    ensures GoesOn(v, p)
  {
    hide Create, Padded, FindMember;
    var one, ms, name := p[..1], Retyped(v, p[0]).members, p[0].name;
    var i := FindMember(ms, name);
    assert one[1..] == [] && one[0] == p[0];
    CreateUnfolds(v, p);
    CreateUnfolds(v, one);
    CreateNone(if i < |ms| then ms[i].value else VNull);
    if i < |ms| {
      FindUpdated(ms, i, ms[i].value, name);
    } else {
      FindAppended(ms, Member(name, VNull), name);
    }
    var first := Create(v, one);
    assert Create(v, p).root == WithChild(first.root, p[0], Create(Child(first.root, p[0]).value, p[1..]).root);
  }

  lemma {:induction false} CreateDash(v: Value, p: seq<Token>)
    requires p != [] && v.VArray? && IsDash(p[0])
    ensures var c := Create(VNull, p[1..]); Create(v, p) == Created(VArray(v.elems + [c.root]), false, c.value)
  {
  }

  /** After creation the pointer leads to the created value, exactly when no "-" token stood where there was an
      array; then it leads nowhere. */
  lemma {:induction false} CreateThenGet(v: Value, p: seq<Token>)
    requires IndicesMatch(p)
    ensures Get(Create(v, p).root, p) == if MeetsDash(v, p) then None else Some(Create(v, p).value)
    decreases |p|
  {
    if p != [] {
      if v.VArray? && IsDash(p[0]) {
        DashHasNoIndex(p[0]);
      } else {
        hide Create, Child, Next;
        CreateStep(v, p);
        CreateThenGet(Next(v, p[0]), p[1..]);
      }
    }
  }

  lemma {:induction false} DashHasNoIndex(t: Token)
    requires IsDash(t) && t == NameToken(t.name)
    ensures t.index == INVALID_INDEX
  {
    assert !IsDigit([MINUS][0]);
  }

  /** The value existed exactly when the pointer resolved before, and then nothing has changed. */
  lemma {:induction false} ExistsExactly(v: Value, p: seq<Token>)
    requires IndicesMatch(p)
    ensures Create(v, p).exist <==> Get(v, p).Some?
    ensures Get(v, p).Some? ==> Create(v, p) == Created(v, true, Get(v, p).value)
    decreases |p|
  {
    if p != [] {
      if v.VArray? && IsDash(p[0]) {
        DashHasNoIndex(p[0]);
      } else {
        CreateStep(v, p);
        if Child(v, p[0]).Some? {
          ExistsExactly(Child(v, p[0]).value, p[1..]);
          SameChild(v, p);
        }
      }
    }
  }

  /** Where the child exists nothing is retyped or added, and a child that stays the same leaves all the same. */
  lemma {:induction false} SameChild(v: Value, p: seq<Token>)
    requires p != [] && Child(v, p[0]).Some? && !(v.VArray? && IsDash(p[0]))
    ensures Next(v, p[0]) == Child(v, p[0]).value
    ensures Create(Next(v, p[0]), p[1..]).root == Next(v, p[0]) ==> Create(v, p).root == v
  {
    hide Create;
    CreateUnfolds(v, p);
    if v.VObject? {
      var i := FindMember(v.members, p[0].name);
      assert v.members[i := Member(v.members[i].name, v.members[i].value)] == v.members;
    }
  }

  /** `q` resolves one token further than it goes along with `p`, or ends before; on the common way no
      container is retyped for `p`. */
  predicate OffPath(v: Value, p: seq<Token>, q: seq<Token>)
    decreases |p|
  {
    && p != [] && q != [] && Child(v, q[0]).Some?
    && (v.VArray? ==>
          || IsDash(p[0])
          || (p[0].index != INVALID_INDEX
              && (p[0].index != q[0].index || OffPath(Child(v, q[0]).value, p[1..], q[1..]))))
    && (v.VObject? ==> p[0].name != q[0].name || OffPath(Child(v, q[0]).value, p[1..], q[1..]))
  }

  /** Values off the path, under containers that keep their type, are untouched. */
  lemma {:induction false} OffPathUntouched(v: Value, p: seq<Token>, q: seq<Token>)
    requires OffPath(v, p, q)
    ensures Get(Create(v, p).root, q) == Get(v, q)
    decreases |p|, 1
  {
    if v.VArray? && IsDash(p[0]) {
      assert Child(Create(v, p).root, q[0]) == Child(v, q[0]);
    } else if v.VArray? {
      OffPathInArray(v, p, q);
    } else {
      OffPathInObject(v, p, q);
    }
  }

  lemma {:induction false} OffPathInArray(v: Value, p: seq<Token>, q: seq<Token>)
    requires OffPath(v, p, q) && v.VArray? && !IsDash(p[0])
    ensures Get(Create(v, p).root, q) == Get(v, q)
    decreases |p|, 0
  {
    var c := Create(Next(v, p[0]), p[1..]);
    CreateStep(v, p);
    if p[0].index != q[0].index {
      ArrayElsewhere(v, p, q[0]);
    } else {
      assert Child(v, q[0]) == Child(v, p[0]) == Some(Next(v, p[0]));
      OffPathUntouched(Next(v, p[0]), p[1..], q[1..]);
    }
  }

  lemma {:induction false} ArrayElsewhere(v: Value, p: seq<Token>, t: Token)
    requires p != [] && v.VArray? && !IsDash(p[0]) && p[0].index != INVALID_INDEX && p[0].index != t.index
    requires Child(v, t).Some?
    ensures Child(Create(v, p).root, t) == Child(v, t)
  {
    hide Create;
    CreateUnfolds(v, p);
    var padded := Padded(v.elems, p[0].index);
    assert padded[..|v.elems|][t.index] == padded[t.index];
  }

  lemma {:induction false} OffPathInObject(v: Value, p: seq<Token>, q: seq<Token>)
    requires OffPath(v, p, q) && v.VObject?
    ensures Get(Create(v, p).root, q) == Get(v, q)
    decreases |p|, 0
  {
    CreateStep(v, p);
    if p[0].name != q[0].name {
      ObjectElsewhere(v, p, q[0]);
    } else {
      assert Child(v, q[0]) == Child(v, p[0]) == Some(Next(v, p[0]));
      OffPathUntouched(Next(v, p[0]), p[1..], q[1..]);
    }
  }

  lemma {:induction false} ObjectElsewhere(v: Value, p: seq<Token>, t: Token)
    requires p != [] && v.VObject? && p[0].name != t.name && Child(v, t).Some?
    ensures Child(Create(v, p).root, t) == Child(v, t)
  {
    hide Create;
    CreateUnfolds(v, p);
    var ms, i := v.members, FindMember(v.members, p[0].name);
    var c := Create(if i < |ms| then ms[i].value else VNull, p[1..]);
    if i < |ms| {
      FindUpdated(ms, i, c.root, t.name);
    } else {
      FindAppended(ms, Member(p[0].name, c.root), t.name);
    }
  }
}
