/** The document: integer flags, the events a value replays and the stack machine that turns events into values. */
module Document {
  import opened Options
  import opened Json
  import opened ReaderSpec
  import opened Nesting

  // ------------------------------------------------------------ integer flags

  /** The type tests an integer value answers. */
  datatype Flags = Flags(isInt: bool, isUint: bool, isInt64: bool, isUint64: bool)

  predicate IsInt32(n: int) { -0x8000_0000 <= n < 0x8000_0000 }
  predicate IsUint32(n: int) { 0 <= n < 0x1_0000_0000 }
  predicate IsInt64(n: int) { -0x8000_0000_0000_0000 <= n < 0x8000_0000_0000_0000 }
  predicate IsUint64(n: int) { 0 <= n < 0x1_0000_0000_0000_0000 }

  // What the constructors from the four integer types set.

  function FlagsFromInt(i: int): Flags
    requires IsInt32(i)
  {
    if i >= 0 then Flags(true, true, true, true) else Flags(true, false, true, false)
  }

  function FlagsFromUint(u: int): Flags
    requires IsUint32(u)
  {
    if u >= 0x8000_0000 then Flags(false, true, true, true) else Flags(true, true, true, true)
  }

  function FlagsFromInt64(i: int): Flags
    requires IsInt64(i)
  {
    if i >= 0 then Flags(i < 0x8000_0000, i < 0x1_0000_0000, true, true)
    else Flags(i >= -0x8000_0000, false, true, false)
  }

  function FlagsFromUint64(u: int): Flags
    requires IsUint64(u)
  {
    Flags(u < 0x8000_0000, u < 0x1_0000_0000, u < 0x8000_0000_0000_0000, true)
  }

  /** The flags say in which of the four types the value fits, whichever of them it was constructed from; so an
      integer value needs no tag here. */
  lemma {:induction false} FlagsDependOnValueOnly(n: int)
    ensures var f := Flags(IsInt32(n), IsUint32(n), IsInt64(n), IsUint64(n));
            && (IsInt32(n) ==> FlagsFromInt(n) == f)
            && (IsUint32(n) ==> FlagsFromUint(n) == f)
            && (IsInt64(n) ==> FlagsFromInt64(n) == f)
            && (IsUint64(n) ==> FlagsFromUint64(n) == f)
  {
    if IsInt32(n) {
      assert FlagsFromInt(n) == Flags(IsInt32(n), IsUint32(n), IsInt64(n), IsUint64(n));
    }
  }

  // ------------------------------------------------------------ replaying a value

  /** Values whose integers fit 64 bits. */
  predicate Representable(v: Value) {
    match v
    case VInt(n) => IsInt64(n) || IsUint64(n)
    case VArray(vs) => forall i :: 0 <= i < |vs| ==> Representable(vs[i])
    case VObject(ms) => forall i :: 0 <= i < |ms| ==> Representable(ms[i].value)
    case _ => true
  }

  predicate HasNoDouble(v: Value) {
    match v
    case VDouble(_) => false
    case VArray(vs) => forall i :: 0 <= i < |vs| ==> HasNoDouble(vs[i])
    case VObject(ms) => forall i :: 0 <= i < |ms| ==> HasNoDouble(ms[i].value)
    case _ => true
  }

  /** The event of an integer, by the first flag that holds. */
  function AcceptInt(n: int): Event {
    if IsInt32(n) then Int(n) else if IsUint32(n) then Uint(n) else if IsInt64(n) then Int64(n) else Uint64(n)
  }

  /** The event carries the integer; it is a signed one if it can be, and of 32 bits if it can be. */
  lemma {:induction false} AcceptIntExactly(n: int)
    requires IsInt64(n) || IsUint64(n)
    ensures var e := AcceptInt(n);
            && (e.Int? || e.Uint? || e.Int64? || e.Uint64?) && e.i == n
            && (e.Int? <==> -0x8000_0000 <= n < 0x8000_0000) && (e.Uint? <==> 0x8000_0000 <= n < 0x1_0000_0000)
            && (e.Uint64? <==> n >= 0x8000_0000_0000_0000)
  {
  }

  /** The events that a value replays to a handler, as a tree. */
  function AcceptTree(v: Value): Tree {
    match v
    case VNull => Leaf(Null)
    case VBool(b) => Leaf(Bool(b))
    case VInt(n) => Leaf(AcceptInt(n))
    case VDouble(l) => Leaf(Double(l))
    case VString(s) => Leaf(String(s))
    case VArray(vs) => Arr(seq(|vs|, i requires 0 <= i < |vs| => AcceptTree(vs[i])))
    case VObject(ms) => Obj(seq(|ms|, i requires 0 <= i < |ms| => TreeMember(ms[i].name, AcceptTree(ms[i].value))))
  }

  lemma {:induction false} AcceptTreeStandsForValue(v: Value)
    ensures WellFormed(AcceptTree(v)) && ToValue(AcceptTree(v)) == v
  {
    match v
    case VArray(vs) =>
      forall i | 0 <= i < |vs| ensures WellFormed(AcceptTree(vs[i])) && ToValue(AcceptTree(vs[i])) == vs[i] {
        AcceptTreeStandsForValue(vs[i]);
      }
      assert ToValue(AcceptTree(v)).elems == vs;
    case VObject(ms) =>
      forall i | 0 <= i < |ms|
        ensures WellFormed(AcceptTree(ms[i].value)) && ToValue(AcceptTree(ms[i].value)) == ms[i].value
      {
        AcceptTreeStandsForValue(ms[i].value);
      }
      assert ToValue(AcceptTree(v)).members == ms;
    case _ =>
  }

  // ------------------------------------------------------------ the stack machine

  /** Values on the stack, read as name and value pairs. */
  predicate ArePairs(vs: seq<Value>) {
    vs == [] || (|vs| >= 2 && vs[0].VString? && ArePairs(vs[2..]))
  }

  function Pairs(vs: seq<Value>): seq<Member>
    requires ArePairs(vs)
  {
    if vs == [] then [] else [Member(vs[0].s, vs[1])] + Pairs(vs[2..])
  }

  /** What one event does to the stack; None where the source would pop what is not there. */
  function Handle(stack: seq<Value>, e: Event): Option<seq<Value>> {
    match e
    case StartObject => Some(stack + [VObject([])])
    case StartArray => Some(stack + [VArray([])])
    case Key(s) => Some(stack + [VString(s)])
    case EndObject(n) =>
      if |stack| < 2 * n + 1 || !ArePairs(stack[|stack| - 2 * n..]) then None
      else Some(stack[..|stack| - 2 * n - 1] + [VObject(Pairs(stack[|stack| - 2 * n..]))])
    case EndArray(n) =>
      if |stack| < n + 1 then None
      else Some(stack[..|stack| - n - 1] + [VArray(stack[|stack| - n..])])
    case _ => Some(stack + [ScalarValue(e)])
  }

  function HandleAll(stack: seq<Value>, es: seq<Event>): Option<seq<Value>>
    decreases |es|
  {
    if es == [] then Some(stack)
    else match Handle(stack, es[0])
      case None => None
      case Some(s) => HandleAll(s, es[1..])
  }

  lemma {:induction false} HandleAppended(stack: seq<Value>, es: seq<Event>, fs: seq<Event>)
    requires HandleAll(stack, es).Some?
    ensures HandleAll(stack, es + fs) == HandleAll(HandleAll(stack, es).value, fs)
    decreases |es|
  {
    if es == [] {
      assert es + fs == fs;
    } else {
      assert (es + fs)[1..] == es[1..] + fs;
      HandleAppended(Handle(stack, es[0]).value, es[1..], fs);
    }
  }

  lemma {:induction false} HandleOne(stack: seq<Value>, e: Event)
    ensures HandleAll(stack, [e]) == Handle(stack, e)
  {
    if Handle(stack, e).Some? {
      assert HandleAll(Handle(stack, e).value, [e][1..]) == Handle(stack, e);
    }
  }

  function ElemValues(ts: seq<Tree>): seq<Value>
    requires AllWellFormed(ts)
  {
    seq(|ts|, i requires 0 <= i < |ts| => ToValue(ts[i]))
  }

  function MemberValues(ms: seq<TreeMember>): seq<Member>
    requires AllMembersWellFormed(ms)
  {
    seq(|ms|, i requires 0 <= i < |ms| => Member(ms[i].name, ToValue(ms[i].tree)))
  }

  /** Names and values alternating, as they lie on the stack. */
  function Flat(ms: seq<TreeMember>): (vs: seq<Value>)
    requires AllMembersWellFormed(ms)
    ensures |vs| == 2 * |ms|
  {
    if ms == [] then [] else [VString(ms[0].name), ToValue(ms[0].tree)] + Flat(ms[1..])
  }

  lemma {:induction false} PairsOfFlat(ms: seq<TreeMember>)
    requires AllMembersWellFormed(ms)
    ensures ArePairs(Flat(ms)) && Pairs(Flat(ms)) == MemberValues(ms)
  {
    if ms != [] {
      PairsOfFlat(ms[1..]);
      assert Flat(ms)[2..] == Flat(ms[1..]);
      assert MemberValues(ms) == [Member(ms[0].name, ToValue(ms[0].tree))] + MemberValues(ms[1..]);
    }
  }

  /** Replaying the events of one value puts exactly that value on top of whatever was on the stack; no pop
      underflows on the way. */
  lemma {:induction false} ReplayPushesValue(stack: seq<Value>, t: Tree)
    requires WellFormed(t)
    ensures HandleAll(stack, TreeEvents(t)) == Some(stack + [ToValue(t)])
    decreases t, 1
  {
    hide HandleAll;
    match t
    case Leaf(e) =>
      HandleOne(stack, e);
    case Arr(ts) => ReplayPushesArray(stack, ts);
    case Obj(ms) => ReplayPushesObject(stack, ms);
  }

  lemma {:induction false} ReplayPushesArray(stack: seq<Value>, ts: seq<Tree>)
    requires WellFormed(Arr(ts))
    ensures HandleAll(stack, TreeEvents(Arr(ts))) == Some(stack + [ToValue(Arr(ts))])
    decreases Arr(ts), 0
  {
    hide HandleAll;
    var s := stack + [VArray([])];
    HandleOne(stack, StartArray);
    ReplayElements(s, ts);
    HandleAppended(stack, [StartArray], ElemEvents(ts));
    HandleAppended(stack, [StartArray] + ElemEvents(ts), [EndArray(|ts|)]);
    HandleOne(s + ElemValues(ts), EndArray(|ts|));
    assert (s + ElemValues(ts))[|s|..] == ElemValues(ts);
    assert (s + ElemValues(ts))[..|stack|] == stack;
  }

  lemma {:induction false} ReplayPushesObject(stack: seq<Value>, ms: seq<TreeMember>)
    requires WellFormed(Obj(ms))
    ensures HandleAll(stack, TreeEvents(Obj(ms))) == Some(stack + [ToValue(Obj(ms))])
    decreases Obj(ms), 0
  {
    hide HandleAll, Flat;
    var s, flat := stack + [VObject([])], Flat(ms);
    PairsOfFlat(ms);
    HandleOne(stack, StartObject);
    ReplayMembers(s, ms);
    HandleAppended(stack, [StartObject], MemberEvents(ms));
    HandleAppended(stack, [StartObject] + MemberEvents(ms), [EndObject(|ms|)]);
    HandleOne(s + flat, EndObject(|ms|));
    assert (s + flat)[|s|..] == flat;
    assert (s + flat)[..|stack|] == stack;
  }

  lemma {:induction false} HandleNothing(stack: seq<Value>)
    ensures HandleAll(stack, []) == Some(stack)
  {
  }

  lemma {:induction false} ReplayElements(stack: seq<Value>, ts: seq<Tree>)
    requires AllWellFormed(ts)
    ensures HandleAll(stack, ElemEvents(ts)) == Some(stack + ElemValues(ts))
    decreases ts, 0
  {
    hide HandleAll;
    if ts == [] {
      HandleNothing(stack);
      assert stack + ElemValues(ts) == stack;
    } else {
      ReplayPushesValue(stack, ts[0]);
      ReplayElements(stack + [ToValue(ts[0])], ts[1..]);
      HandleAppended(stack, TreeEvents(ts[0]), ElemEvents(ts[1..]));
      assert stack + [ToValue(ts[0])] + ElemValues(ts[1..]) == stack + ElemValues(ts);
    }
  }

  lemma {:induction false} FlatFirst(ms: seq<TreeMember>)
    requires AllMembersWellFormed(ms) && ms != []
    ensures Flat(ms) == [VString(ms[0].name), ToValue(ms[0].tree)] + Flat(ms[1..])
  {
    hide ToValue;
  }

  lemma {:induction false} ReplayMembers(stack: seq<Value>, ms: seq<TreeMember>)
    requires AllMembersWellFormed(ms)
    ensures HandleAll(stack, MemberEvents(ms)) == Some(stack + Flat(ms))
    decreases ms, 0
  {
    hide HandleAll, Handle, ToValue, TreeEvents, Flat;
    if ms == [] {
      HandleNothing(stack);
      assert Flat([]) == [] && stack + [] == stack;
    } else {
      FlatFirst(ms);
      var s := stack + [VString(ms[0].name)] + [ToValue(ms[0].tree)];
      ReplayMember(stack, ms[0]);
      ReplayMembers(s, ms[1..]);
      HandleAppended(stack, [Key(ms[0].name)] + TreeEvents(ms[0].tree), MemberEvents(ms[1..]));
      assert s + Flat(ms[1..]) == stack + Flat(ms);
    }
  }

  lemma {:induction false} ReplayMember(stack: seq<Value>, m: TreeMember)
    requires WellFormed(m.tree)
    ensures HandleAll(stack, [Key(m.name)] + TreeEvents(m.tree)) == Some(stack + [VString(m.name)] + [ToValue(m.tree)])
    decreases m, 2
  {
    hide HandleAll, ToValue, TreeEvents;
    HandleOne(stack, Key(m.name));
    ReplayPushesValue(stack + [VString(m.name)], m.tree);
    HandleAppended(stack, [Key(m.name)], TreeEvents(m.tree));
  }

  /** Replaying a value into a document handler rebuilds it above any stack. */
  lemma {:induction false} AcceptRebuildsValue(stack: seq<Value>, v: Value)
    ensures HandleAll(stack, TreeEvents(AcceptTree(v))) == Some(stack + [v])
  {
    AcceptTreeStandsForValue(v);
    ReplayPushesValue(stack, AcceptTree(v));
  }

  /** Every accepted parse leaves exactly one value on the stack of the document. */
  lemma {:induction false} ParseLeavesOneValue(input: Input, p: nat)
    requires p <= |input.src| && input.Document(p, []).Ok?
    ensures exists v :: HandleAll([], input.Document(p, []).evs) == Some([v])
  {
    AcceptedTextIsOneValue(input, p);
    var t :| WellFormed(t) && input.Document(p, []).evs == TreeEvents(t);
    ReplayPushesValue([], t);
    assert [] + [ToValue(t)] == [ToValue(t)];
  }

  /** The document as a handler. */
  class GenericDocument {
    var stack: seq<Value>

    constructor ()
      ensures stack == []
    {
      stack := [];
    }

    method Push(v: Value)
      modifies this
      ensures stack == old(stack) + [v]
    {
      stack := stack + [v];
    }

    /** All the events that are a value by themselves. */
    method Scalar(e: Event)
      requires IsScalar(e)
      modifies this
      ensures Some(stack) == Handle(old(stack), e)
    {
      Push(ScalarValue(e));
    }

    method StartObject()
      modifies this
      ensures Some(stack) == Handle(old(stack), Event.StartObject)
    {
      Push(VObject([]));
    }

    method Key(s: Bytes)
      modifies this
      ensures Some(stack) == Handle(old(stack), Event.Key(s))
    {
      Push(VString(s));
    }

    method EndObject(memberCount: nat)
      requires Handle(stack, Event.EndObject(memberCount)).Some?
      modifies this
      ensures Some(stack) == Handle(old(stack), Event.EndObject(memberCount))
    {
      var top := |stack| - 2 * memberCount;
      var members := stack[top..];
      stack := stack[..top];
      stack := stack[|stack| - 1 := VObject(Pairs(members))];
      assert stack == old(stack)[..top - 1] + [VObject(Pairs(members))];
    }

    method StartArray()
      modifies this
      ensures Some(stack) == Handle(old(stack), Event.StartArray)
    {
      Push(VArray([]));
    }

    method EndArray(elementCount: nat)
      requires Handle(stack, Event.EndArray(elementCount)).Some?
      modifies this
      ensures Some(stack) == Handle(old(stack), Event.EndArray(elementCount))
    {
      var top := |stack| - elementCount;
      var elements := stack[top..];
      stack := stack[..top];
      stack := stack[|stack| - 1 := VArray(elements)];
      assert stack == old(stack)[..top - 1] + [VArray(elements)];
    }
  }
}
