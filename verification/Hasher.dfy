/** The hash of a value, computed from its events: the order of an object's members does not matter, at any depth. */
module Hashing {
  import opened Options
  import opened Json
  import opened Nesting

  type Code = bv64

  const OFFSET: Code := 0x8422_2325_CBF2_9CE4

  const NULL_TYPE: Code := 0
  const FALSE_TYPE: Code := 1
  const TRUE_TYPE: Code := 2
  const OBJECT_TYPE: Code := 3
  const ARRAY_TYPE: Code := 4
  const STRING_TYPE: Code := 5
  const NUMBER_TYPE: Code := 6

  /** How numbers look in memory: the sixteen bytes hashed for an integer of some value and for a double. */
  datatype Numbers = Numbers(integer: int -> Bytes, double: Bytes -> Bytes) {
    function Of(e: Event): Bytes
      requires IsNumber(e)
    {
      if e.Double? then double(e.lexeme) else integer(e.i)
    }
  }

  predicate IsNumber(e: Event) {
    e.Int? || e.Uint? || e.Int64? || e.Uint64? || e.Double?
  }

  function Xor(a: Code, b: Code): Code {
    a ^ b
  }

  lemma {:induction false} XorLaws(a: Code, b: Code, c: Code)
    ensures Xor(a, Xor(b, c)) == Xor(Xor(a, b), c)
    ensures Xor(a, Xor(b, c)) == Xor(b, Xor(a, c))
    ensures Xor(a, Xor(a, c)) == c && Xor(a, 0) == a
  {
  }

  /** One round, modulo 2^64. The prime is written out: in products with a literal the solver cancels it. */
  function Hash(h: Code, d: Code): Code {
    Xor(h, d) * 0x0000_0100_0000_01B3
  }

  /** A hexadecimal digit as a word. */
  function Nibble(n: nat): Code
    requires n < 16
  {
    if n < 8 then
      if n < 4 then if n < 2 then if n == 0 then 0 else 1 else if n == 2 then 2 else 3
      else if n < 6 then if n == 4 then 4 else 5 else if n == 6 then 6 else 7
    else
      if n < 12 then if n < 10 then if n == 8 then 8 else 9 else if n == 10 then 10 else 11
      else if n < 14 then if n == 12 then 12 else 13 else if n == 14 then 14 else 15
  }

  function Join(high: Code, low: Code): Code {
    16 * high + low
  }

  /** A byte as a word, digit by digit: the solver is slow at turning numbers into words. */
  function ByteCode(b: Byte): Code {
    Join(Nibble(b / 16), Nibble(b % 16))
  }

  function BufferCode(kind: Code, data: Bytes): Code {
    if data == [] then Hash(OFFSET, kind) else Hash(BufferCode(kind, data[..|data| - 1]), ByteCode(data[|data| - 1]))
  }

  function ArrayCode(es: seq<Code>): Code {
    if es == [] then Hash(0, ARRAY_TYPE) else Hash(ArrayCode(es[..|es| - 1]), es[|es| - 1])
  }

  /** The exclusive or over pairs of a name and a value. */
  function PairsCode(kv: seq<Code>): Code {
    if |kv| < 2 then 0 else Xor(Hash(kv[0], kv[1]), PairsCode(kv[2..]))
  }

  function ObjectCode(kv: seq<Code>): Code {
    Xor(Hash(0, OBJECT_TYPE), PairsCode(kv))
  }

  /** The code of null, true, false, a number or a string. */
  function ScalarCode(numbers: Numbers, e: Event): Code
    requires IsScalar(e)
  {
    match e
    case Null => BufferCode(NULL_TYPE, [])
    case Bool(b) => BufferCode(if b then TRUE_TYPE else FALSE_TYPE, [])
    case String(s) => BufferCode(STRING_TYPE, s)
    case _ => BufferCode(NUMBER_TYPE, numbers.Of(e))
  }

  class Hasher {
    const numbers: Numbers
    var stack: seq<Code>

    constructor (numbers: Numbers)
      ensures this.numbers == numbers && stack == []
    {
      this.numbers := numbers;
      stack := [];
    }

    method WriteBuffer(kind: Code, data: Bytes)
      modifies this
      ensures stack == old(stack) + [BufferCode(kind, data)]
    {
      hide Hash, ByteCode;
      var h := Hash(OFFSET, kind);
      for i := 0 to |data|
        invariant h == BufferCode(kind, data[..i]) && stack == old(stack)
      {
        assert data[..i + 1][..i] == data[..i];
        h := Hash(h, ByteCode(data[i]));
      }
      assert data[..|data|] == data;
      stack := stack + [h];
    }

    method EndObject(memberCount: nat)
      requires |stack| >= 2 * memberCount
      modifies this
      ensures stack == Pop(old(stack), 2 * memberCount) + [ObjectCode(Top(old(stack), 2 * memberCount))]
    {
      hide Hash, Xor, ByteCode;
      var h := Hash(0, OBJECT_TYPE);
      var kv := Top(stack, 2 * memberCount);
      stack := Pop(stack, 2 * memberCount);
      for i := 0 to memberCount
        invariant Xor(h, PairsCode(kv[2 * i..])) == ObjectCode(kv)
        invariant stack == Pop(old(stack), 2 * memberCount)
      {
        assert kv[2 * i..][2..] == kv[2 * (i + 1)..];
        XorLaws(h, Hash(kv[2 * i], kv[2 * i + 1]), PairsCode(kv[2 * (i + 1)..]));
        h := Xor(h, Hash(kv[2 * i], kv[2 * i + 1]));
      }
      XorLaws(h, h, h);
      stack := stack + [h];
    }

    method EndArray(elementCount: nat)
      requires |stack| >= elementCount
      modifies this
      ensures stack == Pop(old(stack), elementCount) + [ArrayCode(Top(old(stack), elementCount))]
    {
      hide Hash, Xor, ByteCode;
      var h := Hash(0, ARRAY_TYPE);
      var es := Top(stack, elementCount);
      stack := Pop(stack, elementCount);
      for i := 0 to elementCount
        invariant h == ArrayCode(es[..i]) && stack == Pop(old(stack), elementCount)
      {
        assert es[..i + 1][..i] == es[..i];
        h := Hash(h, es[i]);
      }
      assert es[..elementCount] == es;
      stack := stack + [h];
    }

    /** An event that finds its operands on the stack. */
    method Handle(e: Event)
      requires After(numbers, stack, e).Some?
      modifies this
      ensures After(numbers, old(stack), e) == Some(stack)
    {
      hide Hash, Xor, ByteCode, BufferCode, ArrayCode, PairsCode;
      match e
      case Null => WriteBuffer(NULL_TYPE, []);
      case Bool(b) => WriteBuffer(if b then TRUE_TYPE else FALSE_TYPE, []);
      case String(s) => WriteBuffer(STRING_TYPE, s);
      case Key(s) => WriteBuffer(STRING_TYPE, s);
      case StartObject =>
      case StartArray =>
      case EndObject(n) => EndObject(n);
      case EndArray(n) => EndArray(n);
      case _ => WriteBuffer(NUMBER_TYPE, numbers.Of(e));
    }

    /** The events of one value leave one code on a new stack, and no event finds too few. */
    method HashValue(ghost t: Tree, es: seq<Event>) returns (code: Code)
      requires stack == [] && WellFormed(t) && es == TreeEvents(t)
      modifies this
      ensures stack == [code] && code == CodeOf(numbers, t)
    {
      hide CodeOf, TreeEvents, Hash, Xor, ByteCode, ObjectCode, ArrayCode, ScalarCode;
      OneCodePerValue(numbers, [], t);
      assert es[0..] == es && [] + [CodeOf(numbers, t)] == [CodeOf(numbers, t)];
      for i := 0 to |es|
        invariant AfterAll(numbers, stack, es[i..]) == Some([CodeOf(numbers, t)])
      {
        assert es[i..][0] == es[i] && es[i..][1..] == es[i + 1..];
        Handle(es[i]);
      }
      code := stack[0];
    }
  }

  // ------------------------------------------------------------ one code for each finished value

  function Top(stack: seq<Code>, n: nat): seq<Code>
    requires n <= |stack|
  {
    stack[|stack| - n..]
  }

  function Pop(stack: seq<Code>, n: nat): seq<Code>
    requires n <= |stack|
  {
    stack[..|stack| - n]
  }

  /** The stack after an event; None where it would pop what is not there. */
  function After(numbers: Numbers, stack: seq<Code>, e: Event): Option<seq<Code>> {
    match e
    case StartObject => Some(stack)
    case StartArray => Some(stack)
    case Key(s) => Some(stack + [BufferCode(STRING_TYPE, s)])
    case EndObject(n) =>
      if |stack| < 2 * n then None
      else Some(Pop(stack, 2 * n) + [ObjectCode(Top(stack, 2 * n))])
    case EndArray(n) =>
      if |stack| < n then None else Some(Pop(stack, n) + [ArrayCode(Top(stack, n))])
    case _ => Some(stack + [ScalarCode(numbers, e)])
  }

  function AfterAll(numbers: Numbers, stack: seq<Code>, es: seq<Event>): Option<seq<Code>>
    decreases |es|
  {
    if es == [] then Some(stack)
    else match After(numbers, stack, es[0])
      case None => None
      case Some(next) => AfterAll(numbers, next, es[1..])
  }

  /** The code of a value, told from its structure. */
  function CodeOf(numbers: Numbers, t: Tree): Code
    requires WellFormed(t)
    decreases t, 1
  {
    match t
    case Leaf(e) => ScalarCode(numbers, e)
    case Arr(ts) => ArrayCode(seq(|ts|, i requires 0 <= i < |ts| => CodeOf(numbers, ts[i])))
    case Obj(ms) => Xor(Hash(0, OBJECT_TYPE), MembersCode(numbers, ms))
  }

  /** The exclusive or over the members. */
  function MembersCode(numbers: Numbers, ms: seq<TreeMember>): Code
    requires AllMembersWellFormed(ms)
    decreases ms, 0
  {
    if ms == [] then 0 else Xor(MemberCode(numbers, ms[0]), MembersCode(numbers, ms[1..]))
  }

  function MemberCode(numbers: Numbers, m: TreeMember): Code
    requires WellFormed(m.tree)
    decreases m, 2
  {
    Hash(BufferCode(STRING_TYPE, m.name), CodeOf(numbers, m.tree))
  }

  function MemberCodes(numbers: Numbers, ms: seq<TreeMember>): (kv: seq<Code>)
    requires AllMembersWellFormed(ms)
    ensures |kv| == 2 * |ms|
  {
    if ms == [] then []
    else [BufferCode(STRING_TYPE, ms[0].name), CodeOf(numbers, ms[0].tree)] + MemberCodes(numbers, ms[1..])
  }

  function ElementCodes(numbers: Numbers, ts: seq<Tree>): (cs: seq<Code>)
    requires AllWellFormed(ts)
    ensures |cs| == |ts|
  {
    seq(|ts|, i requires 0 <= i < |ts| => CodeOf(numbers, ts[i]))
  }

  lemma {:induction false} AfterBoth(numbers: Numbers, stack: seq<Code>, es: seq<Event>, fs: seq<Event>)
    ensures AfterAll(numbers, stack, es + fs)
            == match AfterAll(numbers, stack, es) case None => None case Some(s) => AfterAll(numbers, s, fs)
    decreases |es|
  {
    hide After;
    if es == [] {
      assert es + fs == fs;
    } else {
      assert (es + fs)[0] == es[0] && (es + fs)[1..] == es[1..] + fs;
      var next := After(numbers, stack, es[0]);
      if next.Some? {
        AfterBoth(numbers, next.value, es[1..], fs);
      }
    }
  }

  lemma {:induction false} AfterOne(numbers: Numbers, stack: seq<Code>, e: Event)
    ensures AfterAll(numbers, stack, [e]) == After(numbers, stack, e)
  {
    hide After;
    assert [e][1..] == [];
  }

  /** The events of a value push its code and touch nothing below; in particular no pop finds too few codes. */
  lemma {:induction false} OneCodePerValue(numbers: Numbers, stack: seq<Code>, t: Tree)
    requires WellFormed(t)
    ensures AfterAll(numbers, stack, TreeEvents(t)) == Some(stack + [CodeOf(numbers, t)])
    decreases t, 1
  {
    hide Hash, Xor, ByteCode, AfterAll, ArrayCode, BufferCode, ScalarCode, PairsCode;
    match t
    case Leaf(e) =>
      AfterOne(numbers, stack, e);
    case Arr(ts) => OneCodePerArray(numbers, stack, ts);
    case Obj(ms) => OneCodePerObject(numbers, stack, ms);
  }

  lemma {:induction false} OneCodePerArray(numbers: Numbers, stack: seq<Code>, ts: seq<Tree>)
    requires WellFormed(Arr(ts))
    ensures AfterAll(numbers, stack, TreeEvents(Arr(ts))) == Some(stack + [CodeOf(numbers, Arr(ts))])
    decreases Arr(ts), 0
  {
    hide Hash, Xor, ByteCode, AfterAll, ArrayCode, BufferCode, ScalarCode, PairsCode;
    var cs := ElementCodes(numbers, ts);
    AfterOne(numbers, stack, StartArray);
    OneCodePerElement(numbers, stack, ts);
    AfterOne(numbers, stack + cs, EndArray(|ts|));
    AfterBoth(numbers, stack, [StartArray], ElemEvents(ts));
    AfterBoth(numbers, stack, [StartArray] + ElemEvents(ts), [EndArray(|ts|)]);
    TopAndPop(stack, cs);
  }

  lemma {:induction false} OneCodePerObject(numbers: Numbers, stack: seq<Code>, ms: seq<TreeMember>)
    requires WellFormed(Obj(ms))
    ensures AfterAll(numbers, stack, TreeEvents(Obj(ms))) == Some(stack + [CodeOf(numbers, Obj(ms))])
    decreases Obj(ms), 0
  {
    hide Hash, Xor, ByteCode, AfterAll, ArrayCode, BufferCode, ScalarCode, PairsCode;
    var kv := MemberCodes(numbers, ms);
    AfterOne(numbers, stack, StartObject);
    TwoCodesPerMember(numbers, stack, ms);
    AfterOne(numbers, stack + kv, EndObject(|ms|));
    AfterBoth(numbers, stack, [StartObject], MemberEvents(ms));
    AfterBoth(numbers, stack, [StartObject] + MemberEvents(ms), [EndObject(|ms|)]);
    TopAndPop(stack, kv);
    MembersInPairs(numbers, ms);
  }

  lemma {:induction false} TopAndPop(stack: seq<Code>, cs: seq<Code>)
    ensures Top(stack + cs, |cs|) == cs && Pop(stack + cs, |cs|) == stack
  {
  }

  lemma {:induction false} MembersInPairs(numbers: Numbers, ms: seq<TreeMember>)
    requires AllMembersWellFormed(ms)
    ensures PairsCode(MemberCodes(numbers, ms)) == MembersCode(numbers, ms)
  {
    hide Hash, Xor, ByteCode, CodeOf, BufferCode;
    if ms != [] {
      MembersInPairs(numbers, ms[1..]);
      assert MemberCodes(numbers, ms)[2..] == MemberCodes(numbers, ms[1..]);
    }
  }

  lemma {:induction false} OneCodePerElement(numbers: Numbers, stack: seq<Code>, ts: seq<Tree>)
    requires AllWellFormed(ts)
    ensures AfterAll(numbers, stack, ElemEvents(ts)) == Some(stack + ElementCodes(numbers, ts))
    decreases ts, 0
  {
    hide CodeOf, After, ArrayCode, BufferCode;
    if ts == [] {
      assert stack + ElementCodes(numbers, ts) == stack;
    } else {
      var first := stack + [CodeOf(numbers, ts[0])];
      OneCodePerValue(numbers, stack, ts[0]);
      OneCodePerElement(numbers, first, ts[1..]);
      AfterBoth(numbers, stack, TreeEvents(ts[0]), ElemEvents(ts[1..]));
      assert first + ElementCodes(numbers, ts[1..]) == stack + ElementCodes(numbers, ts);
    }
  }

  lemma {:induction false} TwoCodesPerMember(numbers: Numbers, stack: seq<Code>, ms: seq<TreeMember>)
    requires AllMembersWellFormed(ms)
    ensures AfterAll(numbers, stack, MemberEvents(ms)) == Some(stack + MemberCodes(numbers, ms))
    decreases ms, 0
  {
    hide BufferCode, CodeOf;
    if ms == [] {
      assert stack + MemberCodes(numbers, ms) == stack;
    } else {
      var name := stack + [BufferCode(STRING_TYPE, ms[0].name)];
      var first := name + [CodeOf(numbers, ms[0].tree)];
      AfterOne(numbers, stack, Key(ms[0].name));
      OneCodePerValue(numbers, name, ms[0].tree);
      TwoCodesPerMember(numbers, first, ms[1..]);
      AfterBoth(numbers, stack, [Key(ms[0].name)], TreeEvents(ms[0].tree));
      AfterBoth(numbers, stack, [Key(ms[0].name)] + TreeEvents(ms[0].tree), MemberEvents(ms[1..]));
      assert first + MemberCodes(numbers, ms[1..]) == stack + MemberCodes(numbers, ms);
    }
  }

  // ------------------------------------------------------------ the order of members

  /** What is left without the `k`-th. */
  function Without<T>(ms: seq<T>, k: nat): seq<T>
    requires k < |ms|
  {
    ms[..k] + ms[k + 1..]
  }

  /** The same value but for the order of members, at any depth, and the types of its integers. */
  ghost predicate Similar(t: Tree, u: Tree)
    requires WellFormed(t) && WellFormed(u)
    decreases t, 1
  {
    match t
    case Leaf(e) => u.Leaf? && ScalarValue(e) == ScalarValue(u.e)
    case Arr(ts) => u.Arr? && |ts| == |u.elems| && forall i :: 0 <= i < |ts| ==> Similar(ts[i], u.elems[i])
    case Obj(ms) => u.Obj? && Rearranged(ms, u.members)
  }

  /** The first member is similar to some member of the other list, and so on with what remains of both. */
  ghost predicate Rearranged(ms: seq<TreeMember>, ns: seq<TreeMember>)
    requires AllMembersWellFormed(ms)
    requires AllMembersWellFormed(ns)
    decreases ms, 0
  {
    if ms == [] then ns == []
    else exists k :: 0 <= k < |ns| && ns[k].name == ms[0].name && Similar(ms[0].tree, ns[k].tree)
                     && Rearranged(ms[1..], Without(ns, k))
  }

  lemma {:induction false} TakeOut(numbers: Numbers, ms: seq<TreeMember>, k: nat)
    requires k < |ms| && AllMembersWellFormed(ms)
    ensures MembersCode(numbers, ms) == Xor(MemberCode(numbers, ms[k]), MembersCode(numbers, Without(ms, k)))
  {
    hide MemberCode, CodeOf, Hash, Xor;
    var rest := Without(ms, k);
    if k == 0 {
      assert rest == ms[1..];
    } else {
      TakeOut(numbers, ms[1..], k - 1);
      assert rest[1..] == Without(ms[1..], k - 1);
      XorLaws(MemberCode(numbers, ms[0]), MemberCode(numbers, ms[k]), MembersCode(numbers, rest[1..]));
    }
  }

  /** Values that differ only in the order of members, at any depth, have the same code. */
  lemma {:induction false} OrderDoesNotMatter(numbers: Numbers, t: Tree, u: Tree)
    requires WellFormed(t) && WellFormed(u) && Similar(t, u)
    ensures CodeOf(numbers, t) == CodeOf(numbers, u)
    decreases t, 1
  {
    hide Hash, Xor, ByteCode, BufferCode;
    match t
    case Leaf(e) =>
    case Arr(ts) =>
      forall i | 0 <= i < |ts| ensures CodeOf(numbers, ts[i]) == CodeOf(numbers, u.elems[i]) {
        OrderDoesNotMatter(numbers, ts[i], u.elems[i]);
      }
      assert ElementCodes(numbers, ts) == ElementCodes(numbers, u.elems);
    case Obj(ms) =>
      OrderOfMembersDoesNotMatter(numbers, ms, u.members);
  }

  lemma {:induction false} OrderOfMembersDoesNotMatter(numbers: Numbers, ms: seq<TreeMember>, ns: seq<TreeMember>)
    requires AllMembersWellFormed(ms)
    requires AllMembersWellFormed(ns)
    requires Rearranged(ms, ns)
    ensures MembersCode(numbers, ms) == MembersCode(numbers, ns)
    decreases ms, 0
  {
    hide Hash, Xor, ByteCode, BufferCode, CodeOf;
    if ms != [] {
      var k :| 0 <= k < |ns| && ns[k].name == ms[0].name && Similar(ms[0].tree, ns[k].tree)
               && Rearranged(ms[1..], Without(ns, k));
      OrderDoesNotMatter(numbers, ms[0].tree, ns[k].tree);
      OrderOfMembersDoesNotMatter(numbers, ms[1..], Without(ns, k));
      TakeOut(numbers, ns, k);
    }
  }

  // ------------------------------------------------------------ what shows in a code

  ghost predicate IsProduct(p: Code, x: Code) {
    p == x * 0x0000_0100_0000_01B3
  }

  ghost predicate Same(x: Code, y: Code) {
    x == y
  }

  /** The prime is odd. */
  lemma {:induction false} PrimeCancels(p: Code, x: Code, y: Code)
    requires p == x * 0x0000_0100_0000_01B3 == y * 0x0000_0100_0000_01B3
    ensures x == y
  {
  }

  lemma {:induction false} OneFactor(p: Code, x: Code, y: Code)
    requires IsProduct(p, x) && IsProduct(p, y)
    ensures Same(x, y)
  {
    PrimeCancels(p, x, y);
  }

  lemma {:induction false} HashIsProduct(h: Code, d: Code)
    ensures IsProduct(Hash(h, d), Xor(h, d))
  {
    hide Xor;
  }

  lemma {:induction false} XorCancels(a: Code, b: Code, c: Code)
    ensures Xor(a, b) == Xor(a, c) <==> b == c
    ensures Xor(b, a) == Xor(c, a) <==> b == c
  {
  }

  /** No round loses anything: neither of what was hashed before nor of what it takes in. */
  lemma {:induction false} RoundKeepsAll(h: Code, g: Code, d: Code, e: Code)
    ensures Hash(h, d) == Hash(h, e) <==> d == e
    ensures Hash(h, d) == Hash(g, d) <==> h == g
  {
    hide Hash, Xor, IsProduct;
    XorCancels(h, d, e);
    XorCancels(d, h, g);
    HashIsProduct(h, d);
    HashIsProduct(h, e);
    HashIsProduct(g, d);
    if Hash(h, d) == Hash(h, e) {
      OneFactor(Hash(h, d), Xor(h, d), Xor(h, e));
    }
    if Hash(h, d) == Hash(g, d) {
      OneFactor(Hash(h, d), Xor(h, d), Xor(g, d));
    }
  }

  lemma {:induction false} NibbleIsInjective(m: nat, n: nat)
    requires m < 16 && n < 16
    ensures Nibble(m) < 16 && (Nibble(m) == Nibble(n) <==> m == n)
  {
  }

  lemma {:induction false} JoinIsInjective(h: Code, l: Code, high: Code, low: Code)
    requires h < 16 && l < 16 && high < 16 && low < 16
    ensures Join(h, l) == Join(high, low) <==> h == high && l == low
  {
  }

  lemma {:induction false} ByteCodeIsInjective(a: Byte, b: Byte)
    ensures ByteCode(a) == ByteCode(b) <==> a == b
  {
    hide Join, Nibble;
    NibbleIsInjective(a / 16, b / 16);
    NibbleIsInjective(b / 16, a / 16);
    NibbleIsInjective(a % 16, b % 16);
    NibbleIsInjective(b % 16, a % 16);
    JoinIsInjective(Nibble(a / 16), Nibble(a % 16), Nibble(b / 16), Nibble(b % 16));
  }

  /** Changing one byte changes the code of a buffer, and so does another kind of value. */
  lemma {:induction false} BufferShowsByte(kind: Code, s: Bytes, k: nat, b: Byte)
    requires k < |s|
    ensures BufferCode(kind, s[k := b]) == BufferCode(kind, s) <==> b == s[k]
    decreases |s|
  {
    hide Hash, ByteCode;
    var t, n := s[k := b], |s| - 1;
    RoundKeepsAll(BufferCode(kind, s[..n]), BufferCode(kind, t[..n]), ByteCode(s[n]), ByteCode(t[n]));
    if k == n {
      assert t[..n] == s[..n];
      ByteCodeIsInjective(b, s[k]);
    } else {
      assert t[..n] == s[..n][k := b];
      BufferShowsByte(kind, s[..n], k, b);
    }
  }

  lemma {:induction false} BufferShowsKind(kind: Code, other: Code, s: Bytes)
    ensures BufferCode(kind, s) == BufferCode(other, s) <==> kind == other
    decreases |s|
  {
    hide Hash, ByteCode;
    if s == [] {
      RoundKeepsAll(OFFSET, OFFSET, kind, other);
    } else {
      var n := |s| - 1;
      BufferShowsKind(kind, other, s[..n]);
      RoundKeepsAll(BufferCode(kind, s[..n]), BufferCode(other, s[..n]), ByteCode(s[n]), 0);
    }
  }

  lemma {:induction false} ArrayShowsElement(es: seq<Code>, k: nat, c: Code)
    requires k < |es|
    ensures ArrayCode(es[k := c]) == ArrayCode(es) <==> c == es[k]
    decreases |es|
  {
    hide Hash;
    var fs, n := es[k := c], |es| - 1;
    RoundKeepsAll(ArrayCode(es[..n]), ArrayCode(fs[..n]), es[n], fs[n]);
    if k == n {
      assert fs[..n] == es[..n];
    } else {
      assert fs[..n] == es[..n][k := c];
      ArrayShowsElement(es[..n], k, c);
    }
  }

  lemma {:induction false} ObjectShowsMember(numbers: Numbers, ms: seq<TreeMember>, k: nat, m: TreeMember)
    requires k < |ms| && AllMembersWellFormed(ms) && WellFormed(m.tree)
    ensures AllMembersWellFormed(ms[k := m])
    ensures MembersCode(numbers, ms[k := m]) == MembersCode(numbers, ms) <==> MemberCode(numbers, m) == MemberCode(numbers, ms[k])
  {
    hide Hash, Xor, MemberCode, MembersCode;
    TakeOut(numbers, ms, k);
    TakeOut(numbers, ms[k := m], k);
    assert Without(ms[k := m], k) == Without(ms, k);
    XorCancels(MembersCode(numbers, Without(ms, k)), MemberCode(numbers, m), MemberCode(numbers, ms[k]));
  }

  /** What the element or member numbers in `path` lead to. */
  function Inside(t: Tree, path: seq<nat>): Option<Tree>
    decreases |path|
  {
    if path == [] then Some(t)
    else match t
      case Arr(ts) => if path[0] < |ts| then Inside(ts[path[0]], path[1..]) else None
      case Obj(ms) => if path[0] < |ms| then Inside(ms[path[0]].tree, path[1..]) else None
      case Leaf(_) => None
  }

  /** `t` with `u` in that place. */
  function Exchanged(t: Tree, path: seq<nat>, u: Tree): Tree
    requires Inside(t, path).Some?
    decreases |path|
  {
    if path == [] then u
    else match t
      case Arr(ts) => Arr(ts[path[0] := Exchanged(ts[path[0]], path[1..], u)])
      case Obj(ms) => Obj(ms[path[0] := ms[path[0]].(tree := Exchanged(ms[path[0]].tree, path[1..], u))])
  }

  /** One change anywhere in a value, at any depth: the code of the whole is another one if and only if the code of
      the part that is changed is. */
  lemma {:induction false} ChangeShows(numbers: Numbers, t: Tree, path: seq<nat>, u: Tree)
    requires WellFormed(t) && WellFormed(u) && Inside(t, path).Some?
    ensures WellFormed(Inside(t, path).value) && WellFormed(Exchanged(t, path, u))
    ensures CodeOf(numbers, Exchanged(t, path, u)) == CodeOf(numbers, t)
            <==> CodeOf(numbers, u) == CodeOf(numbers, Inside(t, path).value)
    decreases |path|
  {
    hide Hash, Xor, ArrayCode, BufferCode, MembersCode, CodeOf;
    if path != [] {
      var k := path[0];
      match t
      case Arr(ts) =>
        ChangeShows(numbers, ts[k], path[1..], u);
        ElementShows(numbers, ts, k, Exchanged(ts[k], path[1..], u));
      case Obj(ms) =>
        ChangeShows(numbers, ms[k].tree, path[1..], u);
        MemberShows(numbers, ms, k, Exchanged(ms[k].tree, path[1..], u));
    }
  }

  lemma {:induction false} ElementShows(numbers: Numbers, ts: seq<Tree>, k: nat, v: Tree)
    requires k < |ts| && AllWellFormed(ts) && WellFormed(v)
    ensures CodeOf(numbers, Arr(ts[k := v])) == CodeOf(numbers, Arr(ts)) <==> CodeOf(numbers, v) == CodeOf(numbers, ts[k])
  {
    hide ArrayCode;
    ArrayShowsElement(ElementCodes(numbers, ts), k, CodeOf(numbers, v));
    assert ElementCodes(numbers, ts[k := v]) == ElementCodes(numbers, ts)[k := CodeOf(numbers, v)];
  }

  lemma {:induction false} MemberShows(numbers: Numbers, ms: seq<TreeMember>, k: nat, v: Tree)
    requires k < |ms| && AllMembersWellFormed(ms) && WellFormed(v)
    ensures CodeOf(numbers, Obj(ms[k := ms[k].(tree := v)])) == CodeOf(numbers, Obj(ms)) <==> CodeOf(numbers, v) == CodeOf(numbers, ms[k].tree)
  {
    hide Hash, Xor, BufferCode, MembersCode;
    var m := ms[k].(tree := v);
    ObjectShowsMember(numbers, ms, k, m);
    XorCancels(Hash(0, OBJECT_TYPE), MembersCode(numbers, ms[k := m]), MembersCode(numbers, ms));
    RoundKeepsAll(BufferCode(STRING_TYPE, m.name), 0, CodeOf(numbers, v), CodeOf(numbers, ms[k].tree));
  }

  /** Another name shows as well, if its code is another one. */
  lemma {:induction false} NameShows(numbers: Numbers, ms: seq<TreeMember>, k: nat, name: Bytes)
    requires k < |ms| && AllMembersWellFormed(ms)
    ensures var ns := ms[k := ms[k].(name := name)];
            && AllMembersWellFormed(ns)
            && (CodeOf(numbers, Obj(ns)) == CodeOf(numbers, Obj(ms))
                <==> BufferCode(STRING_TYPE, name) == BufferCode(STRING_TYPE, ms[k].name))
  {
    hide Hash, Xor, BufferCode, MembersCode;
    var m := ms[k].(name := name);
    ObjectShowsMember(numbers, ms, k, m);
    XorCancels(Hash(0, OBJECT_TYPE), MembersCode(numbers, ms[k := m]), MembersCode(numbers, ms));
    RoundKeepsAll(BufferCode(STRING_TYPE, name), BufferCode(STRING_TYPE, ms[k].name), CodeOf(numbers, m.tree), 0);
  }

  /** Null, true and false differ, and so do strings of the same length that differ in one byte. */
  lemma {:induction false} ScalarsShow(numbers: Numbers, s: Bytes, k: nat, b: Byte)
    requires k < |s| && b != s[k]
    ensures CodeOf(numbers, Leaf(String(s))) != CodeOf(numbers, Leaf(String(s[k := b])))
    ensures CodeOf(numbers, Leaf(Null)) != CodeOf(numbers, Leaf(Bool(true)))
    ensures CodeOf(numbers, Leaf(Null)) != CodeOf(numbers, Leaf(Bool(false)))
    ensures CodeOf(numbers, Leaf(Bool(true))) != CodeOf(numbers, Leaf(Bool(false)))
    ensures CodeOf(numbers, Leaf(String([]))) != CodeOf(numbers, Leaf(Null))
  {
    hide Hash, ByteCode;
    BufferShowsByte(STRING_TYPE, s, k, b);
    BufferShowsKind(NULL_TYPE, TRUE_TYPE, []);
    BufferShowsKind(NULL_TYPE, FALSE_TYPE, []);
    BufferShowsKind(TRUE_TYPE, FALSE_TYPE, []);
    BufferShowsKind(STRING_TYPE, NULL_TYPE, []);
  }

  /** The codes of null, false, true, "a", [null] and {"a": null}, in numbers. */
  lemma {:induction false} CodesInNumbers(numbers: Numbers)
    ensures CodeOf(numbers, Leaf(Null)) == 0x789E_9D39_8D40_976C
    ensures CodeOf(numbers, Leaf(Bool(false))) == 0x789E_9E39_8D40_991F
    ensures CodeOf(numbers, Leaf(Bool(true))) == 0x789E_9F39_8D40_9AD2
    ensures CodeOf(numbers, Leaf(String([0x61]))) == 0x3612_41CB_04B8_6AF6
    ensures CodeOf(numbers, Arr([Leaf(Null)])) == 0x360F_FCCB_04B7_72E0
    ensures CodeOf(numbers, Obj([TreeMember([0x61], Leaf(Null))])) == 0x7259_0920_7216_E9B7
  {
    var a: Bytes, code := [0x61], CodeOf(numbers, Leaf(Null));
    assert a[..0] == [] && ByteCode(0x61) == 0x61;
    assert BufferCode(STRING_TYPE, a) == Hash(BufferCode(STRING_TYPE, []), 0x61);
    assert ElementCodes(numbers, [Leaf(Null)]) == [code] && [code][..0] == [];
    assert ArrayCode([code]) == Hash(ArrayCode([]), code);
    var m := TreeMember(a, Leaf(Null));
    assert MemberCode(numbers, m) == Hash(0x3612_41CB_04B8_6AF6, 0x789E_9D39_8D40_976C);
    assert MembersCode(numbers, [m]) == Xor(MemberCode(numbers, m), 0) by { assert [m][1..] == []; }
  }

  /** The price of the exclusive or: a member that is there twice does not show in the code at all. */
  lemma {:induction false} TwiceIsNever(numbers: Numbers, ms: seq<TreeMember>, m: TreeMember)
    requires WellFormed(m.tree) && AllMembersWellFormed(ms)
    ensures CodeOf(numbers, Obj([m, m] + ms)) == CodeOf(numbers, Obj(ms))
  {
    hide Hash, Xor, MemberCode;
    var two := [m, m] + ms;
    assert two[1..] == [m] + ms && two[1..][1..] == ms;
    assert MembersCode(numbers, two) == Xor(MemberCode(numbers, m), MembersCode(numbers, two[1..]));
    XorLaws(MemberCode(numbers, m), MemberCode(numbers, m), MembersCode(numbers, ms));
  }
}
