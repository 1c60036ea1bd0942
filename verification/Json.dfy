/**
 The vocabulary shared by the JSON components: bytes, handler events, event trees
 (what a well-nested run of events stands for) and document values.
 */
module Json {
  type Byte = b: int | 0 <= b < 256
  type Bytes = seq<Byte>

  const NUL: Byte := 0x00
  const QUOTE: Byte := 0x22
  const BACKSLASH: Byte := 0x5C
  const SOLIDUS: Byte := 0x2F
  const COMMA: Byte := 0x2C
  const COLON: Byte := 0x3A
  const LBRACKET: Byte := 0x5B
  const RBRACKET: Byte := 0x5D
  const LBRACE: Byte := 0x7B
  const RBRACE: Byte := 0x7D
  const MINUS: Byte := 0x2D
  const PLUS: Byte := 0x2B
  const DOT: Byte := 0x2E
  const LOWER_B: Byte := 0x62
  const LOWER_E: Byte := 0x65
  const UPPER_E: Byte := 0x45
  const LOWER_F: Byte := 0x66
  const LOWER_N: Byte := 0x6E
  const LOWER_R: Byte := 0x72
  const LOWER_T: Byte := 0x74
  const LOWER_U: Byte := 0x75
  const DIGIT_0: Byte := 0x30

  const NULL_TAIL: Bytes := [0x75, 0x6C, 0x6C]
  const TRUE_TAIL: Bytes := [0x72, 0x75, 0x65]
  const FALSE_TAIL: Bytes := [0x61, 0x6C, 0x73, 0x65]

  /** The calls a handler can receive. A double carries the text it was read from: its conversion to a
      floating-point number is not modelled. */
  datatype Event =
    | Null
    | Bool(b: bool)
    | Int(i: int)
    | Uint(i: int)
    | Int64(i: int)
    | Uint64(i: int)
    | Double(lexeme: Bytes)
    | String(s: Bytes)
    | Key(s: Bytes)
    | StartObject
    | EndObject(count: nat)
    | StartArray
    | EndArray(count: nat)

  /** A document value; the numeric flags of an integer are a function of its value (see `Document`). */
  datatype Value =
    | VNull
    | VBool(b: bool)
    | VInt(n: int)
    | VDouble(lexeme: Bytes)
    | VString(s: Bytes)
    | VArray(elems: seq<Value>)
    | VObject(members: seq<Member>)

  datatype Member = Member(name: Bytes, value: Value)

  /** A well-nested run of events. */
  datatype Tree =
    | Leaf(e: Event)
    | Arr(elems: seq<Tree>)
    | Obj(members: seq<TreeMember>)

  datatype TreeMember = TreeMember(name: Bytes, tree: Tree)

  /** Events that are a whole value by themselves. */
  predicate IsScalar(e: Event) {
    e.Null? || e.Bool? || e.Int? || e.Uint? || e.Int64? || e.Uint64? || e.Double? || e.String?
  }

  predicate WellFormed(t: Tree) {
    match t
    case Leaf(e) => IsScalar(e)
    case Arr(ts) => forall i :: 0 <= i < |ts| ==> WellFormed(ts[i])
    case Obj(ms) => forall i :: 0 <= i < |ms| ==> WellFormed(ms[i].tree)
  }

  function TreeEvents(t: Tree): seq<Event>
    decreases t, 1
  {
    match t
    case Leaf(e) => [e]
    case Arr(ts) => [StartArray] + ElemEvents(ts) + [EndArray(|ts|)]
    case Obj(ms) => [StartObject] + MemberEvents(ms) + [EndObject(|ms|)]
  }

  function ElemEvents(ts: seq<Tree>): seq<Event>
    decreases ts, 0
  {
    if ts == [] then [] else TreeEvents(ts[0]) + ElemEvents(ts[1..])
  }

  function MemberEvents(ms: seq<TreeMember>): seq<Event>
    decreases ms, 0
  {
    if ms == [] then [] else [Key(ms[0].name)] + TreeEvents(ms[0].tree) + MemberEvents(ms[1..])
  }

  function ToValue(t: Tree): Value
    requires WellFormed(t)
  {
    match t
    case Leaf(e) => ScalarValue(e)
    case Arr(ts) => VArray(seq(|ts|, i requires 0 <= i < |ts| => ToValue(ts[i])))
    case Obj(ms) => VObject(seq(|ms|, i requires 0 <= i < |ms| => Member(ms[i].name, ToValue(ms[i].tree))))
  }

  function ScalarValue(e: Event): Value
    requires IsScalar(e)
  {
    match e
    case Null => VNull
    case Bool(b) => VBool(b)
    case Double(l) => VDouble(l)
    case String(s) => VString(s)
    case _ => VInt(e.i)
  }

  /** Appending one more element appends its events. */
  lemma {:induction false} ElemEventsAppend(ts: seq<Tree>, t: Tree)
    ensures ElemEvents(ts + [t]) == ElemEvents(ts) + TreeEvents(t)
  {
    if ts == [] {
      assert [t][1..] == [];
    } else {
      ElemEventsAppend(ts[1..], t);
      assert (ts + [t])[1..] == ts[1..] + [t];
    }
  }

  lemma {:induction false} MemberEventsAppend(ms: seq<TreeMember>, m: TreeMember)
    ensures MemberEvents(ms + [m]) == MemberEvents(ms) + [Key(m.name)] + TreeEvents(m.tree)
  {
    if ms == [] {
      assert [m][1..] == [];
    } else {
      MemberEventsAppend(ms[1..], m);
      assert (ms + [m])[1..] == ms[1..] + [m];
    }
  }
}
