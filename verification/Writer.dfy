/**
 The writer: separators by a stack of levels, escaped strings and decimal integers; and the text that it
 prints for a whole value.
 */
module Writer {
  import opened Options
  import opened Json
  import opened ReaderSpec
  import opened Decimals
  import opened Nesting
  import opened Document

  datatype Level = Level(valueCount: nat, inArray: bool)

  datatype State = State(os: Bytes, levels: seq<Level>, hasRoot: bool)

  // ------------------------------------------------------------ tokens

  /** The character behind the backslash for a byte that must be escaped, 0 for one that need not be. */
  function EscapeChar(c: Byte): Byte {
    if c == 0x08 then LOWER_B
    else if c == 0x09 then LOWER_T
    else if c == 0x0A then LOWER_N
    else if c == 0x0C then LOWER_F
    else if c == 0x0D then LOWER_R
    else if c < 0x20 then LOWER_U
    else if c == QUOTE then QUOTE
    else if c == BACKSLASH then BACKSLASH
    else 0
  }

  function HexDigit(n: nat): Byte
    requires n < 16
  {
    if n < 10 then 0x30 + n else 0x41 + (n - 10)
  }

  function EscapeByte(c: Byte): Bytes {
    var n: int := c;
    if EscapeChar(c) == 0 then [c]
    else if EscapeChar(c) == LOWER_U then [BACKSLASH, LOWER_U, 0x30, 0x30, HexDigit(n / 16), HexDigit(n % 16)]
    else [BACKSLASH, EscapeChar(c)]
  }

  function Escape(s: Bytes): Bytes {
    if s == [] then [] else EscapeByte(s[0]) + Escape(s[1..])
  }

  function StringText(s: Bytes): Bytes {
    [QUOTE] + Escape(s) + [QUOTE]
  }

  /** Decimal digits without leading zeros. */
  function DecimalText(n: nat): (s: Bytes)
    ensures s != [] && AllDigits(s) && Decimal(s) == n
    ensures s[0] == DIGIT_0 ==> n == 0 && s == [DIGIT_0]
  {
    if n < 10 then
      SingleDigit([0x30 + n], 0);
      assert [0x30 + n][0..1] == [0x30 + n];
      [0x30 + n]
    else
      DecimalAppend(DecimalText(n / 10), 0x30 + n % 10);
      DecimalText(n / 10) + [0x30 + n % 10]
  }

  function IntText(i: int): Bytes {
    if i < 0 then [MINUS] + DecimalText(-i) else DecimalText(i)
  }

  /** The text of an event that is a value or a name by itself; a double prints the text it carries. */
  function ScalarText(e: Event): Bytes
    requires IsScalar(e) || e.Key?
  {
    match e
    case Null => [LOWER_N] + NULL_TAIL
    case Bool(b) => if b then [LOWER_T] + TRUE_TAIL else [LOWER_F] + FALSE_TAIL
    case Double(l) => l
    case String(s) => StringText(s)
    case Key(s) => StringText(s)
    case _ => IntText(e.i)
  }

  // ------------------------------------------------------------ one event

  /** The separator in front of the next value or name. */
  function Separator(levels: seq<Level>): Bytes {
    if levels == [] then []
    else
      var top := levels[|levels| - 1];
      if top.valueCount == 0 then []
      else if top.inArray || top.valueCount % 2 == 0 then [COMMA]
      else [COLON]
  }

  /** Where a value may be written, `isString` telling whether it is a string: only names go where names must
      be, and a text has one root. */
  predicate CanPrefix(s: State, isString: bool) {
    if s.levels == [] then !s.hasRoot
    else var top := s.levels[|s.levels| - 1]; !top.inArray && top.valueCount % 2 == 0 ==> isString
  }

  function WithTop(levels: seq<Level>, top: Level): seq<Level>
    requires levels != []
  {
    levels[..|levels| - 1] + [top]
  }

  function Prefixed(s: State): State {
    if s.levels == [] then s.(hasRoot := true)
    else
      var top := s.levels[|s.levels| - 1];
      State(s.os + Separator(s.levels), WithTop(s.levels, top.(valueCount := top.valueCount + 1)), s.hasRoot)
  }

  function Put(s: State, text: Bytes): State {
    s.(os := s.os + text)
  }

  /** What one event writes; None where the source's assertions stop the program. */
  function Write(s: State, e: Event): Option<State> {
    match e
    case StartObject =>
      if !CanPrefix(s, false) then None
      else var p := Prefixed(s); Some(Put(p.(levels := p.levels + [Level(0, false)]), [LBRACE]))
    case StartArray =>
      if !CanPrefix(s, false) then None
      else var p := Prefixed(s); Some(Put(p.(levels := p.levels + [Level(0, true)]), [LBRACKET]))
    case EndObject(_) =>
      if s.levels == [] || s.levels[|s.levels| - 1].inArray || s.levels[|s.levels| - 1].valueCount % 2 != 0 then None
      else Some(Put(s.(levels := s.levels[..|s.levels| - 1]), [RBRACE]))
    case EndArray(_) =>
      if s.levels == [] || !s.levels[|s.levels| - 1].inArray then None
      else Some(Put(s.(levels := s.levels[..|s.levels| - 1]), [RBRACKET]))
    case _ =>
      if !CanPrefix(s, e.String? || e.Key?) then None else Some(Put(Prefixed(s), ScalarText(e)))
  }

  function WriteAll(s: State, es: seq<Event>): Option<State>
    decreases |es|
  {
    if es == [] then Some(s)
    else match Write(s, es[0])
      case None => None
      case Some(t) => WriteAll(t, es[1..])
  }

  lemma {:induction false} WriteAppended(s: State, es: seq<Event>, fs: seq<Event>)
    requires WriteAll(s, es).Some?
    ensures WriteAll(s, es + fs) == WriteAll(WriteAll(s, es).value, fs)
    decreases |es|
  {
    if es == [] {
      assert es + fs == fs;
    } else {
      assert (es + fs)[1..] == es[1..] + fs;
      WriteAppended(Write(s, es[0]).value, es[1..], fs);
    }
  }

  lemma {:induction false} WriteOne(s: State, e: Event)
    ensures WriteAll(s, [e]) == Write(s, e)
  {
    if Write(s, e).Some? {
      assert WriteAll(Write(s, e).value, [e][1..]) == Write(s, e);
    }
  }

  // ------------------------------------------------------------ whole values

  function TreeText(t: Tree): Bytes
    requires WellFormed(t)
    decreases t, 1
  {
    match t
    case Leaf(e) => ScalarText(e)
    case Arr(ts) => [LBRACKET] + ElemsText(ts, 0) + [RBRACKET]
    case Obj(ms) => [LBRACE] + MembersText(ms, 0) + [RBRACE]
  }

  /** The elements from the `n`-th on, separators included. */
  function ElemsText(ts: seq<Tree>, n: nat): Bytes
    requires AllWellFormed(ts)
    decreases ts, 0
  {
    if ts == [] then []
    else (if n == 0 then [] else [COMMA]) + TreeText(ts[0]) + ElemsText(ts[1..], n + 1)
  }

  function MembersText(ms: seq<TreeMember>, n: nat): Bytes
    requires AllMembersWellFormed(ms)
    decreases ms, 0
  {
    if ms == [] then []
    else (if n == 0 then [] else [COMMA]) + MemberText(ms[0]) + MembersText(ms[1..], n + 1)
  }

  function MemberText(m: TreeMember): Bytes
    requires WellFormed(m.tree)
    decreases m, 0
  {
    StringText(m.name) + [COLON] + TreeText(m.tree)
  }

  // Regrouping texts and levels.

  lemma {:induction false} Assoc(a: Bytes, b: Bytes, c: Bytes)
    ensures (a + b) + c == a + (b + c)
  {
  }

  lemma {:induction false} TopOf(levels: seq<Level>, a: Level, b: Level)
    ensures (levels + [a])[|levels|] == a && (levels + [a])[..|levels|] == levels
    ensures WithTop(levels + [a], b) == levels + [b]
  {
    assert (levels + [a])[..|levels|] == levels;
  }

  lemma {:induction false} SameTop(levels: seq<Level>)
    requires levels != []
    ensures WithTop(levels, levels[|levels| - 1]) == levels
  {
  }

  /** Writing one run of events and then another. */
  lemma {:induction false} ThenWrites(s: State, es: seq<Event>, p: State, fs: seq<Event>, q: State)
    requires WriteAll(s, es) == Some(p) && WriteAll(p, fs) == Some(q)
    ensures WriteAll(s, es + fs) == Some(q)
  {
    WriteAppended(s, es, fs);
  }

  /** Inside the bracket or brace that opens an array or object. */
  function Opened(s: State, inArray: bool): State {
    var open := Prefixed(s);
    State(open.os + [if inArray then LBRACKET else LBRACE], open.levels + [Level(0, inArray)], open.hasRoot)
  }

  /** An opening bracket, the text inside, and the closing bracket. */
  lemma {:induction false} WritesBracketed(s: State, inArray: bool, count: nat, es: seq<Event>, text: Bytes, values: nat)
    requires CanPrefix(s, false) && (inArray || values % 2 == 0)
    requires var p := Opened(s, inArray);
             WriteAll(p, es) == Some(State(p.os + text, WithTop(p.levels, Level(values, inArray)), p.hasRoot))
    ensures WriteAll(s, [if inArray then StartArray else StartObject] + es + [if inArray then EndArray(count) else EndObject(count)])
            == Some(Put(Prefixed(s), [if inArray then LBRACKET else LBRACE] + text + [if inArray then RBRACKET else RBRACE]))
  {
    var open, p := Prefixed(s), Opened(s, inArray);
    var start, end := if inArray then StartArray else StartObject, if inArray then EndArray(count) else EndObject(count);
    var q := State(p.os + text, WithTop(p.levels, Level(values, inArray)), p.hasRoot);
    WriteOne(s, start);
    ThenWrites(s, [start], p, es, q);
    TopOf(open.levels, Level(0, inArray), Level(values, inArray));
    TopOf(open.levels, Level(values, inArray), Level(0, inArray));
    WriteOne(q, end);
    var b, c := [if inArray then LBRACKET else LBRACE], [if inArray then RBRACKET else RBRACE];
    Assoc(open.os, b, text);
    Assoc(open.os, b + text, c);
    ThenWrites(s, [start] + es, q, [end], Put(open, b + text + c));
  }

  /** Writing the events of a value appends its text behind the separator its place asks for, and leaves the
      levels below as they were; no assertion of the writer fails on the way. */
  lemma {:induction false} WritesTreeText(s: State, t: Tree)
    requires WellFormed(t) && CanPrefix(s, false)
    ensures WriteAll(s, TreeEvents(t)) == Some(Put(Prefixed(s), TreeText(t)))
    decreases t, 1
  {
    hide WriteAll, ElemsText, MembersText, StringText;
    match t
    case Leaf(e) =>
      WriteOne(s, e);
    case Arr(ts) =>
      WritesElems(Opened(s, true), ts, 0);
      WritesBracketed(s, true, |ts|, ElemEvents(ts), ElemsText(ts, 0), |ts|);
    case Obj(ms) =>
      WritesMembers(Opened(s, false), ms, 0);
      WritesBracketed(s, false, |ms|, MemberEvents(ms), MembersText(ms, 0), 2 * |ms|);
  }

  /** In an array that has `n` elements already, behind some more. */
  function Elements(s: State, ts: seq<Tree>, n: nat): State
    requires AllWellFormed(ts) && s.levels != []
  {
    State(s.os + ElemsText(ts, n), WithTop(s.levels, Level(n + |ts|, true)), s.hasRoot)
  }

  /** In an object that has `n` members already, behind some more. */
  function Members(s: State, ms: seq<TreeMember>, n: nat): State
    requires AllMembersWellFormed(ms) && s.levels != []
  {
    State(s.os + MembersText(ms, n), WithTop(s.levels, Level(2 * (n + |ms|), false)), s.hasRoot)
  }

  /** In an object that has `n` members already, behind one more. */
  function WithMember(s: State, m: TreeMember, n: nat): State
    requires WellFormed(m.tree) && s.levels != []
  {
    State(s.os + ((if n == 0 then [] else [COMMA]) + MemberText(m)),
          WithTop(s.levels, Level(2 * (n + 1), false)), s.hasRoot)
  }

  lemma {:induction false} FirstElement(s: State, ts: seq<Tree>, n: nat)
    requires AllWellFormed(ts) && ts != [] && s.levels != [] && s.levels[|s.levels| - 1] == Level(n, true)
    ensures var p := Put(Prefixed(s), TreeText(ts[0]));
            p.levels[|p.levels| - 1] == Level(n + 1, true) && Elements(p, ts[1..], n + 1) == Elements(s, ts, n)
  {
    var comma := if n == 0 then [] else [COMMA];
    TopOf(s.levels[..|s.levels| - 1], Level(n + 1, true), Level(n + |ts|, true));
    Assoc(s.os, comma, TreeText(ts[0]));
    Assoc(s.os, comma + TreeText(ts[0]), ElemsText(ts[1..], n + 1));
  }

  lemma {:induction false} NoElements(s: State, n: nat)
    requires s.levels != [] && s.levels[|s.levels| - 1] == Level(n, true)
    ensures WriteAll(s, ElemEvents([])) == Some(Elements(s, [], n))
  {
    SameTop(s.levels);
    assert s.os + [] == s.os;
  }

  lemma {:induction false} WritesElems(s: State, ts: seq<Tree>, n: nat)
    requires AllWellFormed(ts) && s.levels != [] && s.levels[|s.levels| - 1] == Level(n, true)
    ensures WriteAll(s, ElemEvents(ts)) == Some(Elements(s, ts, n))
    decreases ts, 0
  {
    hide WriteAll, TreeText, ElemsText;
    if ts == [] {
      NoElements(s, n);
    } else {
      var p := Put(Prefixed(s), TreeText(ts[0]));
      WritesTreeText(s, ts[0]);
      FirstElement(s, ts, n);
      WritesElems(p, ts[1..], n + 1);
      ThenWrites(s, TreeEvents(ts[0]), p, ElemEvents(ts[1..]), Elements(s, ts, n));
    }
  }

  lemma {:induction false} FirstMember(s: State, ms: seq<TreeMember>, n: nat)
    requires AllMembersWellFormed(ms) && ms != [] && s.levels != []
    ensures var p := WithMember(s, ms[0], n);
            p.levels[|p.levels| - 1] == Level(2 * (n + 1), false) && Members(p, ms[1..], n + 1) == Members(s, ms, n)
  {
    var comma := if n == 0 then [] else [COMMA];
    TopOf(s.levels[..|s.levels| - 1], Level(2 * (n + 1), false), Level(2 * (n + |ms|), false));
    Assoc(s.os, comma + MemberText(ms[0]), MembersText(ms[1..], n + 1));
  }

  lemma {:induction false} WritesMembers(s: State, ms: seq<TreeMember>, n: nat)
    requires AllMembersWellFormed(ms) && s.levels != [] && s.levels[|s.levels| - 1] == Level(2 * n, false)
    ensures WriteAll(s, MemberEvents(ms)) == Some(Members(s, ms, n))
    decreases ms, 0
  {
    if ms == [] {
      SameTop(s.levels);
      assert s.os + [] == s.os;
    } else {
      var p := WithMember(s, ms[0], n);
      WritesMember(s, ms[0], n);
      FirstMember(s, ms, n);
      WritesMembers(p, ms[1..], n + 1);
      ThenWrites(s, [Key(ms[0].name)] + TreeEvents(ms[0].tree), p, MemberEvents(ms[1..]), Members(s, ms, n));
    }
  }

  lemma {:induction false} WritesMember(s: State, m: TreeMember, n: nat)
    requires WellFormed(m.tree) && s.levels != [] && s.levels[|s.levels| - 1] == Level(2 * n, false)
    ensures WriteAll(s, [Key(m.name)] + TreeEvents(m.tree)) == Some(WithMember(s, m, n))
    decreases m, 0
  {
    hide StringText, TreeText, TreeEvents;
    var key, name := Key(m.name), StringText(m.name);
    var k := Put(Prefixed(s), name);
    WriteOne(s, key);
    TopOf(s.levels[..|s.levels| - 1], Level(2 * n + 1, false), Level(2 * (n + 1), false));
    WritesTreeText(k, m.tree);
    KeyAndValue(s.os, if n == 0 then [] else [COMMA], name, TreeText(m.tree));
    ThenWrites(s, [key], k, TreeEvents(m.tree), WithMember(s, m, n));
  }

  lemma {:induction false} KeyAndValue(os: Bytes, comma: Bytes, name: Bytes, text: Bytes)
    ensures os + comma + name + [COLON] + text == os + (comma + (name + [COLON] + text))
  {
  }

  // ------------------------------------------------------------ the writer

  lemma {:induction false} NothingEscaped()
    ensures Escape([]) == []
  {
  }

  lemma {:induction false} EscapeAppended(s: Bytes, c: Byte)
    ensures Escape(s + [c]) == Escape(s) + EscapeByte(c)
  {
    if s == [] {
      assert [c][1..] == [];
    } else {
      assert (s + [c])[1..] == s[1..] + [c];
      EscapeAppended(s[1..], c);
    }
  }

  class JsonWriter {
    var os: Bytes
    var levels: seq<Level>
    var hasRoot: bool

    constructor ()
      ensures Now() == State([], [], false)
    {
      os, levels, hasRoot := [], [], false;
    }

    function Now(): State
      reads this
    {
      State(os, levels, hasRoot)
    }

    predicate IsComplete()
      reads this
    {
      hasRoot && levels == []
    }

    method Emit(text: Bytes)
      modifies this`os
      ensures os == old(os) + text
    {
      os := os + text;
    }

    method Prefix(ghost isString: bool)
      requires CanPrefix(Now(), isString)
      modifies this
      ensures Now() == Prefixed(old(Now()))
    {
      if levels != [] {
        var level := levels[|levels| - 1];
        if level.valueCount > 0 {
          if level.inArray {
            Emit([COMMA]);
          } else {
            Emit([if level.valueCount % 2 == 0 then COMMA else COLON]);
          }
        }
        levels := levels[|levels| - 1 := level.(valueCount := level.valueCount + 1)];
        assert levels == WithTop(old(levels), level.(valueCount := level.valueCount + 1));
      } else {
        hasRoot := true;
      }
    }

    /** A string between quotation marks, byte by byte. */
    method WriteString(s: Bytes)
      modifies this`os
      ensures os == old(os) + StringText(s)
    {
      hide EscapeByte, Escape;
      Emit([QUOTE]);
      assert Escape(s[..0]) == [] by { NothingEscaped(); }
      var i := 0;
      while i < |s|
        invariant 0 <= i <= |s| && os == old(os) + ([QUOTE] + Escape(s[..i]))
      {
        var c := s[i];
        WriteEscaped(c);
        EscapeAppended(s[..i], c);
        assert s[..i + 1] == s[..i] + [c];
        Assoc([QUOTE], Escape(s[..i]), EscapeByte(c));
        Assoc(old(os), [QUOTE] + Escape(s[..i]), EscapeByte(c));
        i := i + 1;
      }
      assert s[..i] == s;
      Emit([QUOTE]);
      Assoc(old(os), [QUOTE] + Escape(s), [QUOTE]);
    }

    /** One byte of a string. */
    method WriteEscaped(c: Byte)
      modifies this`os
      ensures os == old(os) + EscapeByte(c)
    {
      if EscapeChar(c) != 0 {
        Emit([BACKSLASH]);
        Emit([EscapeChar(c)]);
        if EscapeChar(c) == LOWER_U {
          var n: int := c;
          Emit([0x30]);
          Emit([0x30]);
          Emit([HexDigit(n / 16)]);
          Emit([HexDigit(n % 16)]);
        }
      } else {
        Emit([c]);
      }
    }

    /** A string or a name. */
    method StringOrKey(e: Event)
      requires (e.String? || e.Key?) && CanPrefix(Now(), true)
      modifies this
      ensures Some(Now()) == Write(old(Now()), e)
    {
      Prefix(true);
      WriteString(e.s);
    }

    /** null, true, false and the numbers. */
    method Scalar(e: Event)
      requires IsScalar(e) && !e.String? && CanPrefix(Now(), false)
      modifies this
      ensures Some(Now()) == Write(old(Now()), e)
    {
      Prefix(false);
      Emit(ScalarText(e));
    }

    method StartObject()
      requires CanPrefix(Now(), false)
      modifies this
      ensures Some(Now()) == Write(old(Now()), Event.StartObject)
    {
      Prefix(false);
      levels := levels + [Level(0, false)];
      Emit([LBRACE]);
    }

    method EndObject(memberCount: nat)
      requires Write(Now(), Event.EndObject(memberCount)).Some?
      modifies this
      ensures Some(Now()) == Write(old(Now()), Event.EndObject(memberCount))
    {
      levels := levels[..|levels| - 1];
      Emit([RBRACE]);
    }

    method StartArray()
      requires CanPrefix(Now(), false)
      modifies this
      ensures Some(Now()) == Write(old(Now()), Event.StartArray)
    {
      Prefix(false);
      levels := levels + [Level(0, true)];
      Emit([LBRACKET]);
    }

    method EndArray(elementCount: nat)
      requires Write(Now(), Event.EndArray(elementCount)).Some?
      modifies this
      ensures Some(Now()) == Write(old(Now()), Event.EndArray(elementCount))
    {
      levels := levels[..|levels| - 1];
      Emit([RBRACKET]);
    }
  }
}
