/** Reading what was printed gives the value back. */
module RoundTrip {
  import opened Options
  import opened Json
  import opened Encodings
  import opened ReaderSpec
  import opened Decimals
  import opened Nesting
  import opened Document
  import opened Writer
  import opened Printing
  import opened Grammar
  import opened JsonTexts

  // ------------------------------------------------------------ strings and integers

  /** How the writer writes a byte. */
  function PieceOf(c: Byte): Piece {
    if EscapeChar(c) == 0 then Plain(c)
    else if EscapeChar(c) == LOWER_U then Coded(c, [[0x30, 0x30, HexDigit(c / 16), HexDigit(c % 16)]])
    else Short(if c == 0x22 then 0 else if c == 0x5C then 1 else if c == 0x08 then 3 else if c == 0x0C then 4
               else if c == 0x0A then 5 else if c == 0x0D then 6 else 7)
  }

  lemma {:induction false} ControlIsCoded(c: Byte)
    requires EscapeChar(c) == LOWER_U
    ensures c < 0x20 && EncodeUtf16(c) == [c] && EncodeUtf8(c) == [c] && Spells([0x30, 0x30, HexDigit(c / 16), HexDigit(c % 16)], c)
  {
    var n: int := c;
    assert n / 4096 == 0 && n / 256 % 16 == 0;
  }

  lemma {:induction false} PieceOfByte(c: Byte)
    ensures IsPiece(PieceOf(c)) && PieceText(PieceOf(c)) == EscapeByte(c) && PieceBytes(PieceOf(c)) == [c]
  {
    if EscapeChar(c) == LOWER_U {
      ControlIsCoded(c);
    }
  }

  function PiecesOf(s: Bytes): (xs: seq<Piece>)
    ensures ArePieces(xs)
  {
    if s == [] then [] else PieceOfByte(s[0]); [PieceOf(s[0])] + PiecesOf(s[1..])
  }

  lemma {:induction false} PiecesOfString(s: Bytes)
    ensures PiecesText(PiecesOf(s)) == Escape(s) && PiecesBytes(PiecesOf(s)) == s
    ensures NameText(PiecesOf(s)) == StringText(s)
  {
    hide PieceOf, EscapeByte, PieceText, PieceBytes, IsPiece;
    if s != [] {
      PieceOfByte(s[0]);
      PiecesOfString(s[1..]);
      assert PiecesOf(s)[1..] == PiecesOf(s[1..]);
    }
    Assoc([QUOTE], Escape(s), [QUOTE]);
  }

  /** Reading a string undoes its escaping, whatever the bytes. */
  lemma {:induction false} ReadsString(input: Input, p: nat, s: Bytes)
    requires At(input, p, StringText(s))
    ensures input.Peek(p) == QUOTE && input.ScanString(p + 1, []) == StrOk(p + |StringText(s)|, s)
  {
    hide Input.ScanString, PiecesText, Escape;
    PiecesOfString(s);
    AtByte(input, p, QUOTE, PiecesText(PiecesOf(s)) + [QUOTE]);
    ReadsPieces(input, p + 1, PiecesOf(s), []);
    assert [] + s == s;
  }

  function NumeralOf(i: int): Numeral {
    Numeral(i < 0, DecimalText(if i < 0 then 0 - i else i), None, None)
  }

  lemma {:induction false} NumeralOfInteger(i: int)
    requires IsInt64(i) || IsUint64(i)
    ensures var n := NumeralOf(i);
            && IsNumeral(n) && NumeralText(n) == IntText(i)
            && IsEventOf(n, IntegerEvent(i < 0, if i < 0 then 0 - i else i)) && forall overflows :: !IsTooBig(n, overflows)
  {
    hide DecimalText, Decimal;
    var n := NumeralOf(i);
    assert n.integer + (FractionText(n) + ExponentText(n)) == n.integer;
  }

  lemma {:induction false} SettledIs(n: Numeral, overflows: Bytes -> bool, p: nat, end: nat, r: NumberScan)
    requires IsNumeral(n) && Settles(n, overflows, p, end, r) && !IsTooBig(n, overflows)
    ensures r.NumOk? && r.end == end && IsEventOf(n, r.event)
  {
  }

  /** A decimal integer is read as the integer it was printed from, in the smallest type that holds it. */
  lemma {:induction false} ReadsInteger(input: Input, p: nat, i: int)
    requires At(input, p, IntText(i)) && EndsNumber(input.Peek(p + |IntText(i)|)) && (IsInt64(i) || IsUint64(i))
    ensures input.NumberAt(p) == NumOk(p + |IntText(i)|, IntegerEvent(i < 0, if i < 0 then 0 - i else i))
  {
    hide At, EndsNumber, Settles, IsNumeral, NumeralText, IsEventOf, IsTooBig, Input.NumberAt, NumeralOf, Delimits, IntegerEvent;
    NumeralOfInteger(i);
    AtFits(input, p, IntText(i));
    AnyDelimits(NumeralOf(i), input.Peek(p + |IntText(i)|));
    ReadsNumeral(input, p, NumeralOf(i));
    SettledIs(NumeralOf(i), input.overflows, p, p + |IntText(i)|, input.NumberAt(p));
    OneEventOf(NumeralOf(i), input.NumberAt(p).event, IntegerEvent(i < 0, if i < 0 then 0 - i else i));
  }

  // ------------------------------------------------------------ whole values

  /** The event that reading the text of a scalar event sends. */
  function ReadEvent(e: Event): Event
    requires IsScalar(e)
  {
    if e.Int? || e.Uint? || e.Int64? || e.Uint64? then IntegerEvent(e.i < 0, if e.i < 0 then 0 - e.i else e.i) else e
  }

  function ReadTree(t: Tree): (u: Tree)
    requires WellFormed(t)
  {
    match t
    case Leaf(e) => Leaf(ReadEvent(e))
    case Arr(ts) => Arr(seq(|ts|, i requires 0 <= i < |ts| => ReadTree(ts[i])))
    case Obj(ms) => Obj(seq(|ms|, i requires 0 <= i < |ms| => TreeMember(ms[i].name, ReadTree(ms[i].tree))))
  }

  predicate PrintableEvent(e: Event) {
    IsScalar(e) && !e.Double? && (e.Int? || e.Uint? || e.Int64? || e.Uint64? ==> IsInt64(e.i) || IsUint64(e.i))
  }

  /** Values without doubles, whose integers fit 64 bits. */
  predicate Printable(t: Tree) {
    match t
    case Leaf(e) => PrintableEvent(e)
    case Arr(ts) => forall i :: 0 <= i < |ts| ==> Printable(ts[i])
    case Obj(ms) => forall i :: 0 <= i < |ms| ==> Printable(ms[i].tree)
  }

  function ReadTrees(ts: seq<Tree>): seq<Tree>
    requires AllWellFormed(ts)
  {
    seq(|ts|, i requires 0 <= i < |ts| => ReadTree(ts[i]))
  }

  function ReadMembers(ms: seq<TreeMember>): seq<TreeMember>
    requires AllMembersWellFormed(ms)
  {
    seq(|ms|, i requires 0 <= i < |ms| => TreeMember(ms[i].name, ReadTree(ms[i].tree)))
  }

  // What is printed, as syntax: without white space.

  function SyntaxOf(t: Tree): Syntax
    requires WellFormed(t) && Printable(t)
    decreases t, 1
  {
    match t
    case Leaf(e) =>
      if e.Null? || e.Bool? then Word(e)
      else if e.String? then Quoted(PiecesOf(e.s))
      else Number(NumeralOf(e.i), ReadEvent(e))
    case Arr(ts) => Array([], ItemsOf(ts))
    case Obj(ms) => Object([], EntriesOf(ms))
  }

  function ItemsOf(ts: seq<Tree>): Items
    requires PrintableTrees(ts)
    decreases ts, 0
  {
    if ts == [] then NoItem else Item(SyntaxOf(ts[0]), [], if |ts| == 1 then [] else [COMMA], ItemsOf(ts[1..]))
  }

  function EntriesOf(ms: seq<TreeMember>): Entries
    requires PrintableMembers(ms)
    decreases ms, 0
  {
    if ms == [] then NoEntry
    else Entry(PiecesOf(ms[0].name), [], [], SyntaxOf(ms[0].tree), [], if |ms| == 1 then [] else [COMMA], EntriesOf(ms[1..]))
  }

  predicate PrintableTrees(ts: seq<Tree>) {
    AllWellFormed(ts) && forall i :: 0 <= i < |ts| ==> Printable(ts[i])
  }

  predicate PrintableMembers(ms: seq<TreeMember>) {
    AllMembersWellFormed(ms) && forall i :: 0 <= i < |ms| ==> Printable(ms[i].tree)
  }

  /** What is printed is the text of a syntax that stands for what is read. */
  lemma {:induction false} PrintedIsSyntax(input: Input, t: Tree)
    requires WellFormed(t) && Printable(t)
    ensures IsSyntax(input, SyntaxOf(t)) && SyntaxText(input, SyntaxOf(t)) == TreeText(t) && TreeOf(input, SyntaxOf(t)) == ReadTree(t)
    decreases t, 1
  {
    match t
    case Leaf(e) => ScalarIsSyntax(input, e);
    case Arr(ts) => ArrayIsSyntax(input, ts);
    case Obj(ms) => ObjectIsSyntax(input, ms);
  }

  lemma {:induction false} ScalarIsSyntax(input: Input, e: Event)
    requires PrintableEvent(e)
    ensures var s := SyntaxOf(Leaf(e));
            IsSyntax(input, s) && SyntaxText(input, s) == ScalarText(e) && TreeOf(input, s) == Leaf(ReadEvent(e))
  {
    hide NumeralText, IntText, StringText, NameText, IsEventOf, IsTooBig, IsNumeral, NumeralOf, PiecesOf;
    if e.String? {
      PiecesOfString(e.s);
    } else if !e.Null? && !e.Bool? {
      NumeralOfInteger(e.i);
    }
  }

  lemma {:induction false} ArrayIsSyntax(input: Input, ts: seq<Tree>)
    requires PrintableTrees(ts)
    ensures var s := SyntaxOf(Arr(ts));
            IsSyntax(input, s) && SyntaxText(input, s) == TreeText(Arr(ts)) && TreeOf(input, s) == ReadTree(Arr(ts))
    decreases ts, 3
  {
    ItemsAreSyntax(input, ts, 0);
    Assoc([LBRACKET], ElemsText(ts, 0), [RBRACKET]);
    assert [] + ItemsText(input, ItemsOf(ts)) == ItemsText(input, ItemsOf(ts));
  }

  lemma {:induction false} ItemsAreSyntax(input: Input, ts: seq<Tree>, n: nat)
    requires PrintableTrees(ts)
    ensures AreItems(input, ItemsOf(ts)) && ItemTrees(input, ItemsOf(ts)) == ReadTrees(ts)
    ensures ElemsText(ts, n) + [RBRACKET] == (if ts == [] || n == 0 then [] else [COMMA]) + ItemsText(input, ItemsOf(ts))
    decreases ts, 2
  {
    hide TreeText, SyntaxText, IsSyntax, TreeOf, ReadTree;
    if ts == [] {
      NoItems(input);
    } else {
      var rest := ts[1..];
      PrintedIsSyntax(input, ts[0]);
      ItemsAreSyntax(input, rest, n + 1);
      assert ReadTrees(ts) == [ReadTree(ts[0])] + ReadTrees(rest);
      FirstItem(input, ts);
      var comma := if n == 0 then [] else [COMMA];
      MemberThenMore(comma, TreeText(ts[0]), ElemsText(rest, n + 1), [RBRACKET], ItemsText(input, ItemsOf(ts)));
    }
  }

  lemma {:induction false} FirstItem(input: Input, ts: seq<Tree>)
    requires PrintableTrees(ts) && ts != [] && AreItems(input, ItemsOf(ts[1..]))
    requires var s := SyntaxOf(ts[0]);
             IsSyntax(input, s) && SyntaxText(input, s) == TreeText(ts[0]) && TreeOf(input, s) == ReadTree(ts[0])
    ensures AreItems(input, ItemsOf(ts)) && ItemTrees(input, ItemsOf(ts)) == [ReadTree(ts[0])] + ItemTrees(input, ItemsOf(ts[1..]))
    ensures ItemsText(input, ItemsOf(ts)) == TreeText(ts[0]) + ((if |ts| == 1 then [] else [COMMA]) + ItemsText(input, ItemsOf(ts[1..])))
  {
    hide TreeText, SyntaxText, IsSyntax, TreeOf, ReadTree, SyntaxOf;
    var rest := (if |ts| == 1 then [] else [COMMA]) + ItemsText(input, ItemsOf(ts[1..]));
    assert [] + rest == rest;
  }

  lemma {:induction false} ObjectIsSyntax(input: Input, ms: seq<TreeMember>)
    requires PrintableMembers(ms)
    ensures var s := SyntaxOf(Obj(ms));
            IsSyntax(input, s) && SyntaxText(input, s) == TreeText(Obj(ms)) && TreeOf(input, s) == ReadTree(Obj(ms))
    decreases ms, 3
  {
    EntriesAreSyntax(input, ms, 0);
    Assoc([LBRACE], MembersText(ms, 0), [RBRACE]);
    assert [] + EntriesText(input, EntriesOf(ms)) == EntriesText(input, EntriesOf(ms));
  }

  lemma {:induction false} FirstReadMember(ms: seq<TreeMember>)
    requires AllMembersWellFormed(ms)
    ensures ms == [] ==> ReadMembers(ms) == []
    ensures ms != [] ==> ReadMembers(ms) == [TreeMember(ms[0].name, ReadTree(ms[0].tree))] + ReadMembers(ms[1..])
  {
    hide ReadTree;
  }

  lemma {:induction false} EntriesAreSyntax(input: Input, ms: seq<TreeMember>, n: nat)
    requires PrintableMembers(ms)
    ensures AreEntries(input, EntriesOf(ms)) && EntryTrees(input, EntriesOf(ms)) == ReadMembers(ms)
    ensures MembersText(ms, n) + [RBRACE] == (if ms == [] || n == 0 then [] else [COMMA]) + EntriesText(input, EntriesOf(ms))
    decreases ms, 2
  {
    hide MemberText, ReadMembers, EntryTrees, AreEntries, TreeText, SyntaxText, IsSyntax, TreeOf, ReadTree;
    if ms == [] {
      NoEntries(input);
      FirstReadMember(ms);
    } else {
      var rest := ms[1..];
      PrintedIsSyntax(input, ms[0].tree);
      EntriesAreSyntax(input, rest, n + 1);
      FirstEntry(input, ms);
      FirstReadMember(ms);
      var comma := if n == 0 then [] else [COMMA];
      MemberThenMore(comma, MemberText(ms[0]), MembersText(rest, n + 1), [RBRACE], EntriesText(input, EntriesOf(ms)));
    }
  }

  lemma {:induction false} MemberThenMore(comma: Bytes, member: Bytes, more: Bytes, close: Bytes, all: Bytes)
    requires member + (more + close) == all
    ensures comma + member + more + close == comma + all
  {
    assert comma + member + more + close == comma + (member + (more + close));
  }

  lemma {:induction false} FirstEntry(input: Input, ms: seq<TreeMember>)
    requires PrintableMembers(ms) && ms != [] && AreEntries(input, EntriesOf(ms[1..]))
    requires var s := SyntaxOf(ms[0].tree);
             IsSyntax(input, s) && SyntaxText(input, s) == TreeText(ms[0].tree) && TreeOf(input, s) == ReadTree(ms[0].tree)
    ensures AreEntries(input, EntriesOf(ms))
    ensures EntryTrees(input, EntriesOf(ms)) == [TreeMember(ms[0].name, ReadTree(ms[0].tree))] + EntryTrees(input, EntriesOf(ms[1..]))
    ensures EntriesText(input, EntriesOf(ms))
            == MemberText(ms[0]) + ((if |ms| == 1 then [] else [COMMA]) + EntriesText(input, EntriesOf(ms[1..])))
  {
    hide TreeText, SyntaxText, IsSyntax, TreeOf, ReadTree, SyntaxOf, StringText, NameText, EntriesText;
    PiecesOfString(ms[0].name);
    var entries := EntriesOf(ms);
    EntryFolds(input, entries);
    EntryUnfolds(input, entries);
    EntryTextUnfolds(input, entries);
    var value := TreeText(ms[0].tree);
    var rest := entries.separator + EntriesText(input, entries.rest);
    assert [] + rest == rest;
    JoinMember(StringText(ms[0].name), [COLON], value, rest);
  }

  lemma {:induction false} EntryTextUnfolds(input: Input, entries: Entries)
    requires entries.Entry? && AreEntries(input, entries) && entries.afterName == [] && entries.beforeValue == []
    ensures AfterNameText(input, entries)
            == [COLON] + (SyntaxText(input, entries.value) + (entries.after + (entries.separator + EntriesText(input, entries.rest))))
  {
    hide SyntaxText, EntriesText;
    var v := EntryText(input, entries);
    assert [] + v == v;
    assert [] + ([COLON] + v) == [COLON] + v;
  }

  lemma {:induction false} JoinMember(name: Bytes, colon: Bytes, value: Bytes, rest: Bytes)
    ensures name + (colon + (value + rest)) == (name + colon + value) + rest
  {
  }

  /** The text of a value is read as that value. */
  lemma {:induction false} ReadsTree(input: Input, p: nat, t: Tree, evs: seq<Event>)
    requires Accepting(input) && WellFormed(t) && Printable(t)
    requires At(input, p, TreeText(t)) && EndsNumber(input.Peek(p + |TreeText(t)|))
    ensures input.Val(p, evs) == Ok(p + |TreeText(t)|, evs + TreeEvents(ReadTree(t)))
  {
    hide Input.Val, TreeText, SyntaxText, IsSyntax, TreeOf, ReadTree, SyntaxOf, At, EndsNumber, Delimited;
    PrintedIsSyntax(input, t);
    EndDelimits(input, SyntaxOf(t), p);
    ReadsSyntax(input, p, SyntaxOf(t), evs);
  }

  // ------------------------------------------------------------ the round trip

  /** Values as trees, without doubles and with 64-bit integers. */
  lemma {:induction false} AcceptTreeIsPrintable(v: Value)
    requires Representable(v) && HasNoDouble(v)
    ensures Printable(AcceptTree(v))
  {
    match v
    case VArray(vs) =>
      forall i | 0 <= i < |vs| ensures Printable(AcceptTree(vs[i])) {
        AcceptTreeIsPrintable(vs[i]);
      }
    case VObject(ms) =>
      forall i | 0 <= i < |ms| ensures Printable(AcceptTree(ms[i].value)) {
        AcceptTreeIsPrintable(ms[i].value);
      }
    case _ =>
  }

  /** What is read stands for the same value as what was printed: only the integer events differ, and their
      numbers do not. */
  lemma {:induction false} ReadTreeStandsForSameValue(t: Tree)
    requires WellFormed(t) && Printable(t)
    ensures WellFormed(ReadTree(t)) && ToValue(ReadTree(t)) == ToValue(t)
  {
    match t
    case Leaf(e) =>
    case Arr(ts) =>
      forall i | 0 <= i < |ts| ensures WellFormed(ReadTree(ts[i])) && ToValue(ReadTree(ts[i])) == ToValue(ts[i]) {
        ReadTreeStandsForSameValue(ts[i]);
      }
      assert ToValue(ReadTree(t)).elems == ToValue(t).elems;
    case Obj(ms) =>
      forall i | 0 <= i < |ms|
        ensures WellFormed(ReadTree(ms[i].tree)) && ToValue(ReadTree(ms[i].tree)) == ToValue(ms[i].tree)
      {
        ReadTreeStandsForSameValue(ms[i].tree);
      }
      assert ToValue(ReadTree(t)).members == ToValue(t).members;
  }

  lemma {:induction false} ReadsWhole(input: Input, t: Tree)
    requires WellFormed(t) && Printable(t) && input.src == TreeText(t) && Accepting(input)
    ensures input.Document(0, []) == Ok(|input.src|, TreeEvents(ReadTree(t)))
  {
    hide TreeText, TreeOf, ReadTree, TreeEvents, Input.Val, IsSyntax, SyntaxText, SyntaxOf;
    PrintedIsSyntax(input, t);
    FirstOfSyntax(input, SyntaxOf(t));
    ReadsTree(input, 0, t, []);
    assert [] + TreeEvents(ReadTree(t)) == TreeEvents(ReadTree(t));
  }

  /** Printing a value and parsing the text gives the value back: the parse takes the whole text, and its events
      build exactly the value, whatever the strings hold and however deep it is, under every flag setting. */
  lemma {:induction false} PrintThenParse(v: Value, input: Input)
    requires Representable(v) && HasNoDouble(v) && input.src == ValueText(v) && Accepting(input)
    ensures var r := input.Document(0, []); r.Ok? && r.pos == |input.src| && HandleAll([], r.evs) == Some([v])
  {
    hide TreeText, TreeOf, ReadTree, HandleAll, ToValue, TreeEvents, Input.Val, Input.SkipWs, At;
    var t := AcceptTree(v);
    AcceptTreeStandsForValue(v);
    AcceptTreeIsPrintable(v);
    ReadsWhole(input, t);
    ReadTreeStandsForSameValue(t);
    ReplayPushesValue([], ReadTree(t));
    assert [] + [v] == [v];
  }

  /** Two values that print alike are the same value. */
  lemma {:induction false} PrintingIsInjective(v: Value, w: Value)
    requires Representable(v) && HasNoDouble(v) && Representable(w) && HasNoDouble(w)
    requires ValueText(v) == ValueText(w)
    ensures v == w
  {
    var input := Input(ValueText(v), false, false, es => true, text => false);
    PrintThenParse(v, input);
    PrintThenParse(w, input);
  }

  // ------------------------------------------------------------ nothing shorter stands for the same

  lemma {:induction false} EscapeJoined(a: Bytes, b: Bytes)
    ensures Escape(a + b) == Escape(a) + Escape(b)
    decreases |a|
  {
    hide EscapeByte;
    if a == [] {
      assert a + b == b;
    } else {
      assert (a + b)[1..] == a[1..] + b;
      EscapeJoined(a[1..], b);
      Assoc(EscapeByte(a[0]), Escape(a[1..]), Escape(b));
    }
  }

  lemma {:induction false} EscapeOne(c: Byte)
    ensures Escape([c]) == EscapeByte(c)
    ensures |EscapeByte(c)| == if c >= 0x20 && c != QUOTE && c != BACKSLASH then 1 else if c in ESCAPED_BYTES then 2 else 6
    ensures |EscapeByte(c)| == 6 ==> EscapeByte(c) == [BACKSLASH, LOWER_U, 0x30, 0x30, UPPER_DIGITS[c / 16], UPPER_DIGITS[c % 16]]
  {
    assert [c][1..] == [] && EscapeByte(c) + [] == EscapeByte(c);
    assert ESCAPED_BYTES[0] == QUOTE && ESCAPED_BYTES[1] == BACKSLASH && ESCAPED_BYTES[3] == 0x08 && ESCAPED_BYTES[4] == 0x0C;
    assert ESCAPED_BYTES[5] == 0x0A && ESCAPED_BYTES[6] == 0x0D && ESCAPED_BYTES[7] == 0x09;
  }

  lemma {:induction false} HighBytesEscape(s: Bytes)
    requires forall i :: 0 <= i < |s| ==> s[i] >= 0x80
    ensures |Escape(s)| == |s|
    decreases |s|
  {
    if s != [] {
      EscapeOne(s[0]);
      HighBytesEscape(s[1..]);
    }
  }

  lemma {:induction false} PieceIsNoShorter(x: Piece)
    requires IsPiece(x)
    ensures |Escape(PieceBytes(x))| <= |PieceText(x)|
  {
    hide EscapeByte, Escape, IsHexDigitOf;
    match x
    case Plain(c) => EscapeOne(c);
    case Short(k) => EscapeOne(ESCAPED_BYTES[k]);
    case Coded(c, _) =>
      assert |PieceText(x)| >= 6;
      if c <= 0x7F {
        EscapeOne(c);
      } else {
        HighBytesEscape(EncodeUtf8(c));
      }
  }

  lemma {:induction false} PiecesAreNoShorter(xs: seq<Piece>)
    requires ArePieces(xs)
    ensures |Escape(PiecesBytes(xs))| <= |PiecesText(xs)|
    decreases |xs|
  {
    hide IsPiece, PieceText, PieceBytes, Escape;
    if xs == [] {
      NothingEscaped();
    } else {
      EscapeJoined(PieceBytes(xs[0]), PiecesBytes(xs[1..]));
      PieceIsNoShorter(xs[0]);
      PiecesAreNoShorter(xs[1..]);
    }
  }

  lemma {:induction false} NothingEscaped()
    ensures Escape([]) == []
  {
  }

  lemma {:induction false} DigitsAreNoShorter(s: Bytes)
    requires IsDigits(s)
    ensures |DecimalText(Decimal(s))| <= |s|
  {
    hide DecimalText, Decimal, Pow10;
    var t := DecimalText(Decimal(s));
    DecimalBound(s);
    if |t| > 1 {
      DecimalAtLeast(t);
      if |t| - 1 >= |s| {
        Pow10Monotone(|s|, |t| - 1);
      }
    }
  }

  lemma {:induction false} NumeralIsNoShorter(n: Numeral, e: Event)
    requires IsNumeral(n) && IsEventOf(n, e)
    ensures IsScalar(e) && |ScalarText(e)| <= |NumeralText(n)|
  {
    hide DecimalText, Decimal;
    if IsIntegral(n) {
      DigitsAreNoShorter(n.integer);
    }
  }

  /** What is printed for a value is no longer than any text that is read as it: no white space, no zeros, no escapes that
      are not needed. */
  lemma {:induction false} PrintsShortest(input: Input, s: Syntax)
    requires IsSyntax(input, s)
    ensures |TreeText(TreeOf(input, s))| <= |SyntaxText(input, s)|
    decreases s, 1
  {
    match s
    case Word(e) =>
    case Number(n, e) => NumeralIsNoShorter(n, e);
    case Quoted(xs) => PiecesAreNoShorter(xs);
    case Array(_, items) => ItemsAreNoShorter(input, items, 0);
    case Object(_, entries) => EntriesAreNoShorter(input, entries, 0);
  }

  lemma {:induction false} ItemsAreNoShorter(input: Input, items: Items, n: nat)
    requires AreItems(input, items)
    ensures |ElemsText(ItemTrees(input, items), n)| + 1 <= |ItemsText(input, items)| + if n > 0 && items.Item? then 1 else 0
    decreases items, 0
  {
    hide TreeText, SyntaxText, TreeOf;
    if items.Item? {
      PrintsShortest(input, items.value);
      ItemsAreNoShorter(input, items.rest, n + 1);
      ItemUnfolds(input, items);
      assert ItemTrees(input, items)[1..] == ItemTrees(input, items.rest);
    }
  }

  lemma {:induction false} EntriesAreNoShorter(input: Input, entries: Entries, n: nat)
    requires AreEntries(input, entries)
    ensures |MembersText(EntryTrees(input, entries), n)| + 1 <= |EntriesText(input, entries)| + if n > 0 && entries.Entry? then 1 else 0
    decreases entries, 0
  {
    hide TreeText, SyntaxText, TreeOf, PiecesText, PiecesBytes, Escape;
    if entries.Entry? {
      PrintsShortest(input, entries.value);
      PiecesAreNoShorter(entries.name);
      EntriesAreNoShorter(input, entries.rest, n + 1);
      EntryUnfolds(input, entries);
      AfterNameLength(input, entries);
      EntryTextLength(input, entries);
      assert EntryTrees(input, entries)[1..] == EntryTrees(input, entries.rest);
    }
  }

  lemma {:induction false} EntryTextLength(input: Input, entries: Entries)
    requires entries.Entry? && AreEntries(input, entries)
    ensures |EntryText(input, entries)|
            == |SyntaxText(input, entries.value)| + |entries.after| + |entries.separator| + |EntriesText(input, entries.rest)|
  {
    hide SyntaxText, EntriesText;
  }
}
