/** What the error of a parse tells: by the events that were sent before, and by what stands at the offset. */
module ParseErrors {
  import opened Options
  import opened Json
  import opened Encodings
  import opened ReaderSpec
  import opened Nesting
  import Decimals
  import opened Grammar
  import opened JsonTexts

  // ------------------------------------------------------------ where a parse is

  datatype Bracket = Square | Curly

  function Bracketed(open: seq<Bracket>, e: Event): seq<Bracket> {
    match e
    case StartArray => open + [Square]
    case StartObject => open + [Curly]
    case EndArray(_) => if open == [] then [] else open[..|open| - 1]
    case EndObject(_) => if open == [] then [] else open[..|open| - 1]
    case _ => open
  }

  /** The brackets that are open after more events, the outermost first. */
  function OpenAfter(open: seq<Bracket>, evs: seq<Event>): seq<Bracket>
    decreases |evs|
  {
    if evs == [] then open else OpenAfter(Bracketed(open, evs[0]), evs[1..])
  }

  predicate Inside(evs: seq<Event>, bracket: Bracket) {
    var open := OpenAfter([], evs); open != [] && open[|open| - 1] == bracket
  }

  predicate EndsWithKey(evs: seq<Event>) {
    evs != [] && evs[|evs| - 1].Key?
  }

  /** The last event ends a value. */
  predicate EndsWithValue(evs: seq<Event>) {
    evs != [] && (IsScalar(evs[|evs| - 1]) || evs[|evs| - 1].EndArray? || evs[|evs| - 1].EndObject?)
  }

  /** A value may come next: at the start, behind a name, or in an array. */
  predicate WantsValue(evs: seq<Event>) {
    evs == [] || EndsWithKey(evs) || Inside(evs, Square)
  }

  predicate WantsName(evs: seq<Event>) {
    Inside(evs, Curly) && !EndsWithKey(evs)
  }

  lemma {:induction false} OpenAfterBoth(open: seq<Bracket>, evs: seq<Event>, more: seq<Event>)
    ensures OpenAfter(open, evs + more) == OpenAfter(OpenAfter(open, evs), more)
    decreases |evs|
  {
    if evs == [] {
      assert evs + more == more;
    } else {
      assert (evs + more)[1..] == evs[1..] + more;
      OpenAfterBoth(Bracketed(open, evs[0]), evs[1..], more);
    }
  }

  lemma {:induction false} OpenAfterOne(open: seq<Bracket>, e: Event)
    ensures OpenAfter(open, [e]) == Bracketed(open, e)
  {
    assert [e][1..] == [];
  }

  lemma {:induction false} OpenAfterTree(open: seq<Bracket>, t: Tree)
    requires WellFormed(t)
    ensures OpenAfter(open, TreeEvents(t)) == open
    decreases t, 1
  {
    match t
    case Leaf(e) =>
      OpenAfterOne(open, e);
    case Arr(ts) =>
      OpenAfterBracketed(open, StartArray, ElemEvents(ts), EndArray(|ts|));
      OpenAfterElements(open + [Square], ts);
    case Obj(ms) =>
      OpenAfterBracketed(open, StartObject, MemberEvents(ms), EndObject(|ms|));
      OpenAfterMembers(open + [Curly], ms);
  }

  lemma {:induction false} OpenAfterBracketed(open: seq<Bracket>, start: Event, evs: seq<Event>, end: Event)
    requires (start.StartArray? || start.StartObject?) && (end.EndArray? || end.EndObject?)
    ensures OpenAfter(Bracketed(open, start), evs) == Bracketed(open, start) ==> OpenAfter(open, [start] + evs + [end]) == open
  {
    OpenAfterBoth(open, [start], evs);
    OpenAfterBoth(open, [start] + evs, [end]);
    OpenAfterOne(open, start);
    OpenAfterOne(Bracketed(open, start), end);
  }

  lemma {:induction false} OpenAfterElements(open: seq<Bracket>, ts: seq<Tree>)
    requires AllWellFormed(ts)
    ensures OpenAfter(open, ElemEvents(ts)) == open
    decreases ts, 0
  {
    if ts != [] {
      OpenAfterTree(open, ts[0]);
      OpenAfterBoth(open, TreeEvents(ts[0]), ElemEvents(ts[1..]));
      OpenAfterElements(open, ts[1..]);
    }
  }

  lemma {:induction false} OpenAfterMembers(open: seq<Bracket>, ms: seq<TreeMember>)
    requires AllMembersWellFormed(ms)
    ensures OpenAfter(open, MemberEvents(ms)) == open
    decreases ms, 0
  {
    if ms != [] {
      OpenAfterOne(open, Key(ms[0].name));
      OpenAfterTree(open, ms[0].tree);
      OpenAfterBoth(open, [Key(ms[0].name)], TreeEvents(ms[0].tree));
      OpenAfterBoth(open, [Key(ms[0].name)] + TreeEvents(ms[0].tree), MemberEvents(ms[1..]));
      OpenAfterMembers(open, ms[1..]);
    }
  }

  /** A whole value leaves the same brackets open. */
  lemma {:induction false} ValueAdded(evs: seq<Event>, t: Tree)
    requires WellFormed(t)
    ensures OpenAfter([], evs + TreeEvents(t)) == OpenAfter([], evs) && EndsWithValue(evs + TreeEvents(t))
  {
    OpenAfterBoth([], evs, TreeEvents(t));
    OpenAfterTree(OpenAfter([], evs), t);
    EndOfTree(t);
  }

  lemma {:induction false} EndOfTree(t: Tree)
    requires WellFormed(t)
    ensures EndsWithValue(TreeEvents(t))
  {
  }

  lemma {:induction false} Opened(evs: seq<Event>, bracket: Bracket)
    ensures var e := if bracket.Square? then StartArray else StartObject; Inside(evs + [e], bracket) && !EndsWithKey(evs + [e])
  {
    var e := if bracket.Square? then StartArray else StartObject;
    OpenAfterBoth([], evs, [e]);
    OpenAfterOne(OpenAfter([], evs), e);
  }

  lemma {:induction false} KeyAdded(evs: seq<Event>, name: Bytes, bracket: Bracket)
    requires Inside(evs, bracket)
    ensures Inside(evs + [Key(name)], bracket) && EndsWithKey(evs + [Key(name)])
  {
    OpenAfterBoth([], evs, [Key(name)]);
    OpenAfterOne(OpenAfter([], evs), Key(name));
  }

  // ------------------------------------------------------------ what errors tell

  /** Four hexadecimal digits with the value `u`. */
  predicate UnitAt(input: Input, p: nat, u: Unit16) {
    p + 4 <= |input.src| && Spells(input.src[p..p + 4], u)
  }

  predicate UnitIn(input: Input, p: nat, least: Unit16, most: Unit16) {
    exists u: Unit16 :: UnitAt(input, p, u) && least <= u <= most
  }

  predicate EscapeAt(input: Input, p: nat) {
    input.Peek(p) == BACKSLASH && input.Peek(p + 1) == LOWER_U
  }

  /** An escape of a high surrogate with another escape behind it. */
  predicate HighAt(input: Input, p: nat) {
    UnitIn(input, p + 2, 0xD800, 0xDBFF) && EscapeAt(input, p + 6)
  }

  /** A surrogate that is not the first of a pair: a low one, or a high one before anything but an escape of a low one. */
  predicate LoneSurrogateAt(input: Input, p: nat) {
    || UnitIn(input, p + 2, 0xDC00, 0xDFFF)
    || (UnitIn(input, p + 2, 0xD800, 0xDBFF) && !EscapeAt(input, p + 6))
    || (HighAt(input, p) && (UnitIn(input, p + 8, 0, 0xDBFF) || UnitIn(input, p + 8, 0xE000, 0xFFFF)))
  }

  predicate StringTells(input: Input, code: ErrorCode, p: nat) {
    var c := input.Peek(p);
    match code
    case StringMissQuotationMark => c == NUL
    case StringInvalidEncoding => 0 < c < 0x20
    case StringEscapeInvalid => c == BACKSLASH && input.Peek(p + 1) != LOWER_U && input.Peek(p + 1) !in ESCAPE_LETTERS
    case StringUnicodeEscapeInvalidHex =>
      EscapeAt(input, p) && (!UnitIn(input, p + 2, 0, 0xFFFF) || (HighAt(input, p) && !UnitIn(input, p + 8, 0, 0xFFFF)))
    case StringUnicodeSurrogateInvalid => EscapeAt(input, p) && LoneSurrogateAt(input, p)
    case _ => false
  }

  ghost predicate NumberTells(input: Input, code: ErrorCode, p: nat) {
    var c, before := input.Peek(p), if p > 0 then input.Peek(p - 1) else NUL;
    match code
    case ValueInvalid => !IsDigit(c) && (before == MINUS || (c != MINUS && c !in [LBRACE, LBRACKET, QUOTE, LOWER_N, LOWER_T, LOWER_F]))
    case NumberMissFraction => before == DOT && !IsDigit(c)
    case NumberMissExponent => before in [LOWER_E, UPPER_E, PLUS, MINUS] && !IsDigit(c)
    case NumberTooBig =>
      exists n :: IsNumeral(n) && At(input, p, NumeralText(n)) && Delimits(n, input.Peek(p + |NumeralText(n)|)) && IsTooBig(n, input.overflows)
    case _ => false
  }

  /** A word breaks off here. */
  predicate WordTells(input: Input, p: nat) {
    exists e, k: nat :: e in [Null, Bool(true), Bool(false)] && 0 < k <= p && BreaksOff(input, p, WordText(e), k)
  }

  predicate BreaksOff(input: Input, p: nat, word: Bytes, k: nat) {
    k < |word| && k <= p && At(input, p - k, word[..k]) && input.Peek(p) != word[k]
  }

  /** Where an event is sent: behind the token that it stands for, but a number in front of it, and a closing bracket in front
      of itself if a comma precedes it. */
  ghost predicate SentAt(input: Input, e: Event, p: nat) {
    var before := if p > 0 then input.Peek(p - 1) else NUL;
    match e
    case StartArray => before == LBRACKET
    case StartObject => before == LBRACE
    case EndArray(_) => before == RBRACKET || (input.trailingCommas && input.Peek(p) == RBRACKET)
    case EndObject(_) => before == RBRACE || (input.trailingCommas && input.Peek(p) == RBRACE)
    case String(_) => before == QUOTE
    case Key(_) => before == QUOTE
    case Null => WordBefore(input, e, p)
    case Bool(_) => WordBefore(input, e, p)
    case _ => exists n :: IsNumeral(n) && IsEventOf(n, e) && At(input, p, NumeralText(n))
  }

  predicate WordBefore(input: Input, e: Event, p: nat) {
    |WordText(e)| <= p && At(input, p - |WordText(e)|, WordText(e))
  }

  /** What each error tells about the place where the parse was and about the text there. */
  ghost predicate Tells(input: Input, code: ErrorCode, p: nat, evs: seq<Event>) {
    var c := input.Peek(p);
    match code
    case DocumentEmpty => evs == [] && c == NUL
    case DocumentRootNotSingular => EndsWithValue(evs) && OpenAfter([], evs) == [] && c != NUL && !IsSpace(c)
    case ObjectMissName => WantsName(evs) && c != QUOTE && !IsSpace(c)
    case ObjectMissColon => EndsWithKey(evs) && c != COLON && !IsSpace(c)
    case ObjectMissCommaOrCurlyBracket => Inside(evs, Curly) && EndsWithValue(evs) && c != COMMA && c != RBRACE && !IsSpace(c)
    case ArrayMissCommaOrSquareBracket => Inside(evs, Square) && EndsWithValue(evs) && c != COMMA && c != RBRACKET && !IsSpace(c)
    case Termination => evs != [] && !input.answer(evs) && SentAt(input, evs[|evs| - 1], p)
    case ValueInvalid => WantsValue(evs) && (NumberTells(input, code, p) || WordTells(input, p))
    case NumberTooBig => WantsValue(evs) && NumberTells(input, code, p)
    case NumberMissFraction => WantsValue(evs) && NumberTells(input, code, p)
    case NumberMissExponent => WantsValue(evs) && NumberTells(input, code, p)
    case _ => (WantsValue(evs) || WantsName(evs)) && StringTells(input, code, p)
  }

  // ------------------------------------------------------------ tokens

  lemma {:induction false} UnitExactly(input: Input, p: nat)
    ensures input.Hex4(p).Hex? ==> input.Hex4(p).value <= 0xFFFF && UnitAt(input, p, input.Hex4(p).value)
    ensures forall u: Unit16 :: UnitAt(input, p, u) ==> input.Hex4(p) == Hex(u)
  {
    hide Spells, Input.HexDigits;
    if input.Hex4(p).Hex? {
      Hex4Exactly(input, p, input.Hex4(p).value);
    }
    forall u: Unit16 | UnitAt(input, p, u) ensures input.Hex4(p) == Hex(u) {
      Hex4Exactly(input, p, u);
    }
  }

  /** An escape is refused for its digits exactly if some are missing, and for its surrogates exactly if one is not in a pair. */
  lemma {:induction false} EscapeErrorExactly(input: Input, p: nat)
    requires EscapeAt(input, p)
    ensures input.UnicodeEscape(p) == NotEscaped(StringUnicodeEscapeInvalidHex)
       <==> !UnitIn(input, p + 2, 0, 0xFFFF) || (HighAt(input, p) && !UnitIn(input, p + 8, 0, 0xFFFF))
    ensures input.UnicodeEscape(p) == NotEscaped(StringUnicodeSurrogateInvalid) <==> LoneSurrogateAt(input, p)
    ensures input.UnicodeEscape(p).NotEscaped? ==>
              input.UnicodeEscape(p).code in [StringUnicodeEscapeInvalidHex, StringUnicodeSurrogateInvalid]
  {
    hide Input.Hex4, UnitAt;
    UnitExactly(input, p + 2);
    UnitExactly(input, p + 8);
  }

  lemma {:induction false} StringErrorTells(input: Input, p: nat, text: Bytes)
    requires p <= |input.src| && input.ScanString(p, text).StrErr?
    ensures var r := input.ScanString(p, text); StringTells(input, r.code, r.offset)
    decreases |input.src| - p
  {
    hide Input.UnicodeEscape, Unescape, EncodeUtf8, UnitIn, LoneSurrogateAt, HighAt;
    var c, e := input.Peek(p), input.Peek(p + 1);
    if c == BACKSLASH {
      if Unescape(e) != 0 {
        UnescapeIsThere(e);
        StringErrorTells(input, p + 2, text + [Unescape(e)]);
      } else if e == LOWER_U {
        match input.UnicodeEscape(p)
        case NotEscaped(_) => EscapeErrorExactly(input, p);
        case Escaped(end, codepoint) => StringErrorTells(input, end, text + EncodeUtf8(codepoint));
      } else {
        NoLetter(e);
      }
    } else if c != QUOTE && c >= 0x20 {
      StringErrorTells(input, p + 1, text + [c]);
    }
  }

  lemma {:induction false} NoLetter(e: Byte)
    requires Unescape(e) == 0
    ensures e !in ESCAPE_LETTERS
  {
    if e in ESCAPE_LETTERS {
      var k :| 0 <= k < 8 && ESCAPE_LETTERS[k] == e;
      UnescapeExactly(e);
    }
  }

  lemma {:induction false} ExponentErrorTells(input: Input, p: nat, r: nat, expFrac: int, e: Event)
    requires p < r <= |input.src| && IsScalar(e) && !IsWhole(input.AfterFraction(p, r, expFrac, e))
    ensures var s := input.AfterFraction(p, r, expFrac, e); s.code == NumberMissExponent && NumberTells(input, s.code, s.offset)
  {
    hide Input.DigitsValue, Input.DigitsEnd;
  }

  lemma {:induction false} FractionErrorTells(input: Input, p: nat, minus: bool, q: nat, r: nat)
    requires p <= q < r <= |input.src| && AllDigits(input.src[q..r]) && !IsWhole(input.AfterInteger(p, minus, q, r))
    ensures var s := input.AfterInteger(p, minus, q, r);
            s.code != ValueInvalid && s.code != NumberTooBig && NumberTells(input, s.code, s.offset)
  {
    hide Input.AfterFraction, Input.DigitsEnd, Input.FractionAt, IntegerEvent, FitsInt, Decimal;
    var v := Decimal(input.src[q..r]);
    if input.Peek(r) != DOT {
      IntegerEventIsScalar(minus, v);
      ExponentErrorTells(input, p, r, 0, IntegerEvent(minus, v));
    } else if IsDigit(input.Peek(r + 1)) {
      DigitsThere(input, r + 1);
      ExponentErrorTells(input, p, input.DigitsEnd(r + 1), if FitsInt(minus, v) then input.FractionAt(r + 1, v, r - q - 1).expFrac else 0,
                         Double([]));
    }
  }

  lemma {:induction false} NumberErrorTells(input: Input, p: nat)
    requires p <= |input.src| && input.NumberAt(p).NumErr?
    requires input.Peek(p) !in [LBRACE, LBRACKET, QUOTE, LOWER_N, LOWER_T, LOWER_F]
    ensures NumberTells(input, input.NumberAt(p).code, input.NumberAt(p).offset)
  {
    hide Input.AfterInteger, Input.DigitsEnd, Delimits, NumeralText, IsTooBig, At, IsNumeral, Decimal;
    if IsWhole(input.NumberAt(p)) {
      var n := NumberIsNumeral(input, p);
      ReadsNumeral(input, p, n);
    } else {
      var q := if input.Peek(p) == MINUS then p + 1 else p;
      if IsDigit(input.Peek(q)) {
        DigitsThere(input, q);
        var r := if input.Peek(q) == DIGIT_0 then q + 1 else input.DigitsEnd(q);
        if input.Peek(q) == DIGIT_0 {
          Decimals.SingleDigit(input.src, q);
        }
        FractionErrorTells(input, p, input.Peek(p) == MINUS, q, r);
      }
    }
  }

  lemma {:induction false} WordErrorTells(input: Input, p: nat, c: Byte, tail: Bytes, e: Event, evs: seq<Event>)
    requires p < |input.src| && input.Peek(p) == c && e in [Null, Bool(true), Bool(false)] && WordText(e) == [c] + tail
    requires input.Match(p + 1, tail) != p + 1 + |tail| && forall i :: 0 <= i < |tail| ==> tail[i] != NUL
    ensures input.Literal(p, tail, e, evs) == Err(ValueInvalid, input.Match(p + 1, tail), evs)
    ensures WordTells(input, input.Match(p + 1, tail))
  {
    var q := input.Match(p + 1, tail);
    MatchBreaksOff(input, p + 1, tail);
    ByteAt(input, p);
    var k := q - p;
    AtJoin(input, p, [c], tail[..k - 1]);
    assert WordText(e)[..k] == [c] + tail[..k - 1];
    assert BreaksOff(input, q, WordText(e), k);
  }

  lemma {:induction false} MatchStep(input: Input, p: nat, word: Bytes)
    requires word != []
    ensures input.Match(p, word) == if input.Peek(p) == word[0] then input.Match(p + 1, word[1..]) else p
  {
  }

  lemma {:induction false} MatchBreaksOff(input: Input, p: nat, word: Bytes)
    requires p <= |input.src| && input.Match(p, word) != p + |word| && forall i :: 0 <= i < |word| ==> word[i] != NUL
    ensures var q := input.Match(p, word);
            p <= q < p + |word| && At(input, p, word[..q - p]) && input.Peek(q) != word[q - p]
    decreases |word|
  {
    hide Input.Match, At;
    var q := input.Match(p, word);
    MatchStep(input, p, word);
    AtRange(input, p, p);
    assert input.src[p..p] == word[..0];
    if input.Peek(p) == word[0] {
      MatchBreaksOff(input, p + 1, word[1..]);
      ByteAt(input, p);
      AtJoin(input, p, [word[0]], word[1..][..q - p - 1]);
      assert word[..q - p] == [word[0]] + word[1..][..q - p - 1];
    }
  }

  // ------------------------------------------------------------ values

  /** An error at all, or none. */
  ghost predicate Told(input: Input, r: Outcome) {
    r.Err? ==> Tells(input, r.code, r.offset, r.evs)
  }

  lemma {:induction false} EmitTells(input: Input, evs: seq<Event>, e: Event, next: nat, offset: nat)
    requires SentAt(input, e, offset)
    ensures Told(input, input.Emit(evs, e, next, offset))
  {
    hide SentAt;
  }

  lemma {:induction false} OpeningTells(input: Input, evs: seq<Event>, p: nat)
    ensures input.Peek(p) == LBRACKET ==> Told(input, input.Emit(evs, StartArray, p + 1, p + 1))
    ensures input.Peek(p) == LBRACE ==> Told(input, input.Emit(evs, StartObject, p + 1, p + 1))
  {
    hide Told;
    if input.Peek(p) == LBRACKET {
      EmitTells(input, evs, StartArray, p + 1, p + 1);
    } else if input.Peek(p) == LBRACE {
      EmitTells(input, evs, StartObject, p + 1, p + 1);
    }
  }

  lemma {:induction false} ClosingTells(input: Input, evs: seq<Event>, n: nat, p: nat)
    ensures input.Peek(p) == RBRACKET ==> Told(input, input.Emit(evs, EndArray(n), p + 1, p + 1))
    ensures input.Peek(p) == RBRACKET && input.trailingCommas ==> Told(input, input.Emit(evs, EndArray(n), p + 1, p))
    ensures input.Peek(p) == RBRACE ==> Told(input, input.Emit(evs, EndObject(n), p + 1, p + 1))
    ensures input.Peek(p) == RBRACE && input.trailingCommas ==> Told(input, input.Emit(evs, EndObject(n), p + 1, p))
  {
    hide Told;
    if input.Peek(p) == RBRACKET {
      EmitTells(input, evs, EndArray(n), p + 1, p + 1);
      if input.trailingCommas {
        EmitTells(input, evs, EndArray(n), p + 1, p);
      }
    } else if input.Peek(p) == RBRACE {
      EmitTells(input, evs, EndObject(n), p + 1, p + 1);
      if input.trailingCommas {
        EmitTells(input, evs, EndObject(n), p + 1, p);
      }
    }
  }

  lemma {:induction false} NumberSentAt(input: Input, p: nat)
    requires p <= |input.src| && input.NumberAt(p).NumOk?
    ensures SentAt(input, input.NumberAt(p).event, p)
  {
    hide Input.NumberAt, Delimits, NumeralText, IsTooBig, At, IsNumeral;
    var n := NumberIsNumeral(input, p);
    ReadsNumeral(input, p, n);
  }

  lemma {:induction false} StringSentAt(input: Input, p: nat, name: Bytes)
    requires p < |input.src| && input.ScanString(p + 1, []).StrOk?
    ensures var end := input.ScanString(p + 1, []).end; SentAt(input, Key(name), end) && SentAt(input, String(name), end)
  {
    hide Input.ScanString, PiecesText;
    var xs := StringIsPieces(input, p + 1, []);
    AtIndex(input, p + 1, PiecesText(xs) + [QUOTE], |PiecesText(xs)|);
  }

  lemma {:induction false} NumberTold(input: Input, p: nat, evs: seq<Event>)
    requires p <= |input.src| && WantsValue(evs)
    requires input.Peek(p) !in [LBRACE, LBRACKET, QUOTE, LOWER_N, LOWER_T, LOWER_F]
    ensures Told(input, input.Number(p, evs))
  {
    hide Input.NumberAt, WantsValue, SentAt;
    var r := input.NumberAt(p);
    if r.NumErr? {
      NumberErrorTells(input, p);
    } else {
      NumberSentAt(input, p);
      EmitTells(input, evs, r.event, r.end, p);
    }
  }

  lemma {:induction false} WordTold(input: Input, p: nat, evs: seq<Event>)
    requires p < |input.src| && WantsValue(evs) && input.Peek(p) in [LOWER_N, LOWER_T, LOWER_F]
    ensures Told(input, input.Val(p, evs))
  {
    hide Input.Match, WantsValue, WordTells, Input.ArrayBody, Input.ObjectBody, Input.Str, Input.Number, At;
    var c := input.Peek(p);
    var e := if c == LOWER_N then Null else Bool(c == LOWER_T);
    var tail := if c == LOWER_N then NULL_TAIL else if c == LOWER_T then TRUE_TAIL else FALSE_TAIL;
    if input.Match(p + 1, tail) != p + 1 + |tail| {
      WordErrorTells(input, p, c, tail, e, evs);
    } else {
      MatchIsThere(input, p + 1, tail);
      ByteAt(input, p);
      AtJoin(input, p, [c], tail);
      assert WordText(e) == [c] + tail;
      EmitTells(input, evs, e, p + 1 + |tail|, p + 1 + |tail|);
    }
  }

  lemma {:induction false} StrTold(input: Input, p: nat, evs: seq<Event>, isKey: bool)
    requires p < |input.src| && (WantsValue(evs) || WantsName(evs))
    ensures Told(input, input.Str(p, evs, isKey))
  {
    hide Input.ScanString, WantsValue, WantsName, SentAt;
    var r := input.ScanString(p + 1, []);
    if r.StrErr? {
      StringErrorTells(input, p + 1, []);
    } else {
      StringSentAt(input, p, r.text);
      EmitTells(input, evs, if isKey then Key(r.text) else String(r.text), r.end, r.end);
    }
  }

  /** The error of a value, and where it leaves the events if there is none. */
  lemma {:induction false} ValTold(input: Input, p: nat, evs: seq<Event>)
    requires p <= |input.src| && WantsValue(evs)
    ensures Told(input, input.Val(p, evs))
    decreases |input.src| - p, 2
  {
    hide Input.Val, Input.ObjectBody, Input.ArrayBody, WantsValue, Told, Input.Number, Input.Str, Inside, EndsWithKey;
    var c := input.Peek(p);
    ValByFirst(input, p, evs);
    OpeningTells(input, evs, p);
    if c == LBRACE {
      if input.answer(evs + [StartObject]) {
        Opened(evs, Curly);
        ObjectBodyTold(input, p + 1, evs + [StartObject]);
      }
    } else if c == LBRACKET {
      if input.answer(evs + [StartArray]) {
        Opened(evs, Square);
        ArrayBodyTold(input, p + 1, evs + [StartArray]);
      }
    } else if c == QUOTE {
      StrTold(input, p, evs, false);
    } else if c in [LOWER_N, LOWER_T, LOWER_F] {
      WordTold(input, p, evs);
    } else {
      NumberTold(input, p, evs);
    }
  }

  /** A value is read by its first byte. */
  lemma {:induction false} ValByFirst(input: Input, p: nat, evs: seq<Event>)
    requires p <= |input.src|
    ensures var c, r := input.Peek(p), input.Val(p, evs);
            && (c == LBRACE ==> p < |input.src| && r == if input.answer(evs + [StartObject]) then input.ObjectBody(p + 1, evs + [StartObject])
                                  else input.Emit(evs, StartObject, p + 1, p + 1))
            && (c == LBRACKET ==> p < |input.src| && r == if input.answer(evs + [StartArray]) then input.ArrayBody(p + 1, evs + [StartArray])
                                    else input.Emit(evs, StartArray, p + 1, p + 1))
            && (c == QUOTE ==> p < |input.src| && r == input.Str(p, evs, false))
            && (c !in [LBRACE, LBRACKET, QUOTE, LOWER_N, LOWER_T, LOWER_F] ==> r == input.Number(p, evs))
  {
    hide Input.ObjectBody, Input.ArrayBody, Input.Number, Input.Str, Input.Literal;
  }

  /** What a value that is read leaves. */
  lemma {:induction false} ValLeaves(input: Input, p: nat, evs: seq<Event>)
    requires p <= |input.src| && input.Val(p, evs).Ok?
    ensures var now := input.Val(p, evs).evs; EndsWithValue(now) && OpenAfter([], now) == OpenAfter([], evs)
  {
    hide Input.Val, EndsWithValue, OpenAfter, TreeEvents;
    var t := ValIsTree(input, p, evs);
    ValueAdded(evs, t);
  }

  lemma {:induction false} ArrayBodyTold(input: Input, p: nat, evs: seq<Event>)
    requires p <= |input.src| && Inside(evs, Square)
    ensures Told(input, input.ArrayBody(p, evs))
    decreases |input.src| - p, 4
  {
    hide Told, Input.Elements, Inside;
    var q := input.SkipWs(p);
    ClosingTells(input, evs, 0, q);
    if input.Peek(q) != RBRACKET {
      ElementsTold(input, q, 0, evs);
    }
  }

  lemma {:induction false} ElementsTold(input: Input, p: nat, n: nat, evs: seq<Event>)
    requires p <= |input.src| && Inside(evs, Square)
    ensures Told(input, input.Elements(p, n, evs))
    decreases |input.src| - p, 3
  {
    hide Told, Input.Val, Input.AfterElement, OpenAfter, EndsWithValue;
    ValTold(input, p, evs);
    var r := input.Val(p, evs);
    if r.Ok? {
      ValLeaves(input, p, evs);
      AfterElementTold(input, r.pos, n + 1, r.evs);
    }
  }

  lemma {:induction false} AfterElementTold(input: Input, p: nat, n: nat, evs: seq<Event>)
    requires p <= |input.src| && Inside(evs, Square) && EndsWithValue(evs)
    ensures Told(input, input.AfterElement(p, n, evs))
    decreases |input.src| - p, 1
  {
    hide Told, Input.Elements, Inside, EndsWithValue;
    var q := input.SkipWs(p);
    ClosingTells(input, evs, n, q);
    if input.Peek(q) == COMMA {
      var u := input.SkipWs(q + 1);
      ClosingTells(input, evs, n, u);
      if !(input.trailingCommas && input.Peek(u) == RBRACKET) {
        ElementsTold(input, u, n, evs);
      }
      assert input.AfterElement(p, n, evs) == input.AfterElementComma(q + 1, n, evs);
    } else if input.Peek(q) != RBRACKET {
      CommaMissing(input, q, evs);
    }
  }

  lemma {:induction false} CommaMissing(input: Input, q: nat, evs: seq<Event>)
    requires EndsWithValue(evs) && !IsSpace(input.Peek(q)) && input.Peek(q) != COMMA
    ensures Inside(evs, Square) && input.Peek(q) != RBRACKET ==> Told(input, Err(ArrayMissCommaOrSquareBracket, q, evs))
    ensures Inside(evs, Curly) && input.Peek(q) != RBRACE ==> Told(input, Err(ObjectMissCommaOrCurlyBracket, q, evs))
  {
  }

  lemma {:induction false} ObjectBodyTold(input: Input, p: nat, evs: seq<Event>)
    requires p <= |input.src| && Inside(evs, Curly) && !EndsWithKey(evs)
    ensures Told(input, input.ObjectBody(p, evs))
    decreases |input.src| - p, 4
  {
    hide Told, Input.Members, Inside, EndsWithKey;
    var q := input.SkipWs(p);
    ClosingTells(input, evs, 0, q);
    if input.Peek(q) != RBRACE {
      MembersTold(input, q, 0, evs);
    }
  }

  lemma {:induction false} MembersTold(input: Input, p: nat, n: nat, evs: seq<Event>)
    requires p <= |input.src| && !IsSpace(input.Peek(p)) && Inside(evs, Curly) && !EndsWithKey(evs)
    ensures Told(input, input.Members(p, n, evs))
    decreases |input.src| - p, 3
  {
    hide Input.Str, Input.AfterKey, Told, Inside, EndsWithKey;
    if input.Peek(p) != QUOTE {
      NameMissing(input, p, evs);
    } else {
      StrTold(input, p, evs, true);
      var k := input.Str(p, evs, true);
      if k.Ok? {
        StrLeaves(input, p, evs);
        KeyAdded(evs, k.evs[|evs|].s, Curly);
        AfterKeyTold(input, k.pos, n, k.evs);
      }
    }
  }

  lemma {:induction false} NameMissing(input: Input, p: nat, evs: seq<Event>)
    requires !IsSpace(input.Peek(p)) && Inside(evs, Curly) && !EndsWithKey(evs) && input.Peek(p) != QUOTE
    ensures Told(input, Err(ObjectMissName, p, evs))
  {
  }

  lemma {:induction false} StrLeaves(input: Input, p: nat, evs: seq<Event>)
    requires p < |input.src| && input.Str(p, evs, true).Ok?
    ensures var k := input.Str(p, evs, true);
            |k.evs| == |evs| + 1 && k.evs[|evs|].Key? && k.evs == evs + [Key(k.evs[|evs|].s)] && p < k.pos <= |input.src|
  {
    hide Input.ScanString;
  }

  lemma {:induction false} AfterKeyTold(input: Input, p: nat, n: nat, evs: seq<Event>)
    requires p <= |input.src| && Inside(evs, Curly) && EndsWithKey(evs)
    ensures Told(input, input.AfterKey(p, n, evs))
    decreases |input.src| - p, 1
  {
    hide Told, Input.Val, Input.AfterMember, OpenAfter, EndsWithValue, EndsWithKey;
    var q := input.SkipWs(p);
    if input.Peek(q) != COLON {
      ColonMissing(input, q, evs);
    } else {
      var v := input.SkipWs(q + 1);
      assert input.AfterKey(p, n, evs) == input.AfterColon(q + 1, n, evs);
      ValTold(input, v, evs);
      var r := input.Val(v, evs);
      if r.Ok? {
        ValLeaves(input, v, evs);
        AfterMemberTold(input, r.pos, n + 1, r.evs);
      }
    }
  }

  lemma {:induction false} ColonMissing(input: Input, q: nat, evs: seq<Event>)
    requires EndsWithKey(evs) && !IsSpace(input.Peek(q)) && input.Peek(q) != COLON
    ensures Told(input, Err(ObjectMissColon, q, evs))
  {
  }

  lemma {:induction false} AfterMemberTold(input: Input, p: nat, n: nat, evs: seq<Event>)
    requires p <= |input.src| && Inside(evs, Curly) && EndsWithValue(evs)
    ensures Told(input, input.AfterMember(p, n, evs))
    decreases |input.src| - p, 1
  {
    hide Told, Input.Members, Inside, EndsWithValue, EndsWithKey;
    ValueIsNoKey(evs);
    var q := input.SkipWs(p);
    ClosingTells(input, evs, n, q);
    if input.Peek(q) == COMMA {
      var u := input.SkipWs(q + 1);
      ClosingTells(input, evs, n, u);
      if !(input.trailingCommas && input.Peek(u) == RBRACE) {
        MembersTold(input, u, n, evs);
      }
      assert input.AfterMember(p, n, evs) == input.AfterMemberComma(q + 1, n, evs);
    } else if input.Peek(q) != RBRACE {
      CommaMissing(input, q, evs);
    }
  }

  lemma {:induction false} ValueIsNoKey(evs: seq<Event>)
    requires EndsWithValue(evs)
    ensures !EndsWithKey(evs)
  {
  }

  /** Every error of a parse says where the parse was and what is wrong with the text there. */
  lemma {:induction false} ErrorsTell(input: Input)
    requires input.Document(0, []).Err?
    ensures var r := input.Document(0, []); Tells(input, r.code, r.offset, r.evs)
  {
    hide Input.Val, EndsWithValue, OpenAfter;
    var q := input.SkipWs(0);
    if input.Peek(q) != NUL {
      ValTold(input, q, []);
      var r := input.Val(q, []);
      if r.Ok? {
        ValLeaves(input, q, []);
        NothingOpen();
      }
    }
  }

  lemma {:induction false} NothingOpen()
    ensures OpenAfter([], []) == []
  {
  }
}
