/**
 What a JSON text means to the reader: recursive functions over the input that say which events a parse
 emits, where it stops and with which error. Both parsers of `Reader` are proved against them.
 */
module ReaderSpec {
  import opened Json
  import opened Encodings

  datatype ErrorCode =
    | DocumentEmpty
    | DocumentRootNotSingular
    | ValueInvalid
    | ObjectMissName
    | ObjectMissColon
    | ObjectMissCommaOrCurlyBracket
    | ArrayMissCommaOrSquareBracket
    | StringUnicodeEscapeInvalidHex
    | StringUnicodeSurrogateInvalid
    | StringEscapeInvalid
    | StringMissQuotationMark
    | StringInvalidEncoding
    | NumberTooBig
    | NumberMissFraction
    | NumberMissExponent
    | Termination

  /** The events sent so far, with the stream position on success or the error and its offset. */
  datatype Outcome =
    | Ok(pos: nat, evs: seq<Event>)
    | Err(code: ErrorCode, offset: nat, evs: seq<Event>)

  datatype StringScan = StrOk(end: nat, text: Bytes) | StrErr(code: ErrorCode, offset: nat)

  datatype NumberScan = NumOk(end: nat, event: Event) | NumErr(code: ErrorCode, offset: nat)

  datatype HexScan = Hex(value: nat) | NotHex

  datatype EscapeScan = Escaped(end: nat, codepoint: nat) | NotEscaped(code: ErrorCode)

  /** Progress through the digits of a fraction: the significand kept so far (0 once it only matters whether it
      is non-zero, which `nonzero` says), the decimal exponent it stands for and its number of digits. */
  datatype Fraction = Fraction(end: nat, significand: nat, nonzero: bool, expFrac: int, digits: nat)

  predicate IsSpace(c: Byte) {
    c == 0x20 || c == 0x0A || c == 0x0D || c == 0x09
  }

  predicate IsDigit(c: Byte) {
    0x30 <= c <= 0x39
  }

  function DigitValue(c: Byte): nat
    requires IsDigit(c)
  {
    var n: int := c; n - 0x30
  }

  predicate AllDigits(s: Bytes) {
    forall i :: 0 <= i < |s| ==> IsDigit(s[i])
  }

  /** The number a run of decimal digits stands for. */
  function Decimal(s: Bytes): nat
    requires AllDigits(s)
  {
    if s == [] then 0 else Decimal(s[..|s| - 1]) * 10 + DigitValue(s[|s| - 1])
  }

  /** The byte a two-character escape stands for; 0 when the character after the backslash is not one of them. */
  function Unescape(c: Byte): Byte {
    if c == QUOTE then QUOTE
    else if c == SOLIDUS then SOLIDUS
    else if c == BACKSLASH then BACKSLASH
    else if c == LOWER_B then 0x08
    else if c == LOWER_F then 0x0C
    else if c == LOWER_N then 0x0A
    else if c == LOWER_R then 0x0D
    else if c == LOWER_T then 0x09
    else 0
  }

  predicate IsHexDigit(c: Byte) {
    IsDigit(c) || 0x41 <= c <= 0x46 || 0x61 <= c <= 0x66
  }

  function HexValue(c: Byte): nat
    requires IsHexDigit(c)
  {
    var n: int := c;
    if IsDigit(c) then n - 0x30 else if c <= 0x46 then n - 0x41 + 10 else n - 0x61 + 10
  }

  const MAX_UINT32: nat := 0xFFFF_FFFF
  const MAX_UINT64: nat := 0xFFFF_FFFF_FFFF_FFFF

  /** The event of an integer literal with the magnitude `n`, if it has one: the smallest of the four integer
      types that holds it, unsigned unless there is a minus sign. */
  function IntegerEvent(minus: bool, n: nat): (e: Event)
  {
    if minus then
      if n <= 0x8000_0000 then Int(0 - n) else if n <= 0x8000_0000_0000_0000 then Int64(0 - n) else Double([])
    else
      if n <= MAX_UINT32 then Uint(n) else if n <= MAX_UINT64 then Uint64(n) else Double([])
  }

  /** The parse flags, the input and the two parties whose behaviour is not fixed here: the handler, which
      answers each event by looking at everything it has received, and the conversion to floating point, which
      says which numbers are too big for it. */
  datatype Input = Input(
    src: Bytes,
    trailingCommas: bool,
    stopWhenDone: bool,
    answer: seq<Event> -> bool,
    overflows: Bytes -> bool)
  {
    /** The end of the input reads as NUL; a NUL inside it ends the text too. */
    function Peek(p: nat): Byte {
      if p < |src| then src[p] else NUL
    }

    function SkipWs(p: nat): (q: nat)
      ensures p <= q && (p <= |src| ==> q <= |src|)
      ensures !IsSpace(Peek(q))
      decreases |src| - p
    {
      if p < |src| && IsSpace(src[p]) then SkipWs(p + 1) else p
    }

    /** Sends an event; a refusal stops the parse. */
    function Emit(evs: seq<Event>, e: Event, next: nat, offset: nat): Outcome {
      if answer(evs + [e]) then Ok(next, evs + [e]) else Err(Termination, offset, evs + [e])
    }

    /** How far `word` matches at `p`. */
    function Match(p: nat, word: Bytes): (q: nat)
      ensures p <= q <= p + |word|
      ensures (forall i :: 0 <= i < |word| ==> word[i] != NUL) && p <= |src| ==> q <= |src|
      decreases |word|
    {
      if word != [] && Peek(p) == word[0] then Match(p + 1, word[1..]) else p
    }

    function Literal(p: nat, tail: Bytes, e: Event, evs: seq<Event>): Outcome {
      var q := Match(p + 1, tail);
      if q == p + 1 + |tail| then Emit(evs, e, q, q) else Err(ValueInvalid, q, evs)
    }

    // ------------------------------------------------------------ strings

    /** `n` more hexadecimal digits at `p`, `acc` being the value of those before. */
    function HexDigits(p: nat, n: nat, acc: nat): (h: HexScan)
      requires n <= 4
      ensures h.Hex? ==> p + n <= |src| || n == 0
      ensures h.Hex? ==> h.value < (acc + 1) * (if n == 0 then 1 else if n == 1 then 16 else if n == 2 then 256
                                                else if n == 3 then 4096 else 65536)
      decreases n
    {
      if n == 0 then Hex(acc)
      else if IsHexDigit(Peek(p)) then HexDigits(p + 1, n - 1, acc * 16 + HexValue(Peek(p)))
      else NotHex
    }

    function Hex4(p: nat): HexScan {
      HexDigits(p, 4, 0)
    }

    /** The \u escape whose backslash is at `p`, surrogate pairs included. */
    function UnicodeEscape(p: nat): (r: EscapeScan)
      ensures r.Escaped? ==> p < r.end <= |src| && IsScalarValue(r.codepoint)
    {
      match Hex4(p + 2)
      case NotHex => NotEscaped(StringUnicodeEscapeInvalidHex)
      case Hex(u) =>
        if u < 0xD800 || u > 0xDFFF then Escaped(p + 6, u)
        else if u > 0xDBFF || Peek(p + 6) != BACKSLASH || Peek(p + 7) != LOWER_U then
          NotEscaped(StringUnicodeSurrogateInvalid)
        else match Hex4(p + 8)
          case NotHex => NotEscaped(StringUnicodeEscapeInvalidHex)
          case Hex(v) =>
            if v < 0xDC00 || v > 0xDFFF then NotEscaped(StringUnicodeSurrogateInvalid)
            else Escaped(p + 12, (u - 0xD800) * 1024 + (v - 0xDC00) + 0x10000)
    }

    /** The rest of a string from `p` on, `text` being what was decoded before. */
    function ScanString(p: nat, text: Bytes): (r: StringScan)
      requires p <= |src|
      ensures r.StrOk? ==> p < r.end <= |src|
      decreases |src| - p
    {
      var c := Peek(p);
      if c == BACKSLASH then
        var e := Peek(p + 1);
        if Unescape(e) != 0 then ScanString(p + 2, text + [Unescape(e)])
        else if e != LOWER_U then StrErr(StringEscapeInvalid, p)
        else match UnicodeEscape(p)
          case NotEscaped(code) => StrErr(code, p)
          case Escaped(end, codepoint) => ScanString(end, text + EncodeUtf8(codepoint))
      else if c == QUOTE then StrOk(p + 1, text)
      else if c < 0x20 then StrErr(if c == NUL then StringMissQuotationMark else StringInvalidEncoding, p)
      else ScanString(p + 1, text + [c])
    }

    function Str(p: nat, evs: seq<Event>, isKey: bool): Outcome
      requires p < |src|
    {
      match ScanString(p + 1, [])
      case StrErr(code, offset) => Err(code, offset, evs)
      case StrOk(end, text) => Emit(evs, if isKey then Key(text) else String(text), end, end)
    }

    // ------------------------------------------------------------ numbers

    function DigitsEnd(p: nat): (q: nat)
      ensures p <= q && (p <= |src| ==> q <= |src|)
      ensures !IsDigit(Peek(q))
      ensures p <= |src| ==> AllDigits(src[p..q])
      decreases |src| - p
    {
      if p < |src| && IsDigit(src[p]) then DigitsEnd(p + 1) else p
    }

    /** The number that the digits at `p` stand for. */
    function DigitsValue(p: nat): nat
      requires p <= |src|
    {
      Decimal(src[p..DigitsEnd(p)])
    }

    /** Fraction digits while the significand still fits the 53 bits of the fast path. */
    function FastFraction(f: Fraction): (g: Fraction)
      requires f.end <= |src|
      ensures f.end <= g.end <= DigitsEnd(f.end) && g.end <= |src|
      ensures f.significand <= MAX_UINT64 ==> g.significand <= MAX_UINT64
      decreases |src| - f.end
    {
      if f.end < |src| && IsDigit(src[f.end]) && f.significand <= 0x1F_FFFF_FFFF_FFFF then
        var m := f.significand * 10 + DigitValue(src[f.end]);
        FastFraction(Fraction(f.end + 1, m, m != 0, f.expFrac - 1, if m != 0 then f.digits + 1 else f.digits))
      else f
    }

    /** The remaining fraction digits: they count up to 17 significant ones and are skipped after that. */
    function SlowFraction(f: Fraction): (g: Fraction)
      requires f.end <= |src|
      ensures g.end == DigitsEnd(f.end) <= |src|
      decreases |src| - f.end
    {
      if f.end < |src| && IsDigit(src[f.end]) then
        if f.digits < 17 then
          var nz := f.nonzero || DigitValue(src[f.end]) != 0;
          SlowFraction(Fraction(f.end + 1, f.significand, nz, f.expFrac - 1, if nz then f.digits + 1 else f.digits))
        else SlowFraction(f.(end := f.end + 1))
      else f
    }

    /** The exponent that the fraction digits at `p` contribute, after the integer part `n` that was read
        into an integer with `digits` digits behind its first. */
    function FractionAt(p: nat, n: nat, digits: nat): Fraction
      requires p <= |src|
    {
      SlowFraction(FastFraction(Fraction(p, n, n != 0, 0, digits)))
    }

    function NumberAt(p: nat): (r: NumberScan)
      requires p <= |src|
      ensures r.NumOk? ==> p < r.end <= |src| && IsScalar(r.event)
    {
      var minus := Peek(p) == MINUS;
      var q := if minus then p + 1 else p;
      if Peek(q) == DIGIT_0 then AfterInteger(p, minus, q, q + 1)
      else if IsDigit(Peek(q)) then AfterInteger(p, minus, q, DigitsEnd(q))
      else NumErr(ValueInvalid, q)
    }

    /** The integer part is at [q, r). */
    function AfterInteger(p: nat, minus: bool, q: nat, r: nat): (s: NumberScan)
      requires p <= q < r <= |src| && AllDigits(src[q..r])
      ensures s.NumOk? ==> p < s.end <= |src| && IsScalar(s.event)
    {
      var n := Decimal(src[q..r]);
      if Peek(r) == DOT then
        if !IsDigit(Peek(r + 1)) then NumErr(NumberMissFraction, r + 1)
        else AfterFraction(p, DigitsEnd(r + 1),
                           if FitsInt(minus, n) then FractionAt(r + 1, n, r - q - 1).expFrac else 0, Double([]))
      else AfterFraction(p, r, 0, IntegerEvent(minus, n))
    }

    /** `e` is the event if no exponent follows, where Double stands for whatever is not an integer. */
    function AfterFraction(p: nat, r: nat, expFrac: int, e: Event): (s: NumberScan)
      requires p < r <= |src| && IsScalar(e)
      ensures s.NumOk? ==> p < s.end <= |src| && IsScalar(s.event)
    {
      if Peek(r) == LOWER_E || Peek(r) == UPPER_E then
        var x := if Peek(r + 1) == PLUS || Peek(r + 1) == MINUS then r + 2 else r + 1;
        if !IsDigit(Peek(x)) then NumErr(NumberMissExponent, x)
        else if Peek(r + 1) != MINUS && DigitsValue(x) > 308 - expFrac then NumErr(NumberTooBig, p)
        else DoubleAt(p, DigitsEnd(x))
      else if e.Double? then DoubleAt(p, r)
      else NumOk(r, e)
    }

    function DoubleAt(p: nat, end: nat): (s: NumberScan)
      requires p < end <= |src|
      ensures s.NumOk? ==> p < s.end <= |src| && IsScalar(s.event)
    {
      if overflows(src[p..end]) then NumErr(NumberTooBig, p) else NumOk(end, Double(src[p..end]))
    }

    function Deliver(s: NumberScan, p: nat, evs: seq<Event>): Outcome {
      match s
      case NumErr(code, offset) => Err(code, offset, evs)
      case NumOk(end, e) => Emit(evs, e, end, p)
    }

    function Number(p: nat, evs: seq<Event>): Outcome
      requires p <= |src|
    {
      Deliver(NumberAt(p), p, evs)
    }

    // ------------------------------------------------------------ values

    function Val(p: nat, evs: seq<Event>): (r: Outcome)
      requires p <= |src|
      ensures r.Ok? ==> p < r.pos <= |src|
      decreases |src| - p, 2
    {
      var c := Peek(p);
      if c == LOWER_N then Literal(p, NULL_TAIL, Null, evs)
      else if c == LOWER_T then Literal(p, TRUE_TAIL, Bool(true), evs)
      else if c == LOWER_F then Literal(p, FALSE_TAIL, Bool(false), evs)
      else if c == QUOTE then Str(p, evs, false)
      else if c == LBRACE then
        var r := Emit(evs, StartObject, p + 1, p + 1);
        if r.Err? then r else ObjectBody(p + 1, r.evs)
      else if c == LBRACKET then
        var r := Emit(evs, StartArray, p + 1, p + 1);
        if r.Err? then r else ArrayBody(p + 1, r.evs)
      else Number(p, evs)
    }

    /** Behind the opening bracket. */
    function ArrayBody(p: nat, evs: seq<Event>): (r: Outcome)
      requires p <= |src|
      ensures r.Ok? ==> p < r.pos <= |src|
      decreases |src| - p, 4
    {
      var q := SkipWs(p);
      if Peek(q) == RBRACKET then Emit(evs, EndArray(0), q + 1, q + 1) else Elements(q, 0, evs)
    }

    /** Where an element must follow, `n` elements being finished. */
    function Elements(p: nat, n: nat, evs: seq<Event>): (r: Outcome)
      requires p <= |src|
      ensures r.Ok? ==> p < r.pos <= |src|
      decreases |src| - p, 3
    {
      var r := Val(p, evs);
      if r.Err? then r else AfterElement(r.pos, n + 1, r.evs)
    }

    /** Behind the `n`-th element. */
    function AfterElement(p: nat, n: nat, evs: seq<Event>): (r: Outcome)
      requires p <= |src|
      ensures r.Ok? ==> p < r.pos <= |src|
      decreases |src| - p, 1
    {
      var q := SkipWs(p);
      if Peek(q) == COMMA then AfterElementComma(q + 1, n, evs)
      else if Peek(q) == RBRACKET then Emit(evs, EndArray(n), q + 1, q + 1)
      else Err(ArrayMissCommaOrSquareBracket, q, evs)
    }

    function AfterElementComma(p: nat, n: nat, evs: seq<Event>): (r: Outcome)
      requires p <= |src|
      ensures r.Ok? ==> p < r.pos <= |src|
      decreases |src| - p, 4
    {
      var q := SkipWs(p);
      if trailingCommas && Peek(q) == RBRACKET then Emit(evs, EndArray(n), q + 1, q) else Elements(q, n, evs)
    }

    /** Behind the opening brace. */
    function ObjectBody(p: nat, evs: seq<Event>): (r: Outcome)
      requires p <= |src|
      ensures r.Ok? ==> p < r.pos <= |src|
      decreases |src| - p, 4
    {
      var q := SkipWs(p);
      if Peek(q) == RBRACE then Emit(evs, EndObject(0), q + 1, q + 1) else Members(q, 0, evs)
    }

    /** Where a member must follow, `n` members being finished. */
    function Members(p: nat, n: nat, evs: seq<Event>): (r: Outcome)
      requires p <= |src|
      ensures r.Ok? ==> p < r.pos <= |src|
      decreases |src| - p, 3
    {
      if Peek(p) != QUOTE then Err(ObjectMissName, p, evs)
      else
        var r := Str(p, evs, true);
        if r.Err? then r else AfterKey(r.pos, n, r.evs)
    }

    function AfterKey(p: nat, n: nat, evs: seq<Event>): (r: Outcome)
      requires p <= |src|
      ensures r.Ok? ==> p < r.pos <= |src|
      decreases |src| - p, 1
    {
      var q := SkipWs(p);
      if Peek(q) != COLON then Err(ObjectMissColon, q, evs) else AfterColon(q + 1, n, evs)
    }

    function AfterColon(p: nat, n: nat, evs: seq<Event>): (r: Outcome)
      requires p <= |src|
      ensures r.Ok? ==> p < r.pos <= |src|
      decreases |src| - p, 3
    {
      var r := Val(SkipWs(p), evs);
      if r.Err? then r else AfterMember(r.pos, n + 1, r.evs)
    }

    /** Behind the `n`-th member. */
    function AfterMember(p: nat, n: nat, evs: seq<Event>): (r: Outcome)
      requires p <= |src|
      ensures r.Ok? ==> p < r.pos <= |src|
      decreases |src| - p, 1
    {
      var q := SkipWs(p);
      if Peek(q) == COMMA then AfterMemberComma(q + 1, n, evs)
      else if Peek(q) == RBRACE then Emit(evs, EndObject(n), q + 1, q + 1)
      else Err(ObjectMissCommaOrCurlyBracket, q, evs)
    }

    function AfterMemberComma(p: nat, n: nat, evs: seq<Event>): (r: Outcome)
      requires p <= |src|
      ensures r.Ok? ==> p < r.pos <= |src|
      decreases |src| - p, 4
    {
      var q := SkipWs(p);
      if trailingCommas && Peek(q) == RBRACE then Emit(evs, EndObject(n), q + 1, q) else Members(q, n, evs)
    }

    /** Behind the root value. */
    function AfterRoot(p: nat, evs: seq<Event>): Outcome {
      var q := SkipWs(p);
      if stopWhenDone then Ok(p, evs)
      else if Peek(q) != NUL then Err(DocumentRootNotSingular, q, evs)
      else Ok(q, evs)
    }

    function Document(p: nat, evs: seq<Event>): Outcome
      requires p <= |src|
    {
      var q := SkipWs(p);
      if Peek(q) == NUL then Err(DocumentEmpty, q, evs)
      else
        var r := Val(q, evs);
        if r.Err? then r else AfterRoot(r.pos, r.evs)
    }
  }

  /** Whether an integer literal has an integer event. */
  predicate FitsInt(minus: bool, n: nat) {
    if minus then n <= 0x8000_0000_0000_0000 else n <= MAX_UINT64
  }
}
