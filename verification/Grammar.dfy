/**
 The strings and numbers of RFC 8259 as syntax, each with the text it is written as and the value it stands for, and that the
 reader takes exactly these texts for exactly these values. Two things are not as in the RFC: a string may hold any bytes from
 0x20 on, UTF-8 or not, and an escaped surrogate must be one of a pair.
 */
module Grammar {
  import opened Options
  import opened Json
  import opened Encodings
  import opened ReaderSpec
  import opened Nesting
  import opened Decimals

  // ------------------------------------------------------------ what stands where

  /** `text` is what the input holds from `p` on. */
  predicate At(input: Input, p: nat, text: Bytes) {
    p + |text| <= |input.src| && input.src[p..p + |text|] == text
  }

  lemma {:induction false} AtSplit(input: Input, p: nat, a: Bytes, b: Bytes)
    requires At(input, p, a + b)
    ensures At(input, p, a) && At(input, p + |a|, b)
  {
    var s := input.src[p..p + |a + b|];
    assert s[..|a|] == a && s[|a|..] == b;
    assert input.src[p..p + |a|] == s[..|a|];
    assert input.src[p + |a|..p + |a| + |b|] == s[|a|..];
  }

  lemma {:induction false} AtJoin(input: Input, p: nat, a: Bytes, b: Bytes)
    requires At(input, p, a) && At(input, p + |a|, b)
    ensures At(input, p, a + b)
  {
    assert input.src[p..p + |a + b|] == input.src[p..p + |a|] + input.src[p + |a|..p + |a| + |b|];
  }

  lemma {:induction false} AtIndex(input: Input, p: nat, text: Bytes, i: nat)
    requires At(input, p, text) && i < |text|
    ensures input.Peek(p + i) == text[i]
  {
    assert input.src[p..p + |text|][i] == text[i];
  }

  /** A single byte of the input. */
  lemma {:induction false} AtByte(input: Input, p: nat, c: Byte, rest: Bytes)
    requires At(input, p, [c] + rest)
    ensures input.Peek(p) == c && At(input, p + 1, rest)
  {
    AtSplit(input, p, [c], rest);
    AtIndex(input, p, [c], 0);
  }

  lemma {:induction false} ByteAt(input: Input, p: nat)
    requires p < |input.src|
    ensures At(input, p, [input.Peek(p)])
  {
  }

  // ------------------------------------------------------------ strings

  const UPPER_DIGITS: Bytes := [0x30, 0x31, 0x32, 0x33, 0x34, 0x35, 0x36, 0x37, 0x38, 0x39, 0x41, 0x42, 0x43, 0x44, 0x45, 0x46]
  const LOWER_DIGITS: Bytes := [0x30, 0x31, 0x32, 0x33, 0x34, 0x35, 0x36, 0x37, 0x38, 0x39, 0x61, 0x62, 0x63, 0x64, 0x65, 0x66]

  /** The letters behind a backslash and what they stand for: quotation mark, backslash, slash, backspace, form feed,
      line feed, carriage return and tab. */
  const ESCAPE_LETTERS: Bytes := [0x22, 0x5C, 0x2F, 0x62, 0x66, 0x6E, 0x72, 0x74]
  const ESCAPED_BYTES: Bytes := [0x22, 0x5C, 0x2F, 0x08, 0x0C, 0x0A, 0x0D, 0x09]

  predicate IsHexDigitOf(c: Byte, v: nat) {
    v < 16 && (c == UPPER_DIGITS[v] || c == LOWER_DIGITS[v])
  }

  /** Four hexadecimal digits, the first one the most significant. */
  predicate Spells(digits: Bytes, unit: Unit16) {
    && |digits| == 4
    && IsHexDigitOf(digits[0], unit / 4096) && IsHexDigitOf(digits[1], unit / 256 % 16)
    && IsHexDigitOf(digits[2], unit / 16 % 16) && IsHexDigitOf(digits[3], unit % 16)
  }

  /** A byte that stands for itself, an escape with the letter of some index, or one or two escapes with the digits of
      the UTF-16 code units of a scalar value. */
  datatype Piece = Plain(c: Byte) | Short(letter: nat) | Coded(codepoint: nat, digits: seq<Bytes>)

  predicate IsPiece(x: Piece) {
    match x
    case Plain(c) => c >= 0x20 && c != QUOTE && c != BACKSLASH
    case Short(k) => k < 8
    case Coded(c, digits) =>
      && IsScalarValue(c) && |digits| == |EncodeUtf16(c)|
      && forall i :: 0 <= i < |digits| ==> Spells(digits[i], EncodeUtf16(c)[i])
  }

  function PieceText(x: Piece): Bytes
    requires IsPiece(x)
  {
    match x
    case Plain(c) => [c]
    case Short(k) => [BACKSLASH, ESCAPE_LETTERS[k]]
    case Coded(c, digits) => [BACKSLASH, LOWER_U] + digits[0] + if |digits| == 1 then [] else [BACKSLASH, LOWER_U] + digits[1]
  }

  function PieceBytes(x: Piece): Bytes
    requires IsPiece(x)
  {
    match x
    case Plain(c) => [c]
    case Short(k) => [ESCAPED_BYTES[k]]
    case Coded(c, _) => EncodeUtf8(c)
  }

  predicate ArePieces(xs: seq<Piece>) {
    forall i :: 0 <= i < |xs| ==> IsPiece(xs[i])
  }

  function PiecesText(xs: seq<Piece>): Bytes
    requires ArePieces(xs)
  {
    if xs == [] then [] else PieceText(xs[0]) + PiecesText(xs[1..])
  }

  function PiecesBytes(xs: seq<Piece>): Bytes
    requires ArePieces(xs)
  {
    if xs == [] then [] else PieceBytes(xs[0]) + PiecesBytes(xs[1..])
  }

  lemma {:induction false} HexDigitExactly(c: Byte, v: nat)
    ensures IsHexDigitOf(c, v) <==> IsHexDigit(c) && HexValue(c) == v
  {
  }

  lemma {:induction false} BaseSixteen(u: Unit16, a: nat, b: nat, c: nat, d: nat)
    requires a < 16 && b < 16 && c < 16 && d < 16
    ensures u == a * 4096 + b * 256 + c * 16 + d <==> u / 4096 == a && u / 256 % 16 == b && u / 16 % 16 == c && u % 16 == d
  {
    var x := u / 16;
    var y := x / 16;
    assert u / 256 == y && u / 4096 == y / 16;
    assert u == x * 16 + u % 16 && x == y * 16 + x % 16 && y == (y / 16) * 16 + y % 16;
  }

  lemma {:induction false} SpellsExactly(s: Bytes, u: Unit16)
    requires |s| == 4
    ensures Spells(s, u) <==> IsHexDigit(s[0]) && IsHexDigit(s[1]) && IsHexDigit(s[2]) && IsHexDigit(s[3])
                              && u == HexValue(s[0]) * 4096 + HexValue(s[1]) * 256 + HexValue(s[2]) * 16 + HexValue(s[3])
  {
    hide IsHexDigitOf, HexValue, IsHexDigit;
    HexDigitExactly(s[0], u / 4096);
    HexDigitExactly(s[1], u / 256 % 16);
    HexDigitExactly(s[2], u / 16 % 16);
    HexDigitExactly(s[3], u % 16);
    if IsHexDigit(s[0]) && IsHexDigit(s[1]) && IsHexDigit(s[2]) && IsHexDigit(s[3]) {
      HexValueBound(s[0]);
      HexValueBound(s[1]);
      HexValueBound(s[2]);
      HexValueBound(s[3]);
      BaseSixteen(u, HexValue(s[0]), HexValue(s[1]), HexValue(s[2]), HexValue(s[3]));
    }
  }

  lemma {:induction false} HexValueBound(c: Byte)
    requires IsHexDigit(c)
    ensures HexValue(c) < 16
  {
  }

  /** Four digits are read exactly as the number that they spell. */
  lemma {:induction false} Hex4Exactly(input: Input, p: nat, u: Unit16)
    ensures input.Hex4(p) == Hex(u) <==> p + 4 <= |input.src| && Spells(input.src[p..p + 4], u)
  {
    hide Spells, HexValue, Input.HexDigits;
    Hex4Digits(input, p);
    if p + 4 <= |input.src| {
      SpellsExactly(input.src[p..p + 4], u);
    } else {
      assert !IsHexDigit(NUL);
    }
  }

  lemma {:induction false} Hex4Digits(input: Input, p: nat)
    ensures input.Hex4(p).Hex? <==> IsHexDigit(input.Peek(p)) && IsHexDigit(input.Peek(p + 1)) && IsHexDigit(input.Peek(p + 2))
                                    && IsHexDigit(input.Peek(p + 3))
    ensures input.Hex4(p).Hex? ==>
              input.Hex4(p).value == HexValue(input.Peek(p)) * 4096 + HexValue(input.Peek(p + 1)) * 256
                                     + HexValue(input.Peek(p + 2)) * 16 + HexValue(input.Peek(p + 3))
  {
    hide HexValue, IsHexDigit;
    var a, b, c, d := input.Peek(p), input.Peek(p + 1), input.Peek(p + 2), input.Peek(p + 3);
    if IsHexDigit(a) {
      var u := HexValue(a);
      assert input.HexDigits(p + 1, 3, u) == input.Hex4(p);
      if IsHexDigit(b) {
        var v := u * 16 + HexValue(b);
        assert input.HexDigits(p + 2, 2, v) == input.Hex4(p);
        if IsHexDigit(c) {
          var w := v * 16 + HexValue(c);
          assert input.HexDigits(p + 3, 1, w) == input.Hex4(p);
          if IsHexDigit(d) {
            assert input.HexDigits(p + 4, 0, w * 16 + HexValue(d)) == input.Hex4(p);
          }
        }
      }
    }
  }

  lemma {:induction false} UnescapeExactly(e: Byte)
    ensures forall k :: 0 <= k < 8 ==> Unescape(ESCAPE_LETTERS[k]) == ESCAPED_BYTES[k] != 0
    ensures Unescape(e) != 0 ==> exists k :: 0 <= k < 8 && ESCAPE_LETTERS[k] == e
    ensures Unescape(LOWER_U) == 0
  {
    if Unescape(e) != 0 {
      var k := if e == 0x22 then 0 else if e == 0x5C then 1 else if e == 0x2F then 2 else if e == 0x62 then 3
               else if e == 0x66 then 4 else if e == 0x6E then 5 else if e == 0x72 then 6 else 7;
      assert ESCAPE_LETTERS[k] == e;
    }
  }

  /** The digits of one \u escape are there. */
  predicate CodedAt(input: Input, p: nat, digits: Bytes) {
    input.Peek(p) == BACKSLASH && input.Peek(p + 1) == LOWER_U && |digits| == 4 && At(input, p + 2, digits)
  }

  lemma {:induction false} CodedText(input: Input, p: nat, x: Piece)
    requires IsPiece(x) && x.Coded?
    ensures |PieceText(x)| == 6 * |x.digits|
    ensures At(input, p, PieceText(x)) <==> CodedAt(input, p, x.digits[0]) && (|x.digits| == 2 ==> CodedAt(input, p + 6, x.digits[1]))
  {
    var first := [BACKSLASH, LOWER_U] + x.digits[0];
    OneCoded(input, p, x.digits[0]);
    if |x.digits| == 2 {
      OneCoded(input, p + 6, x.digits[1]);
      var second := [BACKSLASH, LOWER_U] + x.digits[1];
      assert PieceText(x) == first + second;
      if At(input, p, first + second) {
        AtSplit(input, p, first, second);
      }
      if At(input, p, first) && At(input, p + 6, second) {
        AtJoin(input, p, first, second);
      }
    } else {
      assert PieceText(x) == first;
    }
  }

  lemma {:induction false} OneCoded(input: Input, p: nat, digits: Bytes)
    requires |digits| == 4
    ensures At(input, p, [BACKSLASH, LOWER_U] + digits) <==> CodedAt(input, p, digits)
  {
    if At(input, p, [BACKSLASH, LOWER_U] + digits) {
      AtSplit(input, p, [BACKSLASH, LOWER_U], digits);
      AtIndex(input, p, [BACKSLASH, LOWER_U], 0);
      AtIndex(input, p, [BACKSLASH, LOWER_U], 1);
    }
    if CodedAt(input, p, digits) {
      assert input.src[p..p + 2] == [BACKSLASH, LOWER_U];
      AtJoin(input, p, [BACKSLASH, LOWER_U], digits);
    }
  }

  /** The escapes for a scalar value are read as that value: one of its own code unit, or the two of a high and a low
      surrogate. */
  lemma {:induction false} ReadsCoded(input: Input, p: nat, x: Piece)
    requires IsPiece(x) && x.Coded? && At(input, p, PieceText(x))
    ensures input.UnicodeEscape(p) == Escaped(p + |PieceText(x)|, x.codepoint)
  {
    hide Input.HexDigits, Spells;
    CodedText(input, p, x);
    var units := EncodeUtf16(x.codepoint);
    Hex4Exactly(input, p + 2, units[0]);
    if |units| == 2 {
      Hex4Exactly(input, p + 8, units[1]);
    }
  }

  /** And no others are read. */
  lemma {:induction false} EscapeIsCoded(input: Input, p: nat) returns (x: Piece)
    requires input.Peek(p) == BACKSLASH && input.Peek(p + 1) == LOWER_U && input.UnicodeEscape(p).Escaped?
    ensures IsPiece(x) && x.Coded? && At(input, p, PieceText(x))
    ensures input.UnicodeEscape(p) == Escaped(p + |PieceText(x)|, x.codepoint)
  {
    hide Input.HexDigits, Spells;
    var e := input.UnicodeEscape(p);
    var units := EncodeUtf16(e.codepoint);
    Hex4Exactly(input, p + 2, input.Hex4(p + 2).value);
    if e.end == p + 6 {
      x := Coded(e.codepoint, [input.src[p + 2..p + 6]]);
    } else {
      Hex4Exactly(input, p + 8, input.Hex4(p + 8).value);
      x := Coded(e.codepoint, [input.src[p + 2..p + 6], input.src[p + 8..p + 12]]);
    }
    CodedText(input, p, x);
  }

  lemma {:induction false} ReadsPiece(input: Input, p: nat, x: Piece, text: Bytes)
    requires IsPiece(x) && At(input, p, PieceText(x))
    ensures input.ScanString(p, text) == input.ScanString(p + |PieceText(x)|, text + PieceBytes(x))
  {
    hide Input.UnicodeEscape, Unescape, EncodeUtf8, Spells;
    AtIndex(input, p, PieceText(x), 0);
    match x
    case Plain(c) =>
    case Short(k) =>
      AtIndex(input, p, PieceText(x), 1);
      UnescapeExactly(ESCAPE_LETTERS[k]);
    case Coded(c, digits) =>
      AtIndex(input, p, PieceText(x), 1);
      UnescapeExactly(LOWER_U);
      ReadsCoded(input, p, x);
  }

  /** What comes next in a string that is read, unless it is the quotation mark. */
  lemma {:induction false} NextPiece(input: Input, p: nat, text: Bytes) returns (x: Piece)
    requires p <= |input.src| && input.ScanString(p, text).StrOk? && input.Peek(p) != QUOTE
    ensures IsPiece(x) && PieceText(x) != [] && At(input, p, PieceText(x))
  {
    hide Input.UnicodeEscape, Unescape, EncodeUtf8, Spells;
    var c, e := input.Peek(p), input.Peek(p + 1);
    if c != BACKSLASH {
      ByteAt(input, p);
      x := Plain(c);
    } else if Unescape(e) != 0 {
      UnescapeExactly(e);
      var k :| 0 <= k < 8 && ESCAPE_LETTERS[k] == e;
      UnescapeIsThere(e);
      assert input.src[p..p + 2] == [BACKSLASH, e];
      x := Short(k);
    } else {
      x := EscapeIsCoded(input, p);
    }
  }

  lemma {:induction false} UnescapeIsThere(e: Byte)
    requires Unescape(e) != 0
    ensures e != NUL
  {
  }

  /** Pieces up to a quotation mark are read as the bytes that they stand for. */
  lemma {:induction false} ReadsPieces(input: Input, p: nat, xs: seq<Piece>, text: Bytes)
    requires ArePieces(xs) && At(input, p, PiecesText(xs) + [QUOTE])
    ensures input.ScanString(p, text) == StrOk(p + |PiecesText(xs)| + 1, text + PiecesBytes(xs))
    decreases |xs|
  {
    hide IsPiece, PieceText, PieceBytes, Input.ScanString;
    if xs == [] {
      AtIndex(input, p, [] + [QUOTE], 0);
      EndsString(input, p, text);
      assert text + [] == text;
    } else {
      var first, rest := PieceText(xs[0]), PiecesText(xs[1..]) + [QUOTE];
      assert PiecesText(xs) + [QUOTE] == first + rest;
      AtSplit(input, p, first, rest);
      ReadsPiece(input, p, xs[0], text);
      ReadsPieces(input, p + |first|, xs[1..], text + PieceBytes(xs[0]));
      assert text + PieceBytes(xs[0]) + PiecesBytes(xs[1..]) == text + PiecesBytes(xs);
    }
  }

  lemma {:induction false} EndsString(input: Input, p: nat, text: Bytes)
    requires p <= |input.src| && input.Peek(p) == QUOTE
    ensures input.ScanString(p, text) == StrOk(p + 1, text)
  {
  }

  /** Whatever is read as a string is pieces up to a quotation mark. */
  lemma {:induction false} StringIsPieces(input: Input, p: nat, text: Bytes) returns (xs: seq<Piece>)
    requires p <= |input.src| && input.ScanString(p, text).StrOk?
    ensures ArePieces(xs) && At(input, p, PiecesText(xs) + [QUOTE])
    ensures input.ScanString(p, text) == StrOk(p + |PiecesText(xs)| + 1, text + PiecesBytes(xs))
    decreases |input.src| - p
  {
    hide IsPiece, PieceText, PieceBytes, Input.ScanString;
    xs := [];
    if input.Peek(p) == QUOTE {
      ByteAt(input, p);
      assert PiecesText([]) + [QUOTE] == [QUOTE];
    } else {
      var x := NextPiece(input, p, text);
      ReadsPiece(input, p, x, text);
      var rest := StringIsPieces(input, p + |PieceText(x)|, text + PieceBytes(x));
      xs := [x] + rest;
      assert xs[1..] == rest;
      AtJoin(input, p, PieceText(x), PiecesText(rest) + [QUOTE]);
      assert PieceText(x) + (PiecesText(rest) + [QUOTE]) == PiecesText(xs) + [QUOTE];
    }
    ReadsPieces(input, p, xs, text);
  }

  /** Escapes for any scalar values are read as the UTF-8 text of these values. */
  lemma {:induction false} CodedTextIsUtf8(xs: seq<Piece>, cs: seq<nat>)
    requires ArePieces(xs) && AllScalar(cs) && |xs| == |cs|
    requires forall i :: 0 <= i < |xs| ==> xs[i].Coded? && xs[i].codepoint == cs[i]
    ensures PiecesBytes(xs) == Utf8Text(cs)
    decreases |xs|
  {
    hide IsPiece, EncodeUtf8;
    if xs != [] {
      CodedTextIsUtf8(xs[1..], cs[1..]);
    }
  }

  // ------------------------------------------------------------ numbers

  datatype Exponent = Exponent(letter: Byte, sign: Bytes, digits: Bytes)

  datatype Numeral = Numeral(minus: bool, integer: Bytes, fraction: Option<Bytes>, exponent: Option<Exponent>)

  predicate IsDigits(s: Bytes) {
    s != [] && AllDigits(s)
  }

  /** Section 6: no leading zeros, and at least one digit in each part. */
  predicate IsNumeral(n: Numeral) {
    && IsDigits(n.integer) && (n.integer[0] == DIGIT_0 ==> |n.integer| == 1)
    && (n.fraction.Some? ==> IsDigits(n.fraction.value))
    && (n.exponent.Some? ==>
          && n.exponent.value.letter in [LOWER_E, UPPER_E] && n.exponent.value.sign in [[], [PLUS], [MINUS]]
          && IsDigits(n.exponent.value.digits))
  }

  function FractionText(n: Numeral): Bytes {
    if n.fraction.Some? then [DOT] + n.fraction.value else []
  }

  function ExponentText(n: Numeral): Bytes {
    if n.exponent.Some? then [n.exponent.value.letter] + n.exponent.value.sign + n.exponent.value.digits else []
  }

  function NumeralText(n: Numeral): Bytes {
    (if n.minus then [MINUS] else []) + (n.integer + (FractionText(n) + ExponentText(n)))
  }

  /** A numeral without fraction and exponent that fits 64 bits is an integer. */
  predicate IsIntegral(n: Numeral)
    requires IsNumeral(n)
  {
    n.fraction.None? && n.exponent.None? && Decimal(n.integer) <= if n.minus then 0x8000_0000_0000_0000 else 0xFFFF_FFFF_FFFF_FFFF
  }

  /** The event of a numeral: for an integer that of its value, by the narrowest of the signed types if there is a minus sign
      and of the unsigned ones if there is none; otherwise a double with the text. */
  predicate IsEventOf(n: Numeral, e: Event)
    requires IsNumeral(n)
  {
    if !IsIntegral(n) then e == Double(NumeralText(n))
    else if n.minus then
      (e.Int? || (e.Int64? && e.i < -0x8000_0000)) && e.i == 0 - Decimal(n.integer) && (e.Int? ==> e.i >= -0x8000_0000)
    else
      (e.Uint? || (e.Uint64? && e.i >= 0x1_0000_0000)) && e.i == Decimal(n.integer) && (e.Uint? ==> e.i < 0x1_0000_0000)
  }

  function LeadingZeros(s: Bytes): nat {
    if s == [] || s[0] != DIGIT_0 then 0 else 1 + LeadingZeros(s[1..])
  }

  function Min(m: nat, n: nat): nat {
    if m < n then m else n
  }

  /** How many digits of the fraction count for the exponent: with an integer part all up to 18 digits together, without
      one all up to the 17th behind the zeros. */
  function Counted(n: Numeral): nat
    requires IsNumeral(n)
  {
    match n.fraction
    case None => 0
    case Some(f) =>
      if n.integer == [DIGIT_0] then Min(|f|, LeadingZeros(f) + 17)
      else if |n.integer| >= 18 then 0 else Min(|f|, 18 - |n.integer|)
  }

  /** A numeral that is refused: its exponent is more than 308 and the digits that count, or it is a double that
      overflows. */
  predicate IsTooBig(n: Numeral, overflows: Bytes -> bool)
    requires IsNumeral(n)
  {
    || (n.exponent.Some? && n.exponent.value.sign != [MINUS] && Decimal(n.exponent.value.digits) > 308 + Counted(n))
    || (!IsIntegral(n) && overflows(NumeralText(n)))
  }

  /** What follows is not part of the numeral. */
  predicate Delimits(n: Numeral, c: Byte)
    requires IsNumeral(n)
  {
    if n.exponent.Some? then !IsDigit(c)
    else if n.fraction.Some? then !IsDigit(c) && c != LOWER_E && c != UPPER_E
    else (IsDigit(c) ==> n.integer == [DIGIT_0]) && c != DOT && c != LOWER_E && c != UPPER_E
  }

  lemma {:induction false} DigitsEndHere(input: Input, p: nat, digits: Bytes)
    requires At(input, p, digits) && AllDigits(digits) && !IsDigit(input.Peek(p + |digits|))
    ensures input.DigitsEnd(p) == p + |digits|
    decreases |digits|
  {
    if digits != [] {
      assert digits == [digits[0]] + digits[1..];
      AtByte(input, p, digits[0], digits[1..]);
      DigitsEndHere(input, p + 1, digits[1..]);
    }
  }

  // The digits that count.

  /** How many more digits there are, and how many of them count behind `digits` significant ones. */
  function Taken(input: Input, p: nat, digits: nat): nat
    requires p <= |input.src|
  {
    Min(input.DigitsEnd(p) - p, if digits < 17 then 17 - digits else 0)
  }

  lemma {:induction false} TakenNext(input: Input, p: nat, digits: nat)
    requires p < |input.src| && IsDigit(input.src[p])
    ensures input.DigitsEnd(p) == input.DigitsEnd(p + 1)
    ensures Taken(input, p, digits) == if digits < 17 then 1 + Taken(input, p + 1, digits + 1) else 0
    ensures digits >= 17 ==> Taken(input, p + 1, digits) == 0
  {
  }

  lemma {:induction false} TakenNone(input: Input, p: nat, digits: nat)
    requires p <= |input.src| && !IsDigit(input.Peek(p))
    ensures Taken(input, p, digits) == 0
  {
  }

  lemma {:induction false} DigitsFit(significand: nat, digits: nat, d: nat)
    requires Pow10(digits) <= 10 * significand && significand <= 0x1F_FFFF_FFFF_FFFF
    ensures digits < 17 && Pow10(digits + 1) <= 10 * (significand * 10 + d)
  {
    Pow10Of17();
    if digits >= 17 {
      Pow10Monotone(17, digits);
    }
  }

  /** After one more fast digit. */
  function NextFast(input: Input, f: Fraction): Fraction
    requires f.end < |input.src| && IsDigit(input.src[f.end])
  {
    var m := f.significand * 10 + DigitValue(input.src[f.end]);
    Fraction(f.end + 1, m, m != 0, f.expFrac - 1, if m != 0 then f.digits + 1 else f.digits)
  }

  lemma {:induction false} FastStep(input: Input, f: Fraction)
    requires f.end <= |input.src|
    ensures input.FastFraction(f)
            == if f.end < |input.src| && IsDigit(input.src[f.end]) && f.significand <= 0x1F_FFFF_FFFF_FFFF
               then input.FastFraction(NextFast(input, f)) else f
  {
    hide IsDigit;
  }

  /** While the significand fits 53 bits it has at most 16 digits. */
  lemma {:induction false} FastCounts(input: Input, f: Fraction)
    requires f.end <= |input.src| && f.significand > 0 && f.nonzero && Pow10(f.digits) <= 10 * f.significand
    ensures var g := input.FastFraction(f); var k := g.end - f.end;
            && g.expFrac == f.expFrac - k && g.digits == f.digits + k && g.nonzero
            && k <= Taken(input, f.end, f.digits) && input.DigitsEnd(f.end) == input.DigitsEnd(g.end)
    decreases |input.src| - f.end
  {
    hide Pow10, Input.DigitsEnd, Taken, Input.FastFraction, IsDigit;
    FastStep(input, f);
    if f.end < |input.src| && IsDigit(input.src[f.end]) && f.significand <= 0x1F_FFFF_FFFF_FFFF {
      TakenNext(input, f.end, f.digits);
      DigitsFit(f.significand, f.digits, DigitValue(input.src[f.end]));
      FastCounts(input, NextFast(input, f));
    }
  }


  lemma {:induction false} SlowCounts(input: Input, f: Fraction)
    requires f.end <= |input.src| && f.nonzero
    ensures input.SlowFraction(f).expFrac == f.expFrac - Taken(input, f.end, f.digits)
    decreases |input.src| - f.end
  {
    hide Input.DigitsEnd, Taken;
    if f.end < |input.src| && IsDigit(input.src[f.end]) {
      TakenNext(input, f.end, f.digits);
      if f.digits < 17 {
        SlowCounts(input, Fraction(f.end + 1, f.significand, true, f.expFrac - 1, f.digits + 1));
      } else {
        SlowCounts(input, f.(end := f.end + 1));
      }
    } else {
      TakenNone(input, f.end, f.digits);
    }
  }

  lemma {:induction false} BothCount(input: Input, f: Fraction)
    requires f.end <= |input.src| && f.significand > 0 && f.nonzero && Pow10(f.digits) <= 10 * f.significand
    ensures input.SlowFraction(input.FastFraction(f)).expFrac == f.expFrac - Taken(input, f.end, f.digits)
  {
    hide Input.FastFraction, Input.SlowFraction, Input.DigitsEnd, Pow10;
    FastCounts(input, f);
    SlowCounts(input, input.FastFraction(f));
  }

  lemma {:induction false} SlowStops(input: Input, f: Fraction)
    requires f.end <= |input.src| && !IsDigit(input.Peek(f.end))
    ensures input.SlowFraction(f) == f
  {
  }

  lemma {:induction false} Pow10One()
    ensures Pow10(1) == 10
  {
  }

  /** Behind an integer part of zero the zeros of the fraction count too. */
  lemma {:induction false} ZerosCount(input: Input, f: Fraction, digits: Bytes)
    requires f.end <= |input.src| && f.significand == 0 && !f.nonzero && f.digits == 0
    requires digits == input.src[f.end..input.DigitsEnd(f.end)]
    ensures input.SlowFraction(input.FastFraction(f)).expFrac == f.expFrac - Min(|digits|, LeadingZeros(digits) + 17)
    decreases |digits|
  {
    hide Input.SlowFraction, Input.FastFraction, Pow10;
    FastStep(input, f);
    if digits == [] {
      SlowStops(input, f);
    } else {
      var g := NextFast(input, f);
      assert digits[0] == input.src[f.end] && digits[1..] == input.src[g.end..input.DigitsEnd(g.end)];
      if g.significand == 0 {
        ZerosCount(input, g, digits[1..]);
      } else {
        assert Pow10(1) == 10 by { Pow10One(); }
        BothCount(input, g);
      }
    }
  }

  lemma {:induction false} DecimalAtLeast(s: Bytes)
    requires IsDigits(s) && s[0] != DIGIT_0
    ensures Pow10(|s| - 1) <= Decimal(s)
    decreases |s|
  {
    if |s| > 1 {
      DecimalAtLeast(s[..|s| - 1]);
    } else {
      assert s[..0] == [];
    }
  }

  lemma {:induction false} ZeroIsZero()
    ensures Decimal([DIGIT_0]) == 0
  {
    assert [DIGIT_0][..0] == [];
  }

  /** The digits of the fraction that the reader counts are those that count. */
  lemma {:induction false} CountsDigits(input: Input, p: nat, n: Numeral)
    requires IsNumeral(n) && n.fraction.Some? && At(input, p, n.fraction.value) && !IsDigit(input.Peek(p + |n.fraction.value|))
    ensures FitsInt(n.minus, Decimal(n.integer)) ==>
              input.FractionAt(p, Decimal(n.integer), |n.integer| - 1).expFrac == 0 - Counted(n)
    ensures !FitsInt(n.minus, Decimal(n.integer)) ==> Counted(n) == 0
  {
    hide Input.FastFraction, Input.SlowFraction, Input.DigitsEnd, Pow10, LeadingZeros;
    var v, digits := Decimal(n.integer), n.fraction.value;
    DigitsEndHere(input, p, digits);
    if !FitsInt(n.minus, v) {
      DigitsOfLargeNumber(n.integer);
      assert n.integer != [DIGIT_0];
    } else if n.integer == [DIGIT_0] {
      ZeroIsZero();
      ZerosCount(input, Fraction(p, 0, false, 0, 0), digits);
    } else {
      DecimalAtLeast(n.integer);
      Pow10Monotone(0, |n.integer| - 1);
      BothCount(input, Fraction(p, v, true, 0, |n.integer| - 1));
    }
  }

  lemma {:induction false} AtFits(input: Input, p: nat, text: Bytes)
    requires At(input, p, text)
    ensures p + |text| <= |input.src|
  {
  }

  lemma {:induction false} NumeralParts(n: Numeral)
    requires IsNumeral(n)
    ensures IsDigits(n.integer) && (n.integer != [DIGIT_0] ==> n.integer[0] != DIGIT_0)
    ensures n.fraction.Some? ==> IsDigits(n.fraction.value)
    ensures n.exponent.Some? ==> IsDigits(n.exponent.value.digits) && |n.exponent.value.sign| <= 1
  {
  }

  lemma {:induction false} DigitsAndValue(input: Input, q: nat, digits: Bytes)
    requires At(input, q, digits) && IsDigits(digits) && !IsDigit(input.Peek(q + |digits|))
    ensures IsDigit(input.Peek(q)) && q + |digits| == input.DigitsEnd(q) <= |input.src| && input.DigitsValue(q) == Decimal(digits)
  {
    hide Input.DigitsEnd, At, Decimal;
    FirstDigit(input, q, digits);
    DigitsEndHere(input, q, digits);
    DigitsHere(input, q, digits);
  }

  lemma {:induction false} ExponentTextOf(n: Numeral)
    requires n.exponent.Some?
    ensures var x := n.exponent.value; ExponentText(n) == [x.letter] + (x.sign + x.digits)
  {
  }

  lemma {:induction false} ExponentParts(input: Input, r: nat, n: Numeral)
    requires IsNumeral(n) && n.exponent.Some? && At(input, r, ExponentText(n)) && !IsDigit(input.Peek(r + |ExponentText(n)|))
    ensures var x := n.exponent.value; var q := r + 1 + |x.sign|;
            && input.Peek(r) == x.letter && (x.sign != [] ==> input.Peek(r + 1) == x.sign[0]) && IsDigit(input.Peek(q))
            && r + |ExponentText(n)| == q + |x.digits| == input.DigitsEnd(q) <= |input.src|
            && input.DigitsValue(q) == Decimal(x.digits)
  {
    hide Input.DigitsEnd, Input.DigitsValue, At, Input.Peek, IsNumeral, Decimal, IsDigit, IsDigits, ExponentText;
    var x := n.exponent.value;
    var q := r + 1 + |x.sign|;
    NumeralParts(n);
    ExponentTextOf(n);
    AtByte(input, r, x.letter, x.sign + x.digits);
    AtSplit(input, r + 1, x.sign, x.digits);
    if x.sign != [] {
      AtIndex(input, r + 1, x.sign, 0);
    }
    DigitsAndValue(input, q, x.digits);
  }

  /** What is left of a numeral behind its fraction. */
  lemma {:induction false} ReadsExponent(input: Input, p: nat, r: nat, n: Numeral, e: Event)
    requires IsNumeral(n) && p < r && At(input, r, ExponentText(n)) && Delimits(n, input.Peek(r + |ExponentText(n)|)) && IsScalar(e)
    ensures var end := r + |ExponentText(n)|;
            end <= |input.src|
            && input.AfterFraction(p, r, 0 - Counted(n), e)
               == if n.exponent.Some? && n.exponent.value.sign != [MINUS] && Decimal(n.exponent.value.digits) > 308 + Counted(n)
                  then NumErr(NumberTooBig, p)
                  else if n.exponent.Some? || e.Double? then input.DoubleAt(p, end)
                  else NumOk(end, e)
  {
    hide Counted, Input.DigitsEnd, Input.DigitsValue, Input.DoubleAt, At, ExponentText;
    AtFits(input, r, ExponentText(n));
    LengthOfBoth(n);
    if n.exponent.Some? {
      ExponentParts(input, r, n);
    }
  }

  lemma {:induction false} DoubleThere(input: Input, p: nat, text: Bytes)
    requires At(input, p, text) && text != []
    ensures input.DoubleAt(p, p + |text|) == if input.overflows(text) then NumErr(NumberTooBig, p) else NumOk(p + |text|, Double(text))
  {
  }

  lemma {:induction false} DigitsHere(input: Input, p: nat, digits: Bytes)
    requires At(input, p, digits)
    ensures p + |digits| <= |input.src| && input.src[p..p + |digits|] == digits
  {
  }

  lemma {:induction false} FirstDigit(input: Input, p: nat, digits: Bytes)
    requires At(input, p, digits) && IsDigits(digits)
    ensures IsDigit(input.Peek(p))
  {
    AtIndex(input, p, digits, 0);
  }

  /** Behind the integer part. */
  lemma {:induction false} ReadsFraction(input: Input, p: nat, q: nat, n: Numeral)
    requires IsNumeral(n) && p <= q && At(input, q, n.integer) && At(input, q + |n.integer|, FractionText(n))
    requires var s := q + |n.integer| + |FractionText(n)|;
             if n.fraction.Some? then !IsDigit(input.Peek(s)) else input.Peek(s) != DOT
    ensures var r := q + |n.integer|;
            && r <= |input.src| && input.src[q..r] == n.integer
            && input.AfterInteger(p, n.minus, q, r)
               == input.AfterFraction(p, r + |FractionText(n)|, 0 - Counted(n),
                                      if n.fraction.Some? then Double([]) else IntegerEvent(n.minus, Decimal(n.integer)))
  {
    hide Input.AfterFraction, Input.FractionAt, FitsInt, IntegerEvent, Input.DigitsEnd, Counted, Decimal, At, FractionText, IsNumeral, IsDigit;
    var r := q + |n.integer|;
    NumeralParts(n);
    DigitsHere(input, q, n.integer);
    LengthOfBoth(n);
    if n.fraction.Some? {
      FractionBegins(input, r, n);
      FirstDigit(input, r + 1, n.fraction.value);
      DigitsEndHere(input, r + 1, n.fraction.value);
      CountsDigits(input, r + 1, n);
    } else {
      NothingCounted(n);
    }
  }

  /** A numeral with its integer part at `q`. */
  lemma {:induction false} ReadsAfterInteger(input: Input, p: nat, q: nat, n: Numeral)
    requires IsNumeral(n) && p <= q && At(input, q, n.integer + (FractionText(n) + ExponentText(n)))
    requires At(input, p, NumeralText(n)) && p + |NumeralText(n)| == q + |n.integer| + |FractionText(n)| + |ExponentText(n)|
    requires Delimits(n, input.Peek(p + |NumeralText(n)|))
    ensures var r, end := q + |n.integer|, p + |NumeralText(n)|;
            && r <= |input.src| && AllDigits(input.src[q..r])
            && Settles(n, input.overflows, p, end, input.AfterInteger(p, n.minus, q, r))
  {
    hide Counted, Input.AfterFraction, NumeralText, Input.AfterInteger, IntegerEvent, Input.DoubleAt, ExponentText, At, FractionText, Delimits;
    var r := q + |n.integer|;
    AtSplit(input, q, n.integer, FractionText(n) + ExponentText(n));
    AtSplit(input, r, FractionText(n), ExponentText(n));
    var s := r + |FractionText(n)|;
    NumeralTextIsThere(n);
    DoubleThere(input, p, NumeralText(n));
    FirstBehind(input, s, n);
    IntegerEventExactly(n);
    ReadsFraction(input, p, q, n);
    ReadsExponent(input, p, s, n, if n.fraction.Some? then Double([]) else IntegerEvent(n.minus, Decimal(n.integer)));
  }

  /** The outcome that a numeral must have. */
  predicate Settles(n: Numeral, overflows: Bytes -> bool, p: nat, end: nat, r: NumberScan)
    requires IsNumeral(n)
  {
    if IsTooBig(n, overflows) then r == NumErr(NumberTooBig, p) else r.NumOk? && r.end == end && IsEventOf(n, r.event)
  }

  lemma {:induction false} NumeralTextIsThere(n: Numeral)
    requires IsNumeral(n)
    ensures NumeralText(n) != []
  {
  }

  lemma {:induction false} NothingCounted(n: Numeral)
    requires IsNumeral(n) && n.fraction.None?
    ensures Counted(n) == 0
  {
  }

  /** Behind the fraction there is no more digit. */
  lemma {:induction false} FirstBehind(input: Input, s: nat, n: Numeral)
    requires IsNumeral(n) && At(input, s, ExponentText(n)) && Delimits(n, input.Peek(s + |ExponentText(n)|))
    ensures n.fraction.Some? || n.exponent.Some? ==> !IsDigit(input.Peek(s))
    ensures n.fraction.None? ==> input.Peek(s) != DOT
  {
    if n.exponent.Some? {
      AtIndex(input, s, ExponentText(n), 0);
    }
  }

  lemma {:induction false} IntegerEventExactly(n: Numeral)
    requires IsNumeral(n)
    ensures var e := IntegerEvent(n.minus, Decimal(n.integer));
            IsScalar(e) && (n.fraction.None? && n.exponent.None? ==>
                              if IsIntegral(n) then !e.Double? && IsEventOf(n, e) else e == Double([]))
  {
  }

  lemma {:induction false} LengthOfBoth(n: Numeral)
    ensures |FractionText(n) + ExponentText(n)| == |FractionText(n)| + |ExponentText(n)|
    ensures |FractionText(n)| == if n.fraction.Some? then 1 + |n.fraction.value| else 0
    ensures n.exponent.None? ==> ExponentText(n) == []
  {
  }

  lemma {:induction false} FractionBegins(input: Input, r: nat, n: Numeral)
    requires n.fraction.Some? && At(input, r, FractionText(n))
    ensures input.Peek(r) == DOT && At(input, r + 1, n.fraction.value)
  {
    hide At;
    AtByte(input, r, DOT, n.fraction.value);
  }

  lemma {:induction false} IntegerEnds(input: Input, q: nat, n: Numeral)
    requires IsNumeral(n) && n.integer != [DIGIT_0] && At(input, q, n.integer + (FractionText(n) + ExponentText(n)))
    requires Delimits(n, input.Peek(q + |n.integer| + |FractionText(n)| + |ExponentText(n)|))
    ensures input.DigitsEnd(q) == q + |n.integer|
  {
    hide Input.DigitsEnd, At, Input.Peek, FractionText, ExponentText;
    var r := q + |n.integer|;
    AtSplit(input, q, n.integer, FractionText(n) + ExponentText(n));
    AtSplit(input, r, FractionText(n), ExponentText(n));
    FirstBehind(input, r + |FractionText(n)|, n);
    LengthOfBoth(n);
    if n.fraction.Some? {
      FractionBegins(input, r, n);
    }
    DigitsEndHere(input, q, n.integer);
  }

  /** A numeral that is delimited is read as its event, unless it is too big. */
  lemma {:induction false} ReadsNumeral(input: Input, p: nat, n: Numeral)
    requires IsNumeral(n) && At(input, p, NumeralText(n)) && Delimits(n, input.Peek(p + |NumeralText(n)|))
    ensures Settles(n, input.overflows, p, p + |NumeralText(n)|, input.NumberAt(p))
  {
    hide Input.AfterInteger, Input.DigitsEnd, Settles, At, FractionText, ExponentText, Delimits;
    var rest := n.integer + (FractionText(n) + ExponentText(n));
    var q := if n.minus then p + 1 else p;
    AtSplit(input, p, if n.minus then [MINUS] else [], rest);
    if n.minus {
      AtIndex(input, p, [MINUS], 0);
    }
    AtIndex(input, q, rest, 0);
    ReadsAfterInteger(input, p, q, n);
    if n.integer[0] != DIGIT_0 {
      IntegerEnds(input, q, n);
    }
  }

  lemma {:induction false} AtRange(input: Input, p: nat, q: nat)
    requires p <= q <= |input.src|
    ensures At(input, p, input.src[p..q])
  {
  }

  /** The digits at a place where there is one. */
  lemma {:induction false} DigitsThere(input: Input, p: nat)
    requires IsDigit(input.Peek(p))
    ensures var q := input.DigitsEnd(p); p < q <= |input.src| && IsDigits(input.src[p..q]) && At(input, p, input.src[p..q]) && !IsDigit(input.Peek(q))
  {
    AtRange(input, p, input.DigitsEnd(p));
  }

  lemma {:induction false} ExponentThere(input: Input, r: nat, q: nat) returns (n: Numeral)
    requires input.Peek(r) == LOWER_E || input.Peek(r) == UPPER_E
    requires q == (if input.Peek(r + 1) == PLUS || input.Peek(r + 1) == MINUS then r + 2 else r + 1) && IsDigit(input.Peek(q))
    ensures IsNumeral(n) && n.exponent.Some? && At(input, r, ExponentText(n)) && !IsDigit(input.Peek(r + |ExponentText(n)|))
  {
    hide Input.DigitsEnd, At;
    DigitsThere(input, q);
    var digits, sign := input.src[q..input.DigitsEnd(q)], [];
    ByteAt(input, r);
    if q == r + 2 {
      sign := [input.Peek(r + 1)];
      ByteAt(input, r + 1);
    }
    AtRange(input, r + 1, r + 1);
    n := Numeral(false, [DIGIT_0], None, Some(Exponent(input.Peek(r), sign, digits)));
    AtJoin(input, r, [input.Peek(r)], sign);
    AtJoin(input, r, [input.Peek(r)] + sign, digits);
  }

  /** The number is whole: it is read, or refused as too big. */
  predicate IsWhole(r: NumberScan) {
    r.NumOk? || r.code == NumberTooBig
  }

  /** Behind the fraction there is a whole exponent or none. */
  lemma {:induction false} FindExponent(input: Input, p: nat, r: nat, expFrac: int, e: Event) returns (x: Option<Exponent>)
    requires p < r <= |input.src| && IsScalar(e) && IsWhole(input.AfterFraction(p, r, expFrac, e))
    ensures var n := Numeral(false, [DIGIT_0], None, x);
            && IsNumeral(n) && At(input, r, ExponentText(n))
            && (if x.Some? then !IsDigit(input.Peek(r + |ExponentText(n)|)) else input.Peek(r) != LOWER_E && input.Peek(r) != UPPER_E)
  {
    hide Input.DigitsEnd, ExponentText, IsNumeral, Input.DoubleAt, Input.DigitsValue;
    if input.Peek(r) == LOWER_E || input.Peek(r) == UPPER_E {
      var n := ExponentThere(input, r, if input.Peek(r + 1) == PLUS || input.Peek(r + 1) == MINUS then r + 2 else r + 1);
      x := n.exponent;
      OnlyExponent(n);
    } else {
      x := None;
      NoExponent(input, r);
    }
  }

  lemma {:induction false} OnlyExponent(n: Numeral)
    requires IsNumeral(n)
    ensures var m := Numeral(false, [DIGIT_0], None, n.exponent); IsNumeral(m) && ExponentText(m) == ExponentText(n)
  {
  }

  lemma {:induction false} NoExponent(input: Input, r: nat)
    requires r <= |input.src|
    ensures var n := Numeral(false, [DIGIT_0], None, None); IsNumeral(n) && At(input, r, ExponentText(n)) && At(input, r, FractionText(n))
  {
  }

  lemma {:induction false} AddFraction(x: Option<Exponent>, digits: Bytes) returns (n: Numeral)
    requires IsNumeral(Numeral(false, [DIGIT_0], None, x)) && IsDigits(digits)
    ensures n == Numeral(false, [DIGIT_0], Some(digits), x) && IsNumeral(n)
    ensures ExponentText(n) == ExponentText(Numeral(false, [DIGIT_0], None, x)) && FractionText(n) == [DOT] + digits
  {
    n := Numeral(false, [DIGIT_0], Some(digits), x);
  }

  lemma {:induction false} WithFraction(input: Input, p: nat, r: nat, expFrac: int) returns (n: Numeral)
    requires p < r && input.Peek(r) == DOT && IsDigit(input.Peek(r + 1)) && IsWhole(input.AfterFraction(p, input.DigitsEnd(r + 1), expFrac, Double([])))
    ensures IsNumeral(n) && At(input, r, FractionText(n) + ExponentText(n))
    ensures n.integer == [DIGIT_0] && Delimits(n, input.Peek(r + |FractionText(n) + ExponentText(n)|))
  {
    hide Input.AfterFraction, Input.DigitsEnd, ExponentText, At, IsNumeral, FractionText, IsDigits, IsDigit;
    DigitsThere(input, r + 1);
    var s := input.DigitsEnd(r + 1);
    var x := FindExponent(input, p, s, expFrac, Double([]));
    n := AddFraction(x, input.src[r + 1..s]);
    LengthOfBoth(n);
    ByteAt(input, r);
    AtJoin(input, r, [DOT], input.src[r + 1..s]);
    AtJoin(input, r, FractionText(n), ExponentText(n));
  }

  lemma {:induction false} WithoutFraction(input: Input, p: nat, r: nat, e: Event) returns (n: Numeral)
    requires p < r <= |input.src| && input.Peek(r) != DOT && IsScalar(e) && IsWhole(input.AfterFraction(p, r, 0, e))
    ensures IsNumeral(n) && At(input, r, FractionText(n) + ExponentText(n))
    ensures n.integer == [DIGIT_0] && Delimits(n, input.Peek(r + |FractionText(n) + ExponentText(n)|))
  {
    hide Input.AfterFraction, Input.DigitsEnd, ExponentText;
    var x := FindExponent(input, p, r, 0, e);
    n := Numeral(false, [DIGIT_0], None, x);
    LengthOfBoth(n);
    AtJoin(input, r, FractionText(n), ExponentText(n));
  }

  /** Behind the integer part there is a whole fraction or none, and a whole exponent or none. */
  lemma {:induction false} FindFraction(input: Input, p: nat, minus: bool, q: nat, r: nat) returns (n: Numeral)
    requires p <= q < r <= |input.src| && AllDigits(input.src[q..r]) && IsWhole(input.AfterInteger(p, minus, q, r))
    ensures IsNumeral(n) && At(input, r, FractionText(n) + ExponentText(n))
    ensures n.integer == [DIGIT_0] && Delimits(n, input.Peek(r + |FractionText(n) + ExponentText(n)|))
  {
    hide Input.AfterFraction, Input.DigitsEnd, IntegerEvent, Input.FractionAt, FitsInt, Decimal, FractionText, ExponentText, At, Delimits, IsNumeral;
    var v := Decimal(input.src[q..r]);
    if input.Peek(r) == DOT {
      n := WithFraction(input, p, r, if FitsInt(minus, v) then input.FractionAt(r + 1, v, r - q - 1).expFrac else 0);
    } else {
      IntegerEventIsScalar(minus, v);
      n := WithoutFraction(input, p, r, IntegerEvent(minus, v));
    }
  }


  lemma {:induction false} IntegerEventIsScalar(minus: bool, n: nat)
    ensures IsScalar(IntegerEvent(minus, n))
  {
  }

  /** The sign, the integer part and what is left of a number that is read. */
  lemma {:induction false} FindInteger(input: Input, p: nat) returns (minus: bool, q: nat, r: nat)
    requires p <= |input.src| && IsWhole(input.NumberAt(p))
    ensures q == (if minus then p + 1 else p) && q < r <= |input.src|
    ensures At(input, p, if minus then [MINUS] else []) && At(input, q, input.src[q..r])
    ensures IsDigits(input.src[q..r]) && (input.src[q] == DIGIT_0 ==> r == q + 1) && IsWhole(input.AfterInteger(p, minus, q, r))
    ensures input.src[q..r] == [DIGIT_0] || !IsDigit(input.Peek(r))
  {
    hide Input.AfterInteger, Input.DigitsEnd;
    minus := input.Peek(p) == MINUS;
    q := if minus then p + 1 else p;
    DigitsThere(input, q);
    r := if input.Peek(q) == DIGIT_0 then q + 1 else input.DigitsEnd(q);
    if minus {
      ByteAt(input, p);
    } else {
      AtRange(input, p, p);
    }
    AtRange(input, q, r);
    assert input.Peek(q) == DIGIT_0 ==> input.src[q..r] == [DIGIT_0];
  }

  /** Whatever is read as a number, or is too big to be, is a numeral. */
  lemma {:induction false} NumberIsNumeral(input: Input, p: nat) returns (n: Numeral)
    requires p <= |input.src| && IsWhole(input.NumberAt(p))
    ensures IsNumeral(n) && At(input, p, NumeralText(n)) && Delimits(n, input.Peek(p + |NumeralText(n)|))
  {
    hide Input.AfterInteger, Input.NumberAt, FractionText, ExponentText, Delimits, At;
    var minus, q, r := FindInteger(input, p);
    var m := FindFraction(input, p, minus, q, r);
    n := m.(minus := minus, integer := input.src[q..r]);
    SameParts(m, n);
    AtJoin(input, q, n.integer, FractionText(n) + ExponentText(n));
    AtJoin(input, p, if minus then [MINUS] else [], n.integer + (FractionText(n) + ExponentText(n)));
    NotDigitBehind(input, q, r, m, n);
  }

  lemma {:induction false} SameParts(m: Numeral, n: Numeral)
    requires m.fraction == n.fraction && m.exponent == n.exponent
    ensures FractionText(m) == FractionText(n) && ExponentText(m) == ExponentText(n)
  {
  }

  lemma {:induction false} NotDigitBehind(input: Input, q: nat, r: nat, m: Numeral, n: Numeral)
    requires IsNumeral(m) && IsNumeral(n) && m.integer == [DIGIT_0] && m.fraction == n.fraction && m.exponent == n.exponent
    requires n.integer == [DIGIT_0] || !IsDigit(input.Peek(r))
    requires Delimits(m, input.Peek(r + |FractionText(m) + ExponentText(m)|))
    ensures Delimits(n, input.Peek(r + |FractionText(n) + ExponentText(n)|))
  {
  }
}
