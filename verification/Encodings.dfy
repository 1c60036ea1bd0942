/**
 UTF-8 and UTF-16 as the encoding classes of RapidJSON read and write them.

 Code units and code points are numbers here: on unsigned words `x & 0x3F` is `x % 64`, `x >> 6` is
 `x / 64`, and `0xC0 | y` is `0xC0 + y` when y has no bit of 0xC0 (`MasksAreArithmetic` states this on
 32-bit words). The character-class table keeps its masks as they are.

 A stream is a sequence of code units read from its front; reading past the end yields NUL, as the
 terminator of a string stream does.
 */
module Encodings {
  import opened Json

  /** The Unicode scalar values: every code point but the surrogates. */
  predicate IsScalarValue(c: int) {
    0 <= c <= 0xD7FF || 0xE000 <= c <= 0x10FFFF
  }

  lemma {:induction false} MasksAreArithmetic(x: bv32)
    ensures x & 0x3F == x % 64
    ensures x >> 6 == x / 64
    ensures x <= 0x7FF ==> 0xC0 | ((x >> 6) & 0xFF) == 0xC0 + (x >> 6)
    ensures x <= 0xFFFF ==> 0xE0 | ((x >> 12) & 0xFF) == 0xE0 + (x >> 12)
    ensures x <= 0x10FFFF ==> 0xF0 | ((x >> 18) & 0xFF) == 0xF0 + (x >> 18)
    ensures 0x80 | (x & 0x3F) == 0x80 + (x & 0x3F)
  {
  }

  /** The next code unit of a byte stream. */
  function Unit(s: Bytes, i: nat): Byte {
    if i < |s| then s[i] else NUL
  }

  // ---------------------------------------------------------------- UTF-8

  /** Character classes of a byte; the classes that may follow a lead byte are single bits, so that one mask
      tests several. */
  function GetRange(c: Byte): bv8 {
    if c <= 0x7F then 0
    else if c <= 0x8F then 0x10
    else if c <= 0x9F then 0x40
    else if c <= 0xBF then 0x20
    else if c <= 0xC1 then 8
    else if c <= 0xDF then 2
    else if c == 0xE0 then 10
    else if c == 0xED then 4
    else if c <= 0xEF then 3
    else if c == 0xF0 then 11
    else if c <= 0xF3 then 6
    else if c == 0xF4 then 5
    else 8
  }

  function EncodeUtf8(c: nat): Bytes
    requires c <= 0x10FFFF
  {
    if c <= 0x7F then [c]
    else if c <= 0x7FF then [0xC0 + c / 64, 0x80 + c % 64]
    else if c <= 0xFFFF then [0xE0 + c / 4096, 0x80 + c / 64 % 64, 0x80 + c % 64]
    else [0xF0 + c / 262144, 0x80 + c / 4096 % 64, 0x80 + c / 64 % 64, 0x80 + c % 64]
  }

  /** What a decoder leaves behind: whether it succeeded, the code point built so far and how many code
      units it took. */
  datatype Decoded = Decoded(ok: bool, codepoint: nat, taken: nat)

  /** Take one more byte into the code point and test its class against a mask. */
  function DecodeTail(s: Bytes, d: Decoded, mask: bv8): Decoded {
    var c := Unit(s, d.taken);
    Decoded(d.ok && GetRange(c) & mask != 0, d.codepoint * 64 + c % 64, d.taken + 1)
  }

  /** The payload bits of a lead byte of class `t`: it is masked with 0xFF shifted right by the class. */
  function LeadBits(c: Byte, t: bv8): nat {
    if t == 2 then c % 64 else if t == 3 then c % 32 else if t == 4 then c % 16
    else if t == 5 then c % 8 else if t == 6 then c % 4 else 0
  }

  function DecodeUtf8(s: Bytes): Decoded {
    var c := Unit(s, 0);
    if c < 0x80 then Decoded(true, c, 1)
    else
      var t := GetRange(c);
      var d := Decoded(true, LeadBits(c, t), 1);
      if t == 2 then DecodeTail(s, d, 0x70)
      else if t == 3 then DecodeTail(s, DecodeTail(s, d, 0x70), 0x70)
      else if t == 4 then DecodeTail(s, DecodeTail(s, d, 0x50), 0x70)
      else if t == 5 then DecodeTail(s, DecodeTail(s, DecodeTail(s, d, 0x10), 0x70), 0x70)
      else if t == 6 then DecodeTail(s, DecodeTail(s, DecodeTail(s, d, 0x70), 0x70), 0x70)
      else if t == 10 then DecodeTail(s, DecodeTail(s, d, 0x20), 0x70)
      else if t == 11 then DecodeTail(s, DecodeTail(s, DecodeTail(s, d, 0x60), 0x70), 0x70)
      else d.(ok := false)
  }

  /** Validation copies the bytes it takes instead of building a code point. */
  datatype Validated = Validated(ok: bool, out: Bytes)

  function ValidateTail(s: Bytes, v: Validated, mask: bv8): (r: Validated)
    ensures r.out != []
  {
    var c := Unit(s, |v.out|);
    Validated(v.ok && GetRange(c) & mask != 0, v.out + [c])
  }

  function ValidateUtf8(s: Bytes): (r: Validated)
    ensures r.out != []
  {
    var c := Unit(s, 0);
    var v := Validated(true, [c]);
    if c < 0x80 then v
    else
      var t := GetRange(c);
      if t == 2 then ValidateTail(s, v, 0x70)
      else if t == 3 then ValidateTail(s, ValidateTail(s, v, 0x70), 0x70)
      else if t == 4 then ValidateTail(s, ValidateTail(s, v, 0x50), 0x70)
      else if t == 5 then ValidateTail(s, ValidateTail(s, ValidateTail(s, v, 0x10), 0x70), 0x70)
      else if t == 6 then ValidateTail(s, ValidateTail(s, ValidateTail(s, v, 0x70), 0x70), 0x70)
      else if t == 10 then ValidateTail(s, ValidateTail(s, v, 0x20), 0x70)
      else if t == 11 then ValidateTail(s, ValidateTail(s, ValidateTail(s, v, 0x60), 0x70), 0x70)
      else v.(ok := false)
  }

  // The grammar of section 4 of RFC 3629, as a predicate on the front of a byte string.

  predicate IsTail(c: Byte) {
    0x80 <= c <= 0xBF
  }

  /** How many bytes the production UTF8-char takes at the front of `s`; 0 if it does not match there. */
  function Utf8CharLength(s: Bytes): nat {
    if |s| >= 1 && s[0] <= 0x7F then 1
    else if |s| >= 2 && 0xC2 <= s[0] <= 0xDF && IsTail(s[1]) then 2
    else if |s| >= 3 && IsTail(s[2])
            && (|| (s[0] == 0xE0 && 0xA0 <= s[1] <= 0xBF)
                || (0xE1 <= s[0] <= 0xEC && IsTail(s[1]))
                || (s[0] == 0xED && 0x80 <= s[1] <= 0x9F)
                || (0xEE <= s[0] <= 0xEF && IsTail(s[1]))) then 3
    else if |s| >= 4 && IsTail(s[2]) && IsTail(s[3])
            && (|| (s[0] == 0xF0 && 0x90 <= s[1] <= 0xBF)
                || (0xF1 <= s[0] <= 0xF3 && IsTail(s[1]))
                || (s[0] == 0xF4 && 0x80 <= s[1] <= 0x8F)) then 4
    else 0
  }

  /** The class test with the mask of a position is the range test of the grammar. */
  lemma {:induction false} MaskTests(c: Byte)
    ensures GetRange(c) & 0x70 != 0 <==> IsTail(c)
    ensures GetRange(c) & 0x50 != 0 <==> 0x80 <= c <= 0x9F
    ensures GetRange(c) & 0x10 != 0 <==> 0x80 <= c <= 0x8F
    ensures GetRange(c) & 0x20 != 0 <==> 0xA0 <= c <= 0xBF
    ensures GetRange(c) & 0x60 != 0 <==> 0x90 <= c <= 0xBF
  {
  }

  /** The payload of the byte at `i`, once the marker bits `marker` are taken off. */
  function Payload(s: Bytes, i: nat, marker: int): int {
    var c: int := Unit(s, i);
    c - marker
  }

  lemma {:induction false} DecodesTwo(s: Bytes)
    requires |s| > 0 && GetRange(s[0]) == 2
    ensures DecodeUtf8(s).ok <==> Utf8CharLength(s) == 2
    ensures DecodeUtf8(s).ok ==> DecodeUtf8(s).codepoint == Payload(s, 0, 0xC0) * 64 + Payload(s, 1, 0x80)
  {
    MaskTests(Unit(s, 1));
  }

  lemma {:induction false} DecodesThree(s: Bytes)
    requires |s| > 0 && GetRange(s[0]) in {3, 4, 10}
    ensures DecodeUtf8(s).ok <==> Utf8CharLength(s) == 3
    ensures DecodeUtf8(s).ok ==>
              DecodeUtf8(s).codepoint == Payload(s, 0, 0xE0) * 4096 + Payload(s, 1, 0x80) * 64 + Payload(s, 2, 0x80)
  {
    hide DecodeTail, DecodeUtf8, GetRange;
    var d := FirstTwoOfThree(s);
    TailStep(s, d);
  }

  lemma {:induction false} FirstTwoOfThree(s: Bytes) returns (d: Decoded)
    requires |s| > 0 && GetRange(s[0]) in {3, 4, 10}
    ensures DecodeUtf8(s) == DecodeTail(s, d, 0x70) && d.taken == 2
    ensures d.ok <==> || (s[0] == 0xE0 && 0xA0 <= Unit(s, 1) <= 0xBF)
                      || (s[0] == 0xED && 0x80 <= Unit(s, 1) <= 0x9F)
                      || (s[0] != 0xE0 && s[0] != 0xED && IsTail(Unit(s, 1)))
    ensures 0xE0 <= s[0] <= 0xEF && (d.ok ==> d.codepoint == Payload(s, 0, 0xE0) * 64 + Payload(s, 1, 0x80))
  {
    var t := GetRange(s[0]);
    var mask: bv8 := if t == 3 then 0x70 else if t == 4 then 0x50 else 0x20;
    d := DecodeTail(s, Decoded(true, LeadBits(s[0], t), 1), mask);
    MaskTests(Unit(s, 1));
    assert LeadBits(s[0], t) == Payload(s, 0, 0xE0);
  }

  lemma {:induction false} TailStep(s: Bytes, d: Decoded)
    ensures var e := DecodeTail(s, d, 0x70);
            && (e.ok <==> d.ok && IsTail(Unit(s, d.taken)))
            && (e.ok ==> e == Decoded(true, d.codepoint * 64 + Payload(s, d.taken, 0x80), d.taken + 1))
  {
    MaskTests(Unit(s, d.taken));
  }

  lemma {:induction false} LeadOfFour(c: Byte)
    requires GetRange(c) in {5, 6, 11}
    ensures GetRange(c) == 11 ==> c == 0xF0
    ensures GetRange(c) == 6 ==> 0xF1 <= c <= 0xF3
    ensures GetRange(c) == 5 ==> c == 0xF4
  {
  }

  lemma {:induction false} DecodesFour(s: Bytes)
    requires |s| > 0 && GetRange(s[0]) in {5, 6, 11}
    ensures DecodeUtf8(s).ok <==> Utf8CharLength(s) == 4
    ensures DecodeUtf8(s).ok ==>
              DecodeUtf8(s).codepoint == Payload(s, 0, 0xF0) * 262144 + Payload(s, 1, 0x80) * 4096
                                         + Payload(s, 2, 0x80) * 64 + Payload(s, 3, 0x80)
  {
    hide GetRange, DecodeTail, DecodeUtf8;
    var d := FirstTwoOfFour(s);
    TailStep(s, d);
    TailStep(s, DecodeTail(s, d, 0x70));
  }

  lemma {:induction false} FirstTwoOfFour(s: Bytes) returns (d: Decoded)
    requires |s| > 0 && GetRange(s[0]) in {5, 6, 11}
    ensures DecodeUtf8(s) == DecodeTail(s, DecodeTail(s, d, 0x70), 0x70) && d.taken == 2
    ensures d.ok <==> || (s[0] == 0xF0 && 0x90 <= Unit(s, 1) <= 0xBF)
                      || (0xF1 <= s[0] <= 0xF3 && IsTail(Unit(s, 1)))
                      || (s[0] == 0xF4 && 0x80 <= Unit(s, 1) <= 0x8F)
    ensures 0xF0 <= s[0] <= 0xF4 && (d.ok ==> d.codepoint == Payload(s, 0, 0xF0) * 64 + Payload(s, 1, 0x80))
  {
    hide GetRange;
    LeadOfFour(s[0]);
    var t := GetRange(s[0]);
    var mask: bv8 := if t == 5 then 0x10 else if t == 6 then 0x70 else 0x60;
    d := DecodeTail(s, Decoded(true, LeadBits(s[0], t), 1), mask);
    MaskTests(Unit(s, 1));
    assert LeadBits(s[0], t) == Payload(s, 0, 0xF0);
  }

  /** Base-64 digits are recovered by division. */
  lemma {:induction false} Digits(c: nat, a: nat, b: nat, d: nat, e: nat)
    requires b < 64 && d < 64 && e < 64 && c == ((a * 64 + b) * 64 + d) * 64 + e
    ensures c / 262144 == a && c / 4096 % 64 == b && c / 64 % 64 == d && c % 64 == e
    ensures c / 4096 == a * 64 + b && c / 64 == (a * 64 + b) * 64 + d
  {
    assert c / 64 == (a * 64 + b) * 64 + d;
    assert c / 4096 == a * 64 + b;
  }

  lemma {:induction false} EncodesBackTwo(c: nat, s: Bytes)
    requires Utf8CharLength(s) == 2 && c == Payload(s, 0, 0xC0) * 64 + Payload(s, 1, 0x80)
    ensures IsScalarValue(c) && EncodeUtf8(c) == s[..2]
  {
    Digits(c, 0, 0, Payload(s, 0, 0xC0), Payload(s, 1, 0x80));
  }

  lemma {:induction false} EncodesBackThree(c: nat, s: Bytes)
    requires Utf8CharLength(s) == 3
    requires c == Payload(s, 0, 0xE0) * 4096 + Payload(s, 1, 0x80) * 64 + Payload(s, 2, 0x80)
    ensures IsScalarValue(c) && EncodeUtf8(c) == s[..3]
  {
    Digits(c, 0, Payload(s, 0, 0xE0), Payload(s, 1, 0x80), Payload(s, 2, 0x80));
    assert 0x800 <= c <= 0xFFFF;
  }

  lemma {:induction false} EncodesBackFour(c: nat, s: Bytes)
    requires Utf8CharLength(s) == 4
    requires c == Payload(s, 0, 0xF0) * 262144 + Payload(s, 1, 0x80) * 4096 + Payload(s, 2, 0x80) * 64 + Payload(s, 3, 0x80)
    ensures IsScalarValue(c) && EncodeUtf8(c) == s[..4]
  {
    Digits(c, Payload(s, 0, 0xF0), Payload(s, 1, 0x80), Payload(s, 2, 0x80), Payload(s, 3, 0x80));
    assert 0x10000 <= c <= 0x10FFFF;
  }

  /** The decoder accepts exactly the front ends of the grammar, takes the bytes of that production, and
      never yields a surrogate, an overlong form or a value above 0x10FFFF: what it yields encodes back to
      the very bytes it took. */
  lemma {:induction false} DecodeAcceptsExactly(s: Bytes)
    requires |s| > 0
    ensures DecodeUtf8(s).ok <==> Utf8CharLength(s) > 0
    ensures DecodeUtf8(s).ok ==>
              && DecodeUtf8(s).taken == Utf8CharLength(s) <= |s|
              && IsScalarValue(DecodeUtf8(s).codepoint)
              && EncodeUtf8(DecodeUtf8(s).codepoint) == s[..DecodeUtf8(s).taken]
  {
    var d, n := DecodeUtf8(s), Utf8CharLength(s);
    var t := GetRange(s[0]);
    if t == 2 {
      DecodesTwo(s);
    } else if t in {3, 4, 10} {
      DecodesThree(s);
    } else if t in {5, 6, 11} {
      DecodesFour(s);
    }
    if d.ok && n == 2 {
      EncodesBackTwo(d.codepoint, s);
    } else if d.ok && n == 3 {
      EncodesBackThree(d.codepoint, s);
    } else if d.ok && n == 4 {
      EncodesBackFour(d.codepoint, s);
    }
  }

  /** The front of an encoded code point is recognised by the grammar. */
  lemma {:induction false} EncodeIsWellFormed(c: int, rest: Bytes)
    requires IsScalarValue(c)
    ensures Utf8CharLength(EncodeUtf8(c) + rest) == |EncodeUtf8(c)|
  {
    hide EncodeUtf8, Utf8CharLength;
    if c > 0xFFFF {
      FourIsWellFormed(c, rest);
    } else if c > 0x7FF {
      ThreeIsWellFormed(c, rest);
    } else {
      FewIsWellFormed(c, rest);
    }
  }

  lemma {:induction false} FourIsWellFormed(c: int, rest: Bytes)
    requires 0xFFFF < c <= 0x10FFFF
    ensures Utf8CharLength(EncodeUtf8(c) + rest) == |EncodeUtf8(c)|
  {
    var s := EncodeUtf8(c) + rest;
    assert s[0] == 0xF0 + c / 262144 && s[1] == 0x80 + c / 4096 % 64;
    assert s[2] == 0x80 + c / 64 % 64 && s[3] == 0x80 + c % 64;
    assert c / 262144 == 0 ==> c / 4096 % 64 >= 16;
    assert c / 262144 == 4 ==> c / 4096 % 64 < 16;
  }

  lemma {:induction false} ThreeIsWellFormed(c: int, rest: Bytes)
    requires 0x7FF < c <= 0xFFFF && IsScalarValue(c)
    ensures Utf8CharLength(EncodeUtf8(c) + rest) == |EncodeUtf8(c)|
  {
    var s := EncodeUtf8(c) + rest;
    assert s[0] == 0xE0 + c / 4096 && s[1] == 0x80 + c / 64 % 64 && s[2] == 0x80 + c % 64;
    assert c / 4096 == 0 ==> c / 64 % 64 >= 32;
    assert c / 4096 == 13 ==> c / 64 % 64 < 32;
  }

  lemma {:induction false} FewIsWellFormed(c: int, rest: Bytes)
    requires 0 <= c <= 0x7FF
    ensures Utf8CharLength(EncodeUtf8(c) + rest) == |EncodeUtf8(c)|
  {
    var s := EncodeUtf8(c) + rest;
    if c > 0x7F {
      assert s[0] == 0xC0 + c / 64 && s[1] == 0x80 + c % 64;
    } else {
      assert s[0] == c;
    }
  }

  /** Decoding inverts encoding on every scalar value, whatever follows it in the stream. */
  lemma {:induction false} DecodeInvertsEncode(c: int, rest: Bytes)
    requires IsScalarValue(c)
    ensures DecodeUtf8(EncodeUtf8(c) + rest) == Decoded(true, c, |EncodeUtf8(c)|)
  {
    var e := EncodeUtf8(c);
    var s := e + rest;
    EncodeIsWellFormed(c, rest);
    DecodeAcceptsExactly(s);
    assert s[..|e|] == e;
    EncodeIsInjective(c, DecodeUtf8(s).codepoint);
  }

  lemma {:induction false} EncodeIsInjective(c: int, d: int)
    requires IsScalarValue(c) && IsScalarValue(d) && EncodeUtf8(c) == EncodeUtf8(d)
    ensures c == d
  {
    SumOfDigits(c);
    SumOfDigits(d);
    var e, f := EncodeUtf8(c), EncodeUtf8(d);
    assert e[0] == f[0];
    if |e| == 2 {
      assert e[1] == f[1];
    } else if |e| == 3 {
      assert e[1] == f[1] && e[2] == f[2];
    } else if |e| == 4 {
      assert e[1] == f[1] && e[2] == f[2] && e[3] == f[3];
    }
  }

  lemma {:induction false} SumOfDigits(c: nat)
    ensures c == (c / 64) * 64 + c % 64
    ensures c == (c / 4096) * 4096 + (c / 64 % 64) * 64 + c % 64
    ensures c == (c / 262144) * 262144 + (c / 4096 % 64) * 4096 + (c / 64 % 64) * 64 + c % 64
  {
    var a := c / 64;
    var b := a / 64;
    assert c / 4096 == b && c / 262144 == b / 64;
  }

  /** The validator and the decoder in step: same verdict so far, and the bytes put are the bytes taken. */
  predicate InStep(s: Bytes, v: Validated, d: Decoded) {
    v.ok == d.ok && |v.out| == d.taken && (v.ok ==> d.taken <= |s| && v.out == s[..d.taken])
  }

  lemma {:induction false} TailKeepsStep(s: Bytes, v: Validated, d: Decoded, mask: bv8)
    requires InStep(s, v, d) && mask & 0x70 == mask
    ensures InStep(s, ValidateTail(s, v, mask), DecodeTail(s, d, mask))
  {
    if |s| <= d.taken {
      assert GetRange(NUL) & mask == 0;
    }
  }

  /** Validation agrees with decoding on the verdict, and on success on the bytes taken. */
  lemma {:induction false} ValidateAgreesWithDecode(s: Bytes)
    requires |s| > 0
    ensures InStep(s, ValidateUtf8(s), DecodeUtf8(s))
  {
    var t := GetRange(s[0]);
    var v, d := Validated(true, [s[0]]), Decoded(true, LeadBits(s[0], t), 1);
    var mask: bv8 := if t == 4 then 0x50 else if t == 5 then 0x10 else if t == 10 then 0x20
                     else if t == 11 then 0x60 else 0x70;
    TailKeepsStep(s, v, d, mask);
    var v1, d1 := ValidateTail(s, v, mask), DecodeTail(s, d, mask);
    TailKeepsStep(s, v1, d1, 0x70);
    TailKeepsStep(s, ValidateTail(s, v1, 0x70), DecodeTail(s, d1, 0x70), 0x70);
  }

  // ---------------------------------------------------------------- UTF-16

  type Unit16 = c: int | 0 <= c < 0x10000

  function EncodeUtf16(c: nat): seq<Unit16>
    requires IsScalarValue(c)
  {
    if c <= 0xFFFF then [c]
    else var v := c - 0x10000; [v / 1024 + 0xD800, v % 1024 + 0xDC00]
  }

  function Unit16At(s: seq<Unit16>, i: nat): Unit16 {
    if i < |s| then s[i] else 0
  }

  function DecodeUtf16(s: seq<Unit16>): Decoded {
    var c := Unit16At(s, 0);
    if c < 0xD800 || c > 0xDFFF then Decoded(true, c, 1)
    else if c <= 0xDBFF then
      var d := Unit16At(s, 1);
      Decoded(0xDC00 <= d <= 0xDFFF, (c % 1024) * 1024 + d % 1024 + 0x10000, 2)
    else Decoded(false, 0, 1)
  }

  /** Exactly the lone non-surrogates and the high-low surrogate pairs decode, each to the scalar value that
      encodes to it. */
  lemma {:induction false} Utf16RoundTrips(s: seq<Unit16>)
    requires |s| > 0
    ensures DecodeUtf16(s).ok <==> || !(0xD800 <= s[0] <= 0xDFFF)
                                   || (s[0] <= 0xDBFF && |s| >= 2 && 0xDC00 <= s[1] <= 0xDFFF)
    ensures DecodeUtf16(s).ok ==>
              && DecodeUtf16(s).taken <= |s|
              && IsScalarValue(DecodeUtf16(s).codepoint)
              && EncodeUtf16(DecodeUtf16(s).codepoint) == s[..DecodeUtf16(s).taken]
  {
    if DecodeUtf16(s).ok && 0xD800 <= s[0] {
      var v := DecodeUtf16(s).codepoint - 0x10000;
      if s[0] <= 0xDBFF {
        assert v / 1024 == s[0] % 1024 && v % 1024 == s[1] % 1024;
      }
    }
  }

  lemma {:induction false} DecodeUtf16InvertsEncode(c: nat, rest: seq<Unit16>)
    requires IsScalarValue(c)
    ensures DecodeUtf16(EncodeUtf16(c) + rest) == Decoded(true, c, |EncodeUtf16(c)|)
  {
    if c > 0xFFFF {
      var v := c - 0x10000;
      assert (v / 1024 + 0xD800) % 1024 == v / 1024 && (v % 1024 + 0xDC00) % 1024 == v % 1024;
    }
  }

  /** Values above 0xFFFF go through the pairs in order, from the first pair to the last: no other assignment does. */
  lemma {:induction false} PairsAreInOrder(c: nat, d: nat)
    requires 0xFFFF < c < d <= 0x10FFFF
    ensures var u, v := EncodeUtf16(c), EncodeUtf16(d); u[0] < v[0] || (u[0] == v[0] && u[1] < v[1])
    ensures EncodeUtf16(0x10000) == [0xD800, 0xDC00] && EncodeUtf16(0x10FFFF) == [0xDBFF, 0xDFFF]
  {
  }

  /** The examples of section 7 of RFC 3629, a value of each length, and that of section 5 of RFC 2781. */
  lemma {:induction false} EncodedExamples()
    ensures EncodeUtf8(0x41) == [0x41] && EncodeUtf8(0x391) == [0xCE, 0x91] && EncodeUtf8(0x2262) == [0xE2, 0x89, 0xA2]
    ensures EncodeUtf8(0xD55C) == [0xED, 0x95, 0x9C] && EncodeUtf8(0x233B4) == [0xF0, 0xA3, 0x8E, 0xB4]
    ensures EncodeUtf16(0x12345) == [0xD808, 0xDF45]
  {
  }

  // ---------------------------------------------------------------- Transcoding

  predicate AllScalar(cs: seq<nat>) {
    forall i :: 0 <= i < |cs| ==> IsScalarValue(cs[i])
  }

  function Utf8Text(cs: seq<nat>): Bytes
    requires AllScalar(cs)
  {
    if cs == [] then [] else EncodeUtf8(cs[0]) + Utf8Text(cs[1..])
  }

  function Utf16Text(cs: seq<nat>): seq<Unit16>
    requires AllScalar(cs)
  {
    if cs == [] then [] else EncodeUtf16(cs[0]) + Utf16Text(cs[1..])
  }

  datatype Transcoded<T> = Text(units: seq<T>) | Invalid

  /** One code point at a time from UTF-8 to UTF-16 until the stream is used up. */
  function Utf8To16(s: Bytes): Transcoded<Unit16>
    decreases |s|
  {
    if s == [] then Text([])
    else
      var d := DecodeUtf8(s);
      DecodeAcceptsExactly(s);
      if !d.ok then Invalid
      else match Utf8To16(s[d.taken..])
        case Invalid => Invalid
        case Text(rest) => Text(EncodeUtf16(d.codepoint) + rest)
  }

  function Utf16To8(s: seq<Unit16>): Transcoded<Byte>
    decreases |s|
  {
    if s == [] then Text([])
    else
      var d := DecodeUtf16(s);
      Utf16RoundTrips(s);
      if !d.ok then Invalid
      else match Utf16To8(s[d.taken..])
        case Invalid => Invalid
        case Text(rest) => Text(EncodeUtf8(d.codepoint) + rest)
  }

  /** Any run of scalar values goes from UTF-8 to UTF-16 and back unchanged. */
  lemma {:induction false} TranscodingIsLossless(cs: seq<nat>)
    requires AllScalar(cs)
    ensures Utf8To16(Utf8Text(cs)) == Text(Utf16Text(cs))
    ensures Utf16To8(Utf16Text(cs)) == Text(Utf8Text(cs))
  {
    if cs != [] {
      TranscodingIsLossless(cs[1..]);
      var a, b := EncodeUtf8(cs[0]), EncodeUtf16(cs[0]);
      DecodeInvertsEncode(cs[0], Utf8Text(cs[1..]));
      DecodeUtf16InvertsEncode(cs[0], Utf16Text(cs[1..]));
      assert (a + Utf8Text(cs[1..]))[|a|..] == Utf8Text(cs[1..]);
      assert (b + Utf16Text(cs[1..]))[|b|..] == Utf16Text(cs[1..]);
    }
  }
}
