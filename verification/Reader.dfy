/**
 The reader: a recursive descent parser and a table-driven automaton over the same stream and handler.
 */
module Reader {
  import opened Options
  import opened Json
  import opened Encodings
  import opened ReaderSpec
  import opened Decimals
  import opened Automaton

  datatype ParseError = ParseError(code: ErrorCode, offset: nat)

  /** The widest span of digits for which the exponent arithmetic is sure to stay within a 32-bit int. */
  const EXPONENT_SAFE_LENGTH: int := 214_748_055

  predicate FitsInt32(n: int) {
    -0x8000_0000 <= n <= 0x7FFF_FFFF
  }

  /** Once a prefix of the integer part exceeds 64 bits the whole does, and the prefix is long. */
  lemma {:induction false} TooBigFromPrefix(input: Input, minus: bool, q: nat, p: nat)
    requires q < p < |input.src| && AllDigits(input.src[q..p]) && IsDigit(input.src[p])
    requires !FitsInt(minus, Decimal(input.src[q..p]) * 10 + DigitValue(input.src[p]))
    ensures p - q >= 18 && AllDigits(input.src[q..input.DigitsEnd(p)])
    ensures !FitsInt(minus, Decimal(input.src[q..input.DigitsEnd(p)]))
  {
    var end := input.DigitsEnd(p);
    var prefix := input.src[q..p + 1];
    assert prefix == input.src[q..p] + [input.src[p]];
    DecimalAppend(input.src[q..p], input.src[p]);
    DigitsOfLargeNumber(input.src[q..p]);
    JoinDigits(input.src, q, p, end);
    assert input.src[q..end][..|prefix|] == prefix;
    DecimalMonotone(input.src[q..end], |prefix|);
  }

  lemma {:induction false} PrefixIsLess(input: Input, x: nat, p: nat)
    requires x <= p <= input.DigitsEnd(x) && x <= |input.src| && AllDigits(input.src[x..p])
    ensures Decimal(input.src[x..p]) <= input.DigitsValue(x)
  {
    hide Decimal, Input.DigitsEnd, AllDigits;
    var end := input.DigitsEnd(x);
    FrontOfSlice(input.src, x, p, end);
    WholeValue(input, x);
    assert AllDigits(input.src[x..end]);
    DecimalMonotone(input.src[x..end], p - x);
  }

  lemma {:induction false} FrontOfSlice(s: Bytes, x: nat, p: nat, end: nat)
    requires x <= p <= end <= |s|
    ensures s[x..end][..p - x] == s[x..p]
  {
  }

  lemma {:induction false} HexStarts(input: Input, p: nat)
    ensures input.Hex4(p) == input.HexDigits(p, 4, 0)
  {
    hide Input.HexDigits;
  }

  lemma {:induction false} PastDigit(input: Input, p: nat)
    requires p < |input.src| && IsDigit(input.src[p])
    ensures input.DigitsEnd(p) == input.DigitsEnd(p + 1)
  {
  }

  lemma {:induction false} AtDigitsEnd(input: Input, p: nat)
    requires p <= |input.src| && (p == |input.src| || !IsDigit(input.src[p]))
    ensures input.DigitsEnd(p) == p
  {
  }

  lemma {:induction false} WholeValue(input: Input, x: nat)
    requires x <= |input.src|
    ensures input.DigitsValue(x) == Decimal(input.src[x..input.DigitsEnd(x)])
  {
  }

  lemma {:induction false} NextFastDigit(input: Input, f: Fraction)
    requires f.end < |input.src| && IsDigit(input.src[f.end]) && f.significand <= 0x1F_FFFF_FFFF_FFFF
    ensures var m := f.significand * 10 + DigitValue(input.src[f.end]);
            input.FastFraction(f)
            == input.FastFraction(Fraction(f.end + 1, m, m != 0, f.expFrac - 1, if m != 0 then f.digits + 1 else f.digits))
  {
    hide Input.DigitsEnd, Decimal;
  }

  lemma {:induction false} LastFastDigit(input: Input, f: Fraction)
    requires f.end <= |input.src|
    requires f.end == |input.src| || !IsDigit(input.src[f.end]) || f.significand > 0x1F_FFFF_FFFF_FFFF
    ensures input.FastFraction(f) == f
  {
  }

  lemma {:induction false} NextSlowDigit(input: Input, f: Fraction)
    requires f.end < |input.src| && IsDigit(input.src[f.end])
    ensures input.SlowFraction(f)
            == input.SlowFraction(
                 if f.digits >= 17 then f.(end := f.end + 1)
                 else
                   var nz := f.nonzero || DigitValue(input.src[f.end]) != 0;
                   Fraction(f.end + 1, f.significand, nz, f.expFrac - 1, if nz then f.digits + 1 else f.digits))
  {
  }

  lemma {:induction false} LastSlowDigit(input: Input, f: Fraction)
    requires f.end <= |input.src| && (f.end == |input.src| || !IsDigit(input.src[f.end]))
    ensures input.SlowFraction(f) == f
  {
  }

  /** A stream position, the events sent to the handler, the error, if any, and the automaton's stack and state.
      The source also keeps decoded strings on its stack while it parses them; here they are local to
      `ParseString`. */
  class GenericReader {
    const input: Input
    var pos: nat
    var events: seq<Event>
    var error: Option<ParseError>
    var stack: seq<Frame>
    var state: PState

    constructor (input: Input)
      ensures this.input == input && pos == 0 && events == [] && error.None? && stack == [] && state == StartState
    {
      this.input := input;
      pos, events, error, stack, state := 0, [], None, [], StartState;
    }

    predicate Ready()
      reads this
    {
      pos <= |input.src| && error.None?
    }

    /** What the parse has come to so far. */
    function Result(): Outcome
      reads this
    {
      if error.Some? then Err(error.value.code, error.value.offset, events) else Ok(pos, events)
    }

    function Peek(): Byte
      reads this
    {
      input.Peek(pos)
    }

    method SetError(code: ErrorCode, offset: nat)
      requires error.None?
      modifies this`error
      ensures Result() == Err(code, offset, events)
    {
      error := Some(ParseError(code, offset));
    }

    method Consume(c: Byte) returns (found: bool)
      requires Ready() && c != NUL
      modifies this`pos
      ensures found == (input.Peek(old(pos)) == c)
      ensures pos == (if found then old(pos) + 1 else old(pos)) && Ready()
    {
      found := Peek() == c;
      if found {
        pos := pos + 1;
      }
    }

    method ConsumeEither(c: Byte, d: Byte) returns (found: bool)
      requires Ready() && c != NUL && d != NUL
      modifies this`pos
      ensures found == (input.Peek(old(pos)) == c || input.Peek(old(pos)) == d)
      ensures pos == (if found then old(pos) + 1 else old(pos)) && Ready()
    {
      found := Consume(c);
      if !found {
        found := Consume(d);
      }
    }

    method SkipWhitespace()
      requires Ready()
      modifies this`pos
      ensures pos == input.SkipWs(old(pos)) && Ready()
    {
      while IsSpace(Peek())
        invariant Ready() && input.SkipWs(pos) == input.SkipWs(old(pos))
        decreases |input.src| - pos
      {
        pos := pos + 1;
      }
    }

    /** Sends an event; a refusal sets the termination error at `offset`. */
    method Send(e: Event, offset: nat)
      requires Ready()
      modifies this`events, this`error
      ensures Result() == input.Emit(old(events), e, pos, offset)
    {
      events := events + [e];
      if !input.answer(events) {
        SetError(Termination, offset);
      }
    }

    /** null, true and false, the first letter having been peeked at. */
    method ParseLiteral(tail: Bytes, e: Event)
      requires Ready() && pos < |input.src| && forall i :: 0 <= i < |tail| ==> tail[i] != NUL
      modifies this`pos, this`events, this`error
      ensures Result() == input.Literal(old(pos), tail, e, old(events))
      ensures error.None? ==> Ready()
    {
      pos := pos + 1;
      var i := 0;
      while i < |tail|
        invariant 0 <= i <= |tail| && Ready() && pos == old(pos) + 1 + i && events == old(events)
        invariant input.Match(old(pos) + 1, tail) == input.Match(pos, tail[i..])
      {
        var found := Consume(tail[i]);
        if !found {
          SetError(ValueInvalid, pos);
          return;
        }
        assert tail[i..][1..] == tail[i + 1..];
        i := i + 1;
      }
      Send(e, pos);
    }

    // ------------------------------------------------------------ strings

    method ParseHex4(escapeOffset: nat) returns (codepoint: nat)
      requires Ready()
      modifies this`pos, this`error
      ensures match input.Hex4(old(pos))
              case Hex(v) => Ready() && pos == old(pos) + 4 && codepoint == v
              case NotHex => Result() == Err(StringUnicodeEscapeInvalidHex, escapeOffset, events)
    {
      hide Input.Hex4, HexValue;
      HexStarts(input, pos);
      codepoint := 0;
      for i := 0 to 4
        invariant Ready() && pos == old(pos) + i
        invariant input.HexDigits(pos, 4 - i, codepoint) == input.Hex4(old(pos))
      {
        if !IsHexDigit(Peek()) {
          SetError(StringUnicodeEscapeInvalidHex, escapeOffset);
          return;
        }
        codepoint := codepoint * 16 + HexValue(Peek());
        pos := pos + 1;
      }
    }

    /** The escape whose backslash is at `escapeOffset`; the stream is behind its u. */
    method ParseUnicodeEscape(escapeOffset: nat) returns (codepoint: nat)
      requires Ready() && pos == escapeOffset + 2
      modifies this`pos, this`error
      ensures match input.UnicodeEscape(escapeOffset)
              case Escaped(end, c) => Ready() && pos == end && codepoint == c
              case NotEscaped(code) => Result() == Err(code, escapeOffset, events)
    {
      hide Input.Hex4, Input.HexDigits, IsScalarValue;
      codepoint := ParseHex4(escapeOffset);
      if error.None? && 0xD800 <= codepoint <= 0xDFFF {
        if codepoint <= 0xDBFF {
          var found := Consume(BACKSLASH);
          if found {
            found := Consume(LOWER_U);
          }
          if !found {
            SetError(StringUnicodeSurrogateInvalid, escapeOffset);
            return;
          }
          var codepoint2 := ParseHex4(escapeOffset);
          if error.Some? {
            return;
          }
          if codepoint2 < 0xDC00 || codepoint2 > 0xDFFF {
            SetError(StringUnicodeSurrogateInvalid, escapeOffset);
            return;
          }
          codepoint := (codepoint - 0xD800) * 1024 + (codepoint2 - 0xDC00) + 0x10000;
        } else {
          SetError(StringUnicodeSurrogateInvalid, escapeOffset);
        }
      }
    }

    /** Decodes the string behind the opening quotation mark into `text`. */
    method ParseStringToStream() returns (text: Bytes)
      requires Ready()
      modifies this`pos, this`error
      ensures match input.ScanString(old(pos), [])
              case StrOk(end, t) => Ready() && pos == end && text == t
              case StrErr(code, offset) => Result() == Err(code, offset, events)
    {
      text := [];
      while true
        invariant Ready()
        invariant input.ScanString(pos, text) == input.ScanString(old(pos), [])
        decreases |input.src| - pos
      {
        var c := Peek();
        if c == BACKSLASH {
          var escapeOffset := pos;
          pos := pos + 1;
          var e := Peek();
          if Unescape(e) != 0 {
            pos := pos + 1;
            text := text + [Unescape(e)];
          } else if e == LOWER_U {
            pos := pos + 1;
            var codepoint := ParseUnicodeEscape(escapeOffset);
            if error.Some? {
              return;
            }
            text := text + EncodeUtf8(codepoint);
          } else {
            SetError(StringEscapeInvalid, escapeOffset);
            return;
          }
        } else if c == QUOTE {
          pos := pos + 1;
          return;
        } else if c < 0x20 {
          SetError(if c == NUL then StringMissQuotationMark else StringInvalidEncoding, pos);
          return;
        } else {
          text := text + [c];
          pos := pos + 1;
        }
      }
    }

    method ParseString(isKey: bool)
      requires Ready() && Peek() == QUOTE
      modifies this`pos, this`events, this`error
      ensures Result() == input.Str(old(pos), old(events), isKey)
      ensures error.None? ==> Ready()
    {
      pos := pos + 1;
      var text := ParseStringToStream();
      if error.None? {
        Send(if isKey then Key(text) else String(text), pos);
      }
    }

    // ------------------------------------------------------------ numbers

    /** One of the digit loops of an integer: the source has one per sign and width, with the same shape. It
        stops in front of the digit that would exceed `cutoff * 10 + last`. `q` is where the digits began. */
    method AccumulateDigits(ghost q: nat, acc: nat, cutoff: nat, last: Byte, counted: nat)
      returns (n: nat, overflow: bool, digits: nat)
      requires Ready() && q < pos && AllDigits(input.src[q..pos]) && acc == Decimal(input.src[q..pos])
      requires IsDigit(last) && acc <= cutoff * 10 + DigitValue(last)
      modifies this`pos
      ensures Ready() && old(pos) <= pos && AllDigits(input.src[q..pos]) && n == Decimal(input.src[q..pos])
      ensures n <= cutoff * 10 + DigitValue(last) && input.DigitsEnd(pos) == input.DigitsEnd(old(pos))
      ensures overflow == IsDigit(Peek()) && digits == counted + pos - old(pos)
      ensures if pos == old(pos) then n == acc
              else IsDigit(input.Peek(old(pos))) && n >= acc * 10 + DigitValue(input.Peek(old(pos)))
      ensures overflow ==> n >= cutoff && n * 10 + DigitValue(Peek()) > cutoff * 10 + DigitValue(last)
    {
      hide Decimal;
      n, overflow, digits := acc, false, counted;
      while IsDigit(Peek())
        invariant Ready() && old(pos) <= pos && AllDigits(input.src[q..pos]) && n == Decimal(input.src[q..pos])
        invariant n <= cutoff * 10 + DigitValue(last) && input.DigitsEnd(pos) == input.DigitsEnd(old(pos))
        invariant !overflow && digits == counted + pos - old(pos)
        invariant if pos == old(pos) then n == acc
                  else IsDigit(input.Peek(old(pos))) && n >= acc * 10 + DigitValue(input.Peek(old(pos)))
        decreases |input.src| - pos
      {
        if n >= cutoff && (n != cutoff || Peek() > last) {
          overflow := true;
          return;
        }
        NextDigit(input.src, q, pos);
        n := n * 10 + DigitValue(Peek());
        pos := pos + 1;
        digits := digits + 1;
      }
    }

    /** The integer part, read into 32 bits, then into 64, then given up for a double. */
    method ParseInteger(minus: bool) returns (i: int, i64: int, use64bit: bool, useDouble: bool, significandDigit: nat)
      requires Ready() && IsDigit(Peek())
      modifies this`pos
      ensures Ready() && pos == (if input.Peek(old(pos)) == DIGIT_0 then old(pos) + 1 else input.DigitsEnd(old(pos)))
      ensures AllDigits(input.src[old(pos)..pos])
      ensures useDouble <==> !FitsInt(minus, Decimal(input.src[old(pos)..pos]))
      ensures !useDouble ==> (if use64bit then i64 else i) == Decimal(input.src[old(pos)..pos])
      ensures !useDouble ==> significandDigit == pos - old(pos) - 1
      ensures useDouble ==> significandDigit >= 17
      ensures 0 <= i <= MAX_UINT32 && 0 <= i64 <= MAX_UINT64
      ensures !useDouble ==> (use64bit <==> (if use64bit then i64 else i) > if minus then 0x8000_0000 else MAX_UINT32)
    {
      hide Decimal, AllDigits, Input.DigitsEnd;
      ghost var q := pos;
      i, i64, use64bit, useDouble, significandDigit := 0, 0, false, false, 0;
      var c := Peek();
      SingleDigit(input.src, q);
      PastDigit(input, q);
      pos := pos + 1;
      if c == DIGIT_0 {
        return;
      }
      var last: Byte := if minus then 0x38 else 0x35;  // the last digit of 2^31 and 2^63, of 2^32 - 1 and 2^64 - 1
      var cutoff32 := if minus then 214_748_364 else 429_496_729;
      var cutoff64 := if minus then 922_337_203_685_477_580 else 1_844_674_407_370_955_161;
      i, use64bit, significandDigit := AccumulateDigits(q, DigitValue(c), cutoff32, last, 0);
      if use64bit {
        i64, useDouble, significandDigit := AccumulateDigits(q, i, cutoff64, last, significandDigit);
      }
      if useDouble {
        TooBigFromPrefix(input, minus, q, pos);
        SkipDigits();
      } else {
        AtDigitsEnd(input, pos);
      }
    }

    /** The rest of an integer part that is too big for 64 bits. */
    method SkipDigits()
      requires Ready()
      modifies this`pos
      ensures Ready() && pos == input.DigitsEnd(old(pos))
    {
      while IsDigit(Peek())
        invariant Ready() && input.DigitsEnd(pos) == input.DigitsEnd(old(pos))
        decreases |input.src| - pos
      {
        pos := pos + 1;
      }
    }

    /** Fraction digits while the significand fits 53 bits. */
    method ReadFastFraction(significand0: nat, digits0: nat) returns (significand: nat, expFrac: int, digits: nat)
      requires Ready() && significand0 <= MAX_UINT64
      modifies this`pos
      ensures Ready() && significand <= MAX_UINT64
      ensures Fraction(pos, significand, significand != 0, expFrac, digits)
              == input.FastFraction(Fraction(old(pos), significand0, significand0 != 0, 0, digits0))
      ensures old(pos) - pos <= expFrac <= 0 && input.DigitsEnd(pos) == input.DigitsEnd(old(pos))
    {
      hide Input.FastFraction, Input.DigitsEnd;
      significand, expFrac, digits := significand0, 0, digits0;
      while IsDigit(Peek()) && significand <= 0x1F_FFFF_FFFF_FFFF
        invariant Ready() && input.DigitsEnd(pos) == input.DigitsEnd(old(pos))
        invariant old(pos) - pos <= expFrac <= 0 && significand <= MAX_UINT64
        invariant input.FastFraction(Fraction(pos, significand, significand != 0, expFrac, digits))
                  == input.FastFraction(Fraction(old(pos), significand0, significand0 != 0, 0, digits0))
        decreases |input.src| - pos
      {
        NextFastDigit(input, Fraction(pos, significand, significand != 0, expFrac, digits));
        PastDigit(input, pos);
        significand := significand * 10 + DigitValue(Peek());
        pos := pos + 1;
        expFrac := expFrac - 1;
        if significand != 0 {
          digits := digits + 1;
        }
      }
      LastFastDigit(input, Fraction(pos, significand, significand != 0, expFrac, digits));
    }

    /** The other fraction digits. The double that the source accumulates matters here only in being non-zero or
        not, which `nonzero` follows. */
    method ReadSlowFraction(ghost significand: nat, nonzero0: bool, expFrac0: int, digits0: nat) returns (expFrac: int)
      requires Ready()
      modifies this`pos
      ensures Ready() && pos == input.DigitsEnd(old(pos))
      ensures expFrac == input.SlowFraction(Fraction(old(pos), significand, nonzero0, expFrac0, digits0)).expFrac
      ensures expFrac0 - (pos - old(pos)) <= expFrac <= expFrac0 && (digits0 >= 17 ==> expFrac == expFrac0)
    {
      hide Input.SlowFraction, Input.DigitsEnd;
      expFrac := expFrac0;
      var nonzero, digits := nonzero0, digits0;
      while IsDigit(Peek())
        invariant Ready() && old(pos) <= pos && input.DigitsEnd(pos) == input.DigitsEnd(old(pos))
        invariant expFrac0 - (pos - old(pos)) <= expFrac <= expFrac0
        invariant digits0 >= 17 ==> expFrac == expFrac0 && digits == digits0
        invariant input.SlowFraction(Fraction(pos, significand, nonzero, expFrac, digits))
                  == input.SlowFraction(Fraction(old(pos), significand, nonzero0, expFrac0, digits0))
        decreases |input.src| - pos
      {
        NextSlowDigit(input, Fraction(pos, significand, nonzero, expFrac, digits));
        PastDigit(input, pos);
        if digits < 17 {
          nonzero := nonzero || DigitValue(Peek()) != 0;
          expFrac := expFrac - 1;
          if nonzero {
            digits := digits + 1;
          }
        }
        pos := pos + 1;
      }
      LastSlowDigit(input, Fraction(pos, significand, nonzero, expFrac, digits));
      AtDigitsEnd(input, pos);
    }

    /** The digits behind the decimal point. */
    method ParseFraction(n: nat, useDouble: bool, significandDigit: nat) returns (expFrac: int)
      requires Ready() && (useDouble ==> significandDigit >= 17) && n <= MAX_UINT64
      modifies this`pos
      ensures Ready() && pos == input.DigitsEnd(old(pos))
      ensures expFrac == if useDouble then 0 else input.FractionAt(old(pos), n, significandDigit).expFrac
      ensures old(pos) - pos <= expFrac <= 0
    {
      var digits, significand := significandDigit, n;
      expFrac := 0;
      if !useDouble {
        significand, expFrac, digits := ReadFastFraction(n, digits);
      }
      expFrac := ReadSlowFraction(significand, useDouble || significand != 0, expFrac, digits);
    }

    /** Where a negative exponent stops growing; not negative while expFrac stays in range. */
    function MaxExponent(expFrac: int): int {
      (expFrac + 2_147_483_639) / 10
    }

    /** The digits of a negative exponent behind the first. It is the number that is written, unless that is so large
        that its arithmetic could leave 32 bits; then it stops growing before. */
    method ReadNegativeExponent(ghost x: nat, first: nat, expFrac: int) returns (exp: int)
      requires Ready() && pos == x + 1 && IsDigit(input.src[x]) && first == DigitValue(input.src[x]) && expFrac <= 0
      modifies this`pos
      ensures Ready() && pos == input.DigitsEnd(old(pos))
      ensures exp == input.DigitsValue(x) || MaxExponent(expFrac) < exp < input.DigitsValue(x)
      ensures expFrac >= 0 - EXPONENT_SAFE_LENGTH ==> FitsInt32(-exp) && FitsInt32(-exp + expFrac)
    {
      hide Decimal, AllDigits, Input.DigitsEnd, Input.DigitsValue;
      exp := first;
      SingleDigit(input.src, x);
      PastDigit(input, x);
      var maxExp := MaxExponent(expFrac);
      ghost var k := pos;
      while IsDigit(Peek())
        invariant Ready() && input.DigitsEnd(pos) == input.DigitsEnd(x) && x < k <= pos
        invariant AllDigits(input.src[x..k]) && exp == Decimal(input.src[x..k])
        invariant k == pos || (exp > maxExp && !IsDigit(Peek()))
        invariant 0 <= exp && (expFrac >= 0 - EXPONENT_SAFE_LENGTH ==> exp <= expFrac + 2_147_483_648 && exp <= 0x7FFF_FFFF)
        invariant IsDigit(Peek()) ==> exp <= maxExp || exp <= 9
        decreases |input.src| - pos
      {
        NextDigit(input.src, x, pos);
        PastDigit(input, pos);
        exp := exp * 10 + DigitValue(Peek());
        pos := pos + 1;
        k := pos;
        if exp > maxExp {
          SkipDigits();
          AtDigitsEnd(input, pos);
        }
      }
      AtDigitsEnd(input, pos);
      WholeValue(input, x);
      PrefixIsLess(input, x, k);
    }

    /** The digits of a positive exponent, the first being behind the stream already. It is an error before its
        arithmetic could leave 32 bits. */
    method ReadPositiveExponent(ghost x: nat, first: nat, expFrac: int, startOffset: nat) returns (exp: int)
      requires Ready() && pos == x + 1 && IsDigit(input.src[x]) && first == DigitValue(input.src[x])
      requires expFrac <= 0
      modifies this`pos, this`error
      ensures if input.DigitsValue(x) > 308 - expFrac then Result() == Err(NumberTooBig, startOffset, events)
              else Ready() && pos == input.DigitsEnd(old(pos)) && exp == input.DigitsValue(x)
      ensures expFrac >= 0 - EXPONENT_SAFE_LENGTH ==> FitsInt32(exp) && FitsInt32(exp + expFrac)
    {
      hide Decimal, AllDigits, Input.DigitsEnd, Input.DigitsValue;
      exp := first;
      SingleDigit(input.src, x);
      PastDigit(input, x);
      var maxExp := 308 - expFrac;
      while IsDigit(Peek())
        invariant Ready() && x < pos && input.DigitsEnd(pos) == input.DigitsEnd(x)
        invariant AllDigits(input.src[x..pos]) && exp == Decimal(input.src[x..pos])
        invariant exp <= maxExp
        decreases |input.src| - pos
      {
        NextDigit(input.src, x, pos);
        PastDigit(input, pos);
        exp := exp * 10 + DigitValue(Peek());
        pos := pos + 1;
        if exp > maxExp {
          PrefixIsLess(input, x, pos);
          SetError(NumberTooBig, startOffset);
          return;
        }
      }
      AtDigitsEnd(input, pos);
      assert exp == input.DigitsValue(x) by { WholeValue(input, x); }
    }

    /** Sends a number that needs floating point, unless its conversion overflows. */
    method SendDouble(startOffset: nat)
      requires Ready() && startOffset < pos
      modifies this`events, this`error
      ensures Result() == input.Deliver(input.DoubleAt(startOffset, pos), startOffset, old(events))
    {
      var lexeme := input.src[startOffset..pos];
      if input.overflows(lexeme) {
        SetError(NumberTooBig, startOffset);
      } else {
        Send(Double(lexeme), startOffset);
      }
    }

    /** Behind the letter of the exponent, which was at `r`. */
    method ParseExponent(startOffset: nat, ghost r: nat, expFrac: int, ghost e: Event)
      requires Ready() && startOffset < r && pos == r + 1 && expFrac <= 0 && IsScalar(e)
      requires input.Peek(r) == LOWER_E || input.Peek(r) == UPPER_E
      modifies this`pos, this`events, this`error
      ensures Result() == input.Deliver(input.AfterFraction(startOffset, r, expFrac, e), startOffset, old(events))
      ensures error.None? ==> Ready()
    {
      hide Input.DigitsValue, Decimal, AllDigits;
      var expMinus := Peek() == MINUS;
      var sign := ConsumeEither(PLUS, MINUS);
      if !IsDigit(Peek()) {
        SetError(NumberMissExponent, pos);
        return;
      }
      ReadExponent(pos, expMinus, expFrac, startOffset);
      if error.None? {
        SendDouble(startOffset);
      }
    }

    /** The digits of an exponent of either sign. */
    method ReadExponent(ghost x: nat, expMinus: bool, expFrac: int, startOffset: nat)
      requires Ready() && pos == x && IsDigit(Peek()) && expFrac <= 0
      modifies this`pos, this`error
      ensures if !expMinus && input.DigitsValue(x) > 308 - expFrac then Result() == Err(NumberTooBig, startOffset, events)
              else Ready() && pos == input.DigitsEnd(x)
    {
      hide Input.DigitsValue, Decimal, AllDigits;
      var first := DigitValue(Peek());
      pos := pos + 1;
      var exp: int;
      if expMinus {
        exp := ReadNegativeExponent(x, first, expFrac);
        exp := -exp;
      } else {
        exp := ReadPositiveExponent(x, first, expFrac, startOffset);
      }
    }

    /** From the exponent on; `e` is the event if there is none. */
    method FinishNumber(startOffset: nat, expFrac: int, e: Event)
      requires Ready() && startOffset < pos && expFrac <= 0 && IsScalar(e)
      modifies this`pos, this`events, this`error
      ensures Result() == input.Deliver(input.AfterFraction(startOffset, old(pos), expFrac, e), startOffset, old(events))
      ensures error.None? ==> Ready()
    {
      var exponent := ConsumeEither(LOWER_E, UPPER_E);
      if exponent {
        ParseExponent(startOffset, pos - 1, expFrac, e);
      } else if e.Double? {
        SendDouble(startOffset);
      } else {
        Send(e, startOffset);
      }
    }

    /** Behind the decimal point. */
    method FinishFraction(startOffset: nat, ghost minus: bool, ghost q: nat, n: nat, useDouble: bool, significandDigit: nat)
      requires Ready() && startOffset <= q < pos - 1 && AllDigits(input.src[q..pos - 1]) && input.Peek(pos - 1) == DOT && n <= MAX_UINT64
      requires useDouble <==> !FitsInt(minus, Decimal(input.src[q..pos - 1]))
      requires useDouble ==> significandDigit >= 17
      requires !useDouble ==> n == Decimal(input.src[q..pos - 1]) && significandDigit == pos - 1 - q - 1
      modifies this`pos, this`events, this`error
      ensures Result() == input.Deliver(input.AfterInteger(startOffset, minus, q, old(pos) - 1), startOffset, old(events))
      ensures error.None? ==> Ready()
    {
      hide Decimal, FitsInt, Input.AfterFraction, Input.FractionAt;
      if !IsDigit(Peek()) {
        SetError(NumberMissFraction, pos);
        return;
      }
      var expFrac := ParseFraction(n, useDouble, significandDigit);
      FinishNumber(startOffset, expFrac, Double([]));
    }

    /** From behind the integer part, which is `n` unless it was too big for an integer. */
    method FinishInteger(startOffset: nat, minus: bool, ghost q: nat, n: nat, use64bit: bool, useDouble: bool,
                         significandDigit: nat)
      requires Ready() && startOffset <= q < pos && AllDigits(input.src[q..pos]) && n <= MAX_UINT64
      requires useDouble <==> !FitsInt(minus, Decimal(input.src[q..pos]))
      requires useDouble ==> significandDigit >= 17
      requires !useDouble ==> n == Decimal(input.src[q..pos]) && significandDigit == pos - q - 1
      requires !useDouble ==> (use64bit <==> n > if minus then 0x8000_0000 else MAX_UINT32)
      modifies this`pos, this`events, this`error
      ensures Result() == input.Deliver(input.AfterInteger(startOffset, minus, q, old(pos)), startOffset, old(events))
      ensures error.None? ==> Ready()
    {
      var point := Consume(DOT);
      if point {
        FinishFraction(startOffset, minus, q, n, useDouble, significandDigit);
      } else {
        var m: int := n;
        var e := if useDouble then Double([])
                 else if use64bit then (if minus then Int64(-m) else Uint64(m))
                 else if minus then Int(-m) else Uint(m);
        assert e == IntegerEvent(minus, Decimal(input.src[q..pos]));
        FinishNumber(startOffset, 0, e);
      }
    }

    method ParseNumber()
      requires Ready()
      modifies this`pos, this`events, this`error
      ensures Result() == input.Number(old(pos), old(events))
      ensures error.None? ==> Ready()
    {
      hide Decimal, Input.AfterInteger, IntegerEvent;
      var startOffset := pos;
      var minus := Consume(MINUS);
      if !IsDigit(Peek()) {
        SetError(ValueInvalid, pos);
        return;
      }
      ghost var q := pos;
      var i, i64, use64bit, useDouble, significandDigit := ParseInteger(minus);
      FinishInteger(startOffset, minus, q, if use64bit then i64 else i, use64bit, useDouble, significandDigit);
    }

    // ------------------------------------------------------------ recursive descent

    method ParseValue()
      requires Ready()
      modifies this`pos, this`events, this`error
      ensures Result() == input.Val(old(pos), old(events))
      ensures error.None? ==> Ready()
      decreases |input.src| - pos, 1
    {
      var c := Peek();
      if c == LOWER_N {
        ParseLiteral(NULL_TAIL, Null);
      } else if c == LOWER_T {
        ParseLiteral(TRUE_TAIL, Bool(true));
      } else if c == LOWER_F {
        ParseLiteral(FALSE_TAIL, Bool(false));
      } else if c == QUOTE {
        ParseString(false);
      } else if c == LBRACE {
        ParseObject();
      } else if c == LBRACKET {
        ParseArray();
      } else {
        ParseNumber();
      }
    }

    method ParseArray()
      requires Ready() && Peek() == LBRACKET
      modifies this`pos, this`events, this`error
      ensures Result() == input.Val(old(pos), old(events))
      ensures error.None? ==> Ready()
      decreases |input.src| - pos, 0
    {
      pos := pos + 1;
      Send(StartArray, pos);
      if error.Some? {
        return;
      }
      SkipWhitespace();
      var end := Consume(RBRACKET);
      if end {
        Send(EndArray(0), pos);
      } else {
        ParseElements();
      }
    }

    /** The element loop of `ParseArray`. */
    method ParseElements()
      requires Ready()
      modifies this`pos, this`events, this`error
      ensures Result() == input.Elements(old(pos), 0, old(events))
      ensures error.None? ==> Ready()
      decreases |input.src| - pos, 2
    {
      ghost var whole := input.Elements(pos, 0, events);
      var elementCount := 0;
      while true
        invariant Ready() && old(pos) <= pos
        invariant input.Elements(pos, elementCount, events) == whole
        decreases |input.src| - pos
      {
        ParseValue();
        if error.Some? {
          return;
        }
        elementCount := elementCount + 1;
        assert input.AfterElement(pos, elementCount, events) == whole;
        var more := ParseElementEnd(elementCount);
        if !more {
          return;
        }
      }
    }

    /** Behind an element: to the next one, or to the end of the array. */
    method ParseElementEnd(elementCount: nat) returns (more: bool)
      requires Ready()
      modifies this`pos, this`events, this`error
      ensures if more then Ready() && old(pos) < pos && events == old(events)
                           && input.AfterElement(old(pos), elementCount, events) == input.Elements(pos, elementCount, events)
              else Result() == input.AfterElement(old(pos), elementCount, old(events)) && (error.None? ==> Ready())
    {
      more := false;
      SkipWhitespace();
      var comma := Consume(COMMA);
      if comma {
        ghost var behind := pos;
        SkipWhitespace();
        assert input.AfterElement(old(pos), elementCount, events) == input.AfterElementComma(behind, elementCount, events);
      } else {
        var end := Consume(RBRACKET);
        if end {
          Send(EndArray(elementCount), pos);
        } else {
          SetError(ArrayMissCommaOrSquareBracket, pos);
        }
        return;
      }
      if input.trailingCommas && Peek() == RBRACKET {
        Send(EndArray(elementCount), pos);
        if error.None? {
          pos := pos + 1;
        }
        return;
      }
      more := true;
    }

    method ParseObject()
      requires Ready() && Peek() == LBRACE
      modifies this`pos, this`events, this`error
      ensures Result() == input.Val(old(pos), old(events))
      ensures error.None? ==> Ready()
      decreases |input.src| - pos, 0
    {
      pos := pos + 1;
      Send(StartObject, pos);
      if error.Some? {
        return;
      }
      SkipWhitespace();
      var end := Consume(RBRACE);
      if end {
        Send(EndObject(0), pos);
      } else {
        ParseMembers();
      }
    }

    /** The member loop of `ParseObject`. */
    method ParseMembers()
      requires Ready()
      modifies this`pos, this`events, this`error
      ensures Result() == input.Members(old(pos), 0, old(events))
      ensures error.None? ==> Ready()
      decreases |input.src| - pos, 2
    {
      ghost var whole := input.Members(pos, 0, events);
      var memberCount := 0;
      while true
        invariant Ready() && old(pos) <= pos
        invariant input.Members(pos, memberCount, events) == whole
        decreases |input.src| - pos
      {
        if Peek() != QUOTE {
          SetError(ObjectMissName, pos);
          return;
        }
        ParseString(true);
        if error.Some? {
          return;
        }
        assert input.AfterKey(pos, memberCount, events) == whole;
        SkipWhitespace();
        var colon := Consume(COLON);
        if !colon {
          SetError(ObjectMissColon, pos);
          return;
        }
        assert input.AfterColon(pos, memberCount, events) == whole;
        SkipWhitespace();
        ParseValue();
        if error.Some? {
          return;
        }
        memberCount := memberCount + 1;
        assert input.AfterMember(pos, memberCount, events) == whole;
        var more := ParseMemberEnd(memberCount);
        if !more {
          return;
        }
      }
    }

    /** Behind a member: to the next one, or to the end of the object. */
    method ParseMemberEnd(memberCount: nat) returns (more: bool)
      requires Ready()
      modifies this`pos, this`events, this`error
      ensures if more then Ready() && old(pos) < pos && events == old(events)
                           && input.AfterMember(old(pos), memberCount, events) == input.Members(pos, memberCount, events)
              else Result() == input.AfterMember(old(pos), memberCount, old(events)) && (error.None? ==> Ready())
    {
      more := false;
      SkipWhitespace();
      var comma := Consume(COMMA);
      if comma {
        ghost var behind := pos;
        SkipWhitespace();
        assert input.AfterMember(old(pos), memberCount, events) == input.AfterMemberComma(behind, memberCount, events);
      } else {
        var end := Consume(RBRACE);
        if end {
          Send(EndObject(memberCount), pos);
        } else {
          SetError(ObjectMissCommaOrCurlyBracket, pos);
        }
        return;
      }
      if input.trailingCommas && Peek() == RBRACE {
        Send(EndObject(memberCount), pos);
        if error.None? {
          pos := pos + 1;
        }
        return;
      }
      more := true;
    }

    /** The whole text, by recursive descent. */
    method Parse()
      requires Ready()
      modifies this`pos, this`events, this`error
      ensures Result() == input.Document(old(pos), old(events))
    {
      SkipWhitespace();
      if Peek() == NUL {
        SetError(DocumentEmpty, pos);
        return;
      }
      ParseValue();
      if error.None? && !input.stopWhenDone {
        SkipWhitespace();
        if Peek() != NUL {
          SetError(DocumentRootNotSingular, pos);
        }
      }
    }

    // ------------------------------------------------------------ the automaton

    /** The configuration with `s` for its state. */
    function In(s: PState): Config
      reads this
    {
      Config(s, stack, pos, events)
    }

    /** One transition from `src` to the predicted state `dst`. */
    method Transit(src: PState, dst: PState) returns (d: PState)
      requires error.None? && ConfigOk(input, In(src)) && dst == Predict(src, Tokenize(Peek()))
      modifies this`pos, this`events, this`error, this`stack
      ensures var step := Automaton.Transit(input, old(In(src)), dst);
              && (step.Next? ==> error.None? && In(d) == step.c)
              && (step.Stop? ==> d == ErrorState && Result() == step.r)
              && (step.Fail? ==> d == ErrorState && error.None? && In(src) == old(In(src)))
    {
      hide Input.Val, Input.Str, Input.Emit;
      match dst {
        case ErrorState =>
          d := dst;
        case ObjectInitialState | ArrayInitialState =>
          d := OpenFrame(src, dst);
        case MemberKeyState =>
          ParseString(true);
          d := if error.Some? then ErrorState else dst;
        case KeyValueDelimiterState =>
          pos := pos + 1;
          d := dst;
        case MemberValueState | ElementState =>
          ParseValue();
          d := if error.Some? then ErrorState else dst;
        case MemberDelimiterState | ElementDelimiterState =>
          pos := pos + 1;
          var top := stack[|stack| - 1];
          stack := stack[|stack| - 1 := top.(count := top.count + 1)];
          d := dst;
        case ObjectFinishState =>
          if !input.trailingCommas && src == MemberDelimiterState {
            SetError(ObjectMissName, pos);
            return ErrorState;
          }
          d := CloseFrame(src == MemberValueState, true);
        case ArrayFinishState =>
          if !input.trailingCommas && src == ElementDelimiterState {
            SetError(ValueInvalid, pos);
            return ErrorState;
          }
          d := CloseFrame(src == ElementState, false);
        case ValueState =>
          ParseValue();
          d := if error.Some? then ErrorState else FinishState;
      }
    }

    /** The common end of the object and array initial transitions. */
    method OpenFrame(src: PState, dst: PState) returns (d: PState)
      requires Ready() && pos < |input.src| && dst != ErrorState
      modifies this`pos, this`events, this`error, this`stack
      ensures var r := input.Emit(old(events), if dst == ObjectInitialState then StartObject else StartArray, old(pos) + 1, old(pos));
              && (r.Ok? ==> error.None? && pos == r.pos && events == r.evs && stack == old(stack) + [Frame(SavedFor(src), 0)]
                            && d == dst)
              && (r.Err? ==> d == ErrorState && Result() == r)
    {
      var n := src;
      if src == ArrayInitialState || src == ElementDelimiterState {
        n := ElementState;
      } else if src == KeyValueDelimiterState {
        n := MemberValueState;
      }
      stack := stack + [Frame(n, 0)];
      Send(if dst == ObjectInitialState then StartObject else StartArray, pos);
      if error.Some? {
        return ErrorState;
      }
      pos := pos + 1;
      d := dst;
    }

    /** The common end of the object and array finish transitions. */
    method CloseFrame(countLast: bool, isObject: bool) returns (n: PState)
      requires Ready() && pos < |input.src| && stack != []
      modifies this`pos, this`events, this`error, this`stack
      ensures var top := old(stack[|stack| - 1]);
              var e := var c := if countLast then top.count + 1 else top.count; if isObject then EndObject(c) else EndArray(c);
              var r := input.Emit(old(events), e, old(pos) + 1, old(pos));
              && (r.Ok? ==> error.None? && pos == r.pos && events == r.evs && stack == old(stack[..|stack| - 1])
                            && n == if top.saved.StartState? then FinishState else top.saved)
              && (r.Err? ==> n == ErrorState && Result() == r)
    {
      var top := stack[|stack| - 1];
      stack := stack[..|stack| - 1];
      var c := top.count;
      if countLast {
        c := c + 1;
      }
      n := top.saved;
      if n == StartState {
        n := FinishState;
      }
      Send(if isObject then EndObject(c) else EndArray(c), pos);
      if error.Some? {
        return ErrorState;
      }
      pos := pos + 1;
    }

    /** Names the error after the state, unless it has been set. */
    method HandleError(src: PState)
      modifies this`error
      ensures old(error).Some? ==> error == old(error)
      ensures old(error).None? ==> Result() == Err(StateError(src), pos, events)
    {
      if error.None? {
        SetError(StateError(src), pos);
      }
    }

    /** One token from state `s`: tokenize, predict, transit, and name the error if there is one. It leaves the
        rest of the parse as it was, or ends it as the rest of the parse would end. A token that is not a
        delimiter sends one event. */
    method ParseToken(s: PState) returns (n: PState, d: PState)
      requires error.None? && ConfigOk(input, In(s)) && CommaOk(input, In(s)) && !IsSpace(Peek())
      requires Peek() == NUL ==> !s.StartState?
      requires !(s.FinishState? && (input.stopWhenDone || Peek() == NUL))
      modifies this`pos, this`events, this`error, this`stack
      ensures d != ErrorState ==>
                && error.None? && ConfigOk(input, In(d)) && CommaOk(input, In(d)) && old(pos) < pos && !d.StartState?
                && (s.StartState? ==> !StartsBadly(Tokenize(input.Peek(old(pos)))))
                && Resume(input, In(d)) == old(Resume(input, In(s)))
                && (if n.IsDelimiter() then events == old(events) && !d.IsComplete()
                    else |events| == |old(events)| + 1 && events[..|old(events)|] == old(events))
      ensures d == ErrorState ==> error.Some? && TokenErrorAgrees(input, old(In(s)), Result(), old(Resume(input, In(s))))
    {
      hide Resume, Automaton.Transit, Predict, Input.DigitsEnd, CommaOk, BehindComma;
      n := Predict(s, Tokenize(Peek()));
      TransitRefines(input, In(s));
      TransitKeepsComma(input, In(s));
      RefusedEnd(input, In(s));
      TransitMovesOn(input, In(s));
      if Automaton.Transit(input, In(s), n).Next? {
        TransitSendsOneEvent(input, In(s));
      }
      d := Transit(s, n);
      if d == ErrorState {
        HandleError(s);
      }
    }

    /** The whole text, by the automaton. On every input and with every handler it ends as the recursive parser
        does, with the same events. Errors agree too, but for the code where a text starts with a closing bracket, a
        comma or a colon, and for the offset of a refused event of a bracket, which the recursive parser reports behind
        the bracket unless it is a closing one that follows a comma. */
    method IterativeParse()
      requires Ready() && stack == []
      modifies this`pos, this`events, this`error, this`stack
      ensures Agree(input, old(pos), Result(), input.Document(old(pos), old(events)))
    {
      hide Agree, BehindComma, ErrorAgrees, TokenErrorAgrees, StartsBadly, Tokenize;
      var s := StartState;
      ghost var whole := input.Document(pos, events);
      SkipWsKeepsResume(input, In(StartState));
      SkipWhitespace();
      while Peek() != NUL
        invariant error.None? && ConfigOk(input, In(s)) && !(s.FinishState? && input.stopWhenDone)
        invariant CommaOk(input, In(s))
        invariant Resume(input, In(s)) == whole && !IsSpace(Peek())
        invariant s.StartState? ==> pos == input.SkipWs(old(pos))
        invariant !s.StartState? ==> !StartsBadly(Tokenize(input.Peek(input.SkipWs(old(pos)))))
        decreases |input.src| - pos
      {
        ghost var before := In(s);
        var n, d := ParseToken(s);
        if d == ErrorState {
          StopAgrees(input, old(pos), before, Result(), whole);
          return;
        }
        s := d;
        if input.stopWhenDone && s == FinishState {
          SameAgrees(input, old(pos), whole);
          return;
        }
        SkipWsKeepsResume(input, In(s));
        SpaceKeepsCommaOk(input, In(s));
        SkipWhitespace();
      }
      AtEnd(s, old(pos), whole);
    }

    /** At the end of the text an unfinished parse is an error. */
    method AtEnd(s: PState, ghost p: nat, ghost whole: Outcome)
      requires error.None? && ConfigOk(input, In(s)) && Peek() == NUL && Resume(input, In(s)) == whole && p <= |input.src|
      requires s.StartState? ==> pos == input.SkipWs(p)
      requires !s.StartState? ==> !StartsBadly(Tokenize(input.Peek(input.SkipWs(p))))
      modifies this`error
      ensures Agree(input, p, Result(), whole)
    {
      hide Agree;
      EndRefines(input, In(s));
      if s != FinishState {
        HandleError(s);
      }
      SameAgrees(input, p, whole);
    }

    // ------------------------------------------------------------ token by token

    method IterativeParseInit()
      modifies this`error, this`state
      ensures error.None? && state == StartState
    {
      error, state := None, StartState;
    }

    predicate IterativeParseComplete()
      reads this
    {
      state.IsComplete()
    }

    /** Behind the root: nothing may follow. */
    method IsOnly() returns (ok: bool)
      requires error.None? && state == FinishState && ConfigOk(input, In(state))
      modifies this`pos, this`error
      ensures Result() == old(Resume(input, In(state))) && old(pos) <= pos
      ensures if ok then error.None? && ConfigOk(input, In(state)) else error.Some? && Result().code != Termination
    {
      if !input.stopWhenDone {
        SkipWhitespace();
        if Peek() != NUL {
          HandleError(state);
          return false;
        }
      }
      return true;
    }

    /** Reads on to the next event, or to the end of the text. */
    method IterativeParseNext() returns (ok: bool)
      requires error.None? && ConfigOk(input, In(state)) && CommaOk(input, In(state)) && !IterativeParseComplete()
      modifies this`pos, this`events, this`error, this`stack, this`state
      ensures ok ==> error.None? && ConfigOk(input, In(state)) && CommaOk(input, In(state))
                     && old(pos) < pos && |events| == |old(events)| + 1 && events[..|old(events)|] == old(events)
      ensures ok ==> var rest := old(Resume(input, In(state)));
                     if state == FinishState then rest == Result() else rest == Resume(input, In(state))
      ensures ok ==> state != StartState && !StartsBadlyAt(input, old(In(state))) && !OnlySpaceAt(input, old(In(state)))
      ensures !ok ==> error.Some? && NextErrorAgrees(input, old(In(state)), Result(), old(Resume(input, In(state))))
    {
      hide StackOk, Tokenize, StartsBadly, BehindComma, CommaOk, Later, ErrorAgrees, NextErrorAgrees, StartsBadlyAt, OnlySpaceAt, SameError;
      ghost var whole, first := Resume(input, In(state)), In(state);
      while Peek() != NUL
        invariant error.None? && ConfigOk(input, In(state)) && CommaOk(input, In(state)) && !IterativeParseComplete()
        invariant Resume(input, In(state)) == whole && events == old(events) && old(pos) <= pos
        invariant In(state) == first || (state != StartState && !StartsBadlyAt(input, first) && !OnlySpaceAt(input, first))
        decreases |input.src| - pos
      {
        SkipWsKeepsResume(input, In(state));
        SpaceKeepsCommaOk(input, In(state));
        SkipWhitespace();
        var n, d: PState;
        ghost var here := In(state);
        if Peek() == NUL && state == StartState {
          // the tokenizer takes the end of the text for a number
          OnlySpaceAgrees(input, first);
          ParseValue();
          return false;
        }
        n, d := ParseToken(state);
        if d == ErrorState {
          FirstErrorAgrees(input, first, here, Result(), whole);
          return false;
        }
        FirstTokenIsGood(input, first, here);
        if d == FinishState {
          state := d;
          ok := IsOnly();
          if ok {
            FinishedIsNotInside(input, In(state));
          } else {
            SameIsAgreed(input, first, Result());
          }
          return;
        }
        state := d;
        if !n.IsDelimiter() {
          return true;
        }
      }
      EndRefines(input, In(state));
      EndAgrees(input, first, In(state));
      stack := [];
      HandleError(state);
      return false;
    }
  }

  /** Driving the reader token by token to the end: one event per successful call, and in the end the outcome of
      the recursive parser. */
  method ParseByTokens(reader: GenericReader) returns (calls: nat)
    requires reader.Ready() && reader.stack == []
    modifies reader
    ensures var whole := reader.input.Document(old(reader.pos), old(reader.events));
            && (whole.Ok? ==> reader.Result() == whole && |reader.events| == |old(reader.events)| + calls)
            && (whole.Err? ==>
                  NextErrorAgrees(reader.input, Config(StartState, [], old(reader.pos), old(reader.events)), reader.Result(), whole))
  {
    ghost var whole := reader.input.Document(reader.pos, reader.events);
    ghost var start := Config(StartState, [], reader.pos, reader.events);
    reader.IterativeParseInit();
    calls := 0;
    while !reader.IterativeParseComplete()
      invariant reader.error.None? && ConfigOk(reader.input, reader.In(reader.state)) && reader.state != ErrorState
      invariant CommaOk(reader.input, reader.In(reader.state))
      invariant if reader.state == StartState then reader.In(reader.state) == start
                else !StartsBadlyAt(reader.input, start) && !OnlySpaceAt(reader.input, start)
      invariant |reader.events| == |old(reader.events)| + calls
      invariant if reader.state == FinishState then reader.Result() == whole
                else Resume(reader.input, reader.In(reader.state)) == whole
      decreases |reader.input.src| - reader.pos, if reader.IterativeParseComplete() then 0 else 1
    {
      var ok := reader.IterativeParseNext();
      if !ok {
        return;
      }
      calls := calls + 1;
    }
  }

  /** A text starts with a token that no value starts with. */
  predicate StartsBadlyAt(input: Input, c: Config)
    requires c.pos <= |input.src|
  {
    c.state.StartState? && StartsBadly(Tokenize(input.Peek(input.SkipWs(c.pos))))
  }

  /** A text is whitespace, and some of that. */
  predicate OnlySpaceAt(input: Input, c: Config)
    requires c.pos <= |input.src|
  {
    c.state.StartState? && input.SkipWs(c.pos) > c.pos && input.Peek(input.SkipWs(c.pos)) == NUL
  }

  /** The recursive parser has the same error, but for where it reports a refused event. */
  ghost predicate ErrorAgrees(input: Input, automaton: Outcome, recursive: Outcome) {
    automaton.Err? && SameError(automaton, recursive, BehindComma(input, automaton.offset))
  }

  /** An outcome that is the same, of a text that does not start badly. */
  lemma {:induction false} SameAgrees(input: Input, p: nat, r: Outcome)
    requires p <= |input.src|
    requires r.Err? ==> r.code != Termination && !StartsBadly(Tokenize(input.Peek(input.SkipWs(p))))
    ensures Agree(input, p, r, r)
  {
  }

  /** An error at a token, which is the first or behind it. */
  lemma {:induction false} StopAgrees(input: Input, p: nat, c: Config, automaton: Outcome, recursive: Outcome)
    requires p <= |input.src| && TokenErrorAgrees(input, c, automaton, recursive)
    requires if c.state.StartState? then c.pos == input.SkipWs(p) else !StartsBadly(Tokenize(input.Peek(input.SkipWs(p))))
    ensures Agree(input, p, automaton, recursive)
  {
    hide BehindComma;
  }

  /** How an error met at one token relates to that of the recursive parser: they differ where a text starts with
      a token that no value starts with. */
  ghost predicate TokenErrorAgrees(input: Input, c: Config, automaton: Outcome, recursive: Outcome) {
    if c.state.StartState? && StartsBadly(Tokenize(input.Peek(c.pos))) then
      recursive.Err? && recursive.code == ValueInvalid && automaton == recursive.(code := DocumentEmpty)
    else ErrorAgrees(input, automaton, recursive)
  }

  /** The same, token by token: here a text of nothing but whitespace differs too. */
  ghost predicate NextErrorAgrees(input: Input, c: Config, automaton: Outcome, recursive: Outcome)
    requires c.pos <= |input.src|
  {
    if StartsBadlyAt(input, c) then
      recursive.Err? && recursive.code == ValueInvalid && automaton == recursive.(code := DocumentEmpty)
    else if OnlySpaceAt(input, c) then
      recursive.Err? && recursive.code == DocumentEmpty && automaton == recursive.(code := ValueInvalid)
    else ErrorAgrees(input, automaton, recursive)
  }

  /** An error that both report alike, where the first token is past. */
  lemma {:induction false} SameIsAgreed(input: Input, first: Config, r: Outcome)
    requires first.pos <= |input.src| && r.Err? && r.code != Termination
    requires !StartsBadlyAt(input, first) && !OnlySpaceAt(input, first)
    ensures NextErrorAgrees(input, first, r, r)
  {
  }

  lemma {:induction false} FirstErrorAgrees(input: Input, first: Config, here: Config, automaton: Outcome, recursive: Outcome)
    requires first.pos <= |input.src| && TokenErrorAgrees(input, here, automaton, recursive)
    requires if here.state.StartState? then here == first.(pos := input.SkipWs(first.pos)) && input.Peek(here.pos) != NUL
             else first.state == here.state || (!StartsBadlyAt(input, first) && !OnlySpaceAt(input, first))
    ensures NextErrorAgrees(input, first, automaton, recursive)
  {
    hide SameError, Later, BehindComma, ErrorAgrees;
  }

  lemma {:induction false} FirstTokenIsGood(input: Input, first: Config, here: Config)
    requires first.pos <= |input.src|
    requires if here.state.StartState? then
               here == first.(pos := input.SkipWs(first.pos)) && input.Peek(here.pos) != NUL
               && !StartsBadly(Tokenize(input.Peek(here.pos)))
             else first.state == here.state || (!StartsBadlyAt(input, first) && !OnlySpaceAt(input, first))
    ensures !StartsBadlyAt(input, first) && !OnlySpaceAt(input, first)
  {
  }

  lemma {:induction false} OnlySpaceAgrees(input: Input, first: Config)
    requires ConfigOk(input, first) && first.state.StartState? && input.Peek(first.pos) != NUL
    requires input.Peek(input.SkipWs(first.pos)) == NUL
    ensures NextErrorAgrees(input, first, input.Val(input.SkipWs(first.pos), first.evs), Resume(input, first))
    ensures input.Val(input.SkipWs(first.pos), first.evs).Err?
  {
    assert input.Val(input.SkipWs(first.pos), first.evs) == Err(ValueInvalid, input.SkipWs(first.pos), first.evs);
  }

  lemma {:induction false} EndAgrees(input: Input, first: Config, here: Config)
    requires first.pos <= |input.src| && input.Peek(here.pos) == NUL
    requires here == first || (!StartsBadlyAt(input, first) && !OnlySpaceAt(input, first))
    ensures var r := Err(StateError(here.state), here.pos, here.evs); NextErrorAgrees(input, first, r, r)
  {
  }

  lemma {:induction false} FinishedIsNotInside(input: Input, c: Config)
    requires c.state.FinishState?
    ensures CommaOk(input, c)
  {
  }

  /** How the outcome of the automaton relates to that of the recursive parser on the text from `p` on. */
  ghost predicate Agree(input: Input, p: nat, automaton: Outcome, recursive: Outcome)
    requires p <= |input.src|
  {
    if recursive.Ok? then automaton == recursive
    else if StartsBadly(Tokenize(input.Peek(input.SkipWs(p)))) then
      automaton == recursive.(code := DocumentEmpty) && recursive.code == ValueInvalid
    else ErrorAgrees(input, automaton, recursive)
  }
}
