/**
 JSON pointers: the parser for both representations, the printer, and their round trips.
 */
module JsonPointer {
  import opened Options
  import opened Json
  import opened Encodings
  import opened ReaderSpec
  import opened Decimals
  import opened Document

  const TILDE: Byte := 0x7E
  const PERCENT: Byte := 0x25
  const HASH: Byte := 0x23

  const INVALID_INDEX: nat := 0xFFFF_FFFF

  /** A reference token: its name, and the array index it also is, if any. */
  datatype Token = Token(name: Bytes, index: nat)

  datatype ParseCode = TokenMustBeginWithSolidus | InvalidEscape | InvalidPercentEncoding | CharacterMustPercentEncode

  datatype ParseResult = Parsed(tokens: seq<Token>) | Failed(code: ParseCode, offset: nat)

  // ------------------------------------------------------------ indices

  /** The conversion of digits to 32 bits, which stops when the wrapped result is smaller than before. */
  function IndexFrom(n: nat, digits: Bytes): nat
    requires AllDigits(digits) && n <= 0xFFFF_FFFF
    decreases |digits|
  {
    if digits == [] then n
    else
      var m := (n * 10 + DigitValue(digits[0])) % 0x1_0000_0000;
      if m < n then INVALID_INDEX else IndexFrom(m, digits[1..])
  }

  function IndexOf(name: Bytes): nat {
    if name == [] || !AllDigits(name) || (|name| > 1 && name[0] == DIGIT_0) then INVALID_INDEX else IndexFrom(0, name)
  }

  /** A decimal number without superfluous zeros. */
  predicate IsCanonical(name: Bytes) {
    name != [] && AllDigits(name) && (|name| == 1 || name[0] != DIGIT_0)
  }

  function Wrapped(n: nat): nat {
    n % 0x1_0000_0000
  }

  /** No digit makes the wrapped number smaller. */
  predicate Unnoticed(name: Bytes)
    requires AllDigits(name)
  {
    forall k :: 0 <= k < |name| ==> Grows(name, k)
  }

  predicate Grows(name: Bytes, k: nat)
    requires AllDigits(name) && k < |name|
  {
    Wrapped(Decimal(name[..k])) <= Wrapped(Decimal(name[..k + 1]))
  }

  lemma {:induction false} OneDigitMore(name: Bytes, k: nat)
    requires AllDigits(name) && k < |name|
    ensures Decimal(name[..k + 1]) == Decimal(name[..k]) * 10 + DigitValue(name[k])
    ensures Wrapped(Decimal(name[..k + 1])) == (Wrapped(Decimal(name[..k])) * 10 + DigitValue(name[k])) % 0x1_0000_0000
  {
    hide Decimal;
    DecimalAppend(name[..k], name[k]);
    assert name[..k + 1] == name[..k] + [name[k]];
    WrapStep(Decimal(name[..k]), DigitValue(name[k]));
  }

  lemma {:induction false} WrapStep(n: nat, digit: nat)
    ensures Wrapped(n * 10 + digit) == (Wrapped(n) * 10 + digit) % 0x1_0000_0000
  {
    var q, w := n / 0x1_0000_0000, Wrapped(n);
    assert n * 10 + digit == (w * 10 + digit) + (q * 10) * 0x1_0000_0000;
    MultipleOff(w * 10 + digit, q * 10);
  }

  lemma {:induction false} MultipleOff(n: nat, q: nat)
    ensures (n + q * 0x1_0000_0000) % 0x1_0000_0000 == n % 0x1_0000_0000
    decreases q
  {
    if q > 0 {
      MultipleOff(n, q - 1);
    }
  }

  lemma {:induction false} IndexFromComputes(name: Bytes, j: nat)
    requires AllDigits(name) && j <= |name|
    ensures IndexFrom(Wrapped(Decimal(name[..j])), name[j..])
            == if forall k :: j <= k < |name| ==> Grows(name, k) then Wrapped(Decimal(name)) else INVALID_INDEX
    decreases |name| - j
  {
    hide Wrapped, Decimal;
    if j == |name| {
      assert name[..j] == name;
    } else {
      OneDigitMore(name, j);
      assert name[j..][1..] == name[j + 1..];
      IndexFromComputes(name, j + 1);
      assert (forall k :: j <= k < |name| ==> Grows(name, k))
          <==> Grows(name, j) && forall k :: j + 1 <= k < |name| ==> Grows(name, k);
    }
  }

  /** The index of a name: of a canonical number below 2^32 its value, of any other name none; of a larger number its
      value modulo 2^32, unless some digit makes the wrapped number smaller. */
  lemma {:induction false} IndexExactly(name: Bytes)
    ensures !IsCanonical(name) ==> IndexOf(name) == INVALID_INDEX
    ensures IsCanonical(name) && Decimal(name) < 0x1_0000_0000 ==> IndexOf(name) == Decimal(name)
    ensures IsCanonical(name) ==> IndexOf(name) == if Unnoticed(name) then Wrapped(Decimal(name)) else INVALID_INDEX
  {
    if IsCanonical(name) {
      hide Decimal;
      assert name[..0] == [] && name[0..] == name;
      NoDigits();
      IndexFromComputes(name, 0);
      if Decimal(name) < 0x1_0000_0000 {
        assert name[..|name|] == name;
        SmallIsUnnoticed(name, |name|);
      }
    }
  }

  lemma {:induction false} NoDigits()
    ensures Decimal([]) == 0
  {
  }

  /** While the number is below 2^32 it only grows. */
  lemma {:induction false} SmallIsUnnoticed(name: Bytes, n: nat)
    requires AllDigits(name) && n <= |name| && Decimal(name[..n]) < 0x1_0000_0000
    ensures forall k :: 0 <= k < n ==> Grows(name, k)
  {
    hide Decimal;
    forall k | 0 <= k < n ensures Grows(name, k) {
      assert name[..n][..k] == name[..k] && name[..n][..k + 1] == name[..k + 1];
      DecimalMonotone(name[..n], k + 1);
      OneDigitMore(name, k);
    }
  }

  /** Which larger numbers are noticed: of those below ten times 2^32, the ones whose wrapped value is smaller than
      their value without the last digit. */
  lemma {:induction false} NoticedExactlyWhen(name: Bytes)
    requires IsCanonical(name) && 0x1_0000_0000 <= Decimal(name) < 0xA_0000_0000
    ensures IndexOf(name) == if Wrapped(Decimal(name)) < Decimal(name) / 10 then INVALID_INDEX else Wrapped(Decimal(name))
  {
    hide Decimal;
    var m := |name| - 1;
    assert name[..m + 1] == name;
    OneDigitMore(name, m);
    assert Decimal(name[..m]) == Decimal(name) / 10;
    SmallIsUnnoticed(name, m);
    assert Unnoticed(name) <==> Grows(name, m);
    IndexExactly(name);
  }

  lemma {:induction false} TenDigits(s: Bytes)
    requires AllDigits(s) && |s| == 10
    ensures var d := seq(10, i requires 0 <= i < 10 => DigitValue(s[i]));
            Decimal(s) == 1_000_000_000 * d[0] + 100_000_000 * d[1] + 10_000_000 * d[2] + 1_000_000 * d[3] + 100_000 * d[4]
                          + 10_000 * d[5] + 1_000 * d[6] + 100 * d[7] + 10 * d[8] + d[9]
  {
    hide Decimal, DigitValue;
    NoDigits();
    assert s[..0] == [] && s[..10] == s;
    OneDigitMore(s, 0);
    OneDigitMore(s, 1);
    OneDigitMore(s, 2);
    OneDigitMore(s, 3);
    OneDigitMore(s, 4);
    OneDigitMore(s, 5);
    OneDigitMore(s, 6);
    OneDigitMore(s, 7);
    OneDigitMore(s, 8);
    OneDigitMore(s, 9);
  }

  /** "4294967296" is noticed; "5000000000" is not, and is taken for 705032704. */
  lemma {:induction false} UnnoticedNumber()
    ensures IndexOf([0x34, 0x32, 0x39, 0x34, 0x39, 0x36, 0x37, 0x32, 0x39, 0x36]) == INVALID_INDEX
    ensures IndexOf([0x35, 0x30, 0x30, 0x30, 0x30, 0x30, 0x30, 0x30, 0x30, 0x30]) == 705_032_704
  {
    hide Decimal, IndexOf;
    var a: Bytes := [0x34, 0x32, 0x39, 0x34, 0x39, 0x36, 0x37, 0x32, 0x39, 0x36];
    var b: Bytes := [0x35, 0x30, 0x30, 0x30, 0x30, 0x30, 0x30, 0x30, 0x30, 0x30];
    TenDigits(a);
    TenDigits(b);
    assert Decimal(a) == 4_294_967_296 && Decimal(b) == 5_000_000_000;
    NoticedExactlyWhen(a);
    NoticedExactlyWhen(b);
  }

  function NameToken(name: Bytes): Token {
    Token(name, IndexOf(name))
  }

  // ------------------------------------------------------------ parsing

  /** Everything but the unreserved characters of section 2.3 of RFC 3986. */
  predicate NeedPercentEncode(c: Byte) {
    !(0x30 <= c <= 0x39 || 0x41 <= c <= 0x5A || 0x61 <= c <= 0x7A || c == MINUS || c == DOT || c == 0x5F || c == TILDE)
  }

  /** The bytes of the percent-encoded triplets at the front. */
  function Triplets(s: Bytes): (r: Bytes)
    ensures 3 * |r| <= |s|
  {
    if |s| >= 3 && s[0] == PERCENT && IsHexDigit(s[1]) && IsHexDigit(s[2])
    then [HexValue(s[1]) * 16 + HexValue(s[2])] + Triplets(s[3..])
    else []
  }

  /** What is left after a step of the parser, or the error with what was left there. */
  datatype NameScan = NameOk(rest: Bytes, name: Bytes) | NameErr(code: ParseCode, rest: Bytes)

  datatype TokensScan = TokensOk(tokens: seq<Token>) | TokensErr(code: ParseCode, rest: Bytes)

  /** A reference token up to the next solidus; `name` is what was decoded before. */
  function ParseName(s: Bytes, fragment: bool, name: Bytes): (r: NameScan)
    ensures r.NameOk? ==> |r.rest| <= |s| && (r.rest == [] || r.rest[0] == SOLIDUS)
    ensures r.NameOk? ==> |name| <= |r.name| && |r.name| + |r.rest| <= |name| + |s|
    ensures r.NameErr? ==> |r.rest| <= |s|
    decreases |s|, 0
  {
    if s == [] || s[0] == SOLIDUS then NameOk(s, name)
    else if fragment && s[0] == PERCENT then
      var v := ValidateUtf8(Triplets(s));
      if !v.ok || |v.out| > |Triplets(s)| then NameErr(InvalidPercentEncoding, s)
      else if |v.out| == 1 then ParseEscaped(v.out[0], s[3..], fragment, name)
      else ParseName(s[3 * |v.out|..], fragment, name + v.out)
    else if fragment && NeedPercentEncode(s[0]) then NameErr(CharacterMustPercentEncode, s)
    else ParseEscaped(s[0], s[1..], fragment, name)
  }

  /** Behind the character `c`, which may begin one of the two escapes. */
  function ParseEscaped(c: Byte, s: Bytes, fragment: bool, name: Bytes): (r: NameScan)
    ensures r.NameOk? ==> |r.rest| <= |s| && (r.rest == [] || r.rest[0] == SOLIDUS)
    ensures r.NameOk? ==> |name| <= |r.name| && |r.name| + |r.rest| <= |name| + |s| + 1
    ensures r.NameErr? ==> |r.rest| <= |s|
    decreases |s|, 1
  {
    if c != TILDE then ParseName(s, fragment, name + [c])
    else if s != [] && s[0] == 0x30 then ParseName(s[1..], fragment, name + [TILDE])
    else if s != [] && s[0] == 0x31 then ParseName(s[1..], fragment, name + [SOLIDUS])
    else NameErr(InvalidEscape, s)
  }

  function ParseTokens(s: Bytes, fragment: bool): (r: TokensScan)
    requires s == [] || s[0] == SOLIDUS
    ensures r.TokensErr? ==> |r.rest| <= |s|
    decreases |s|
  {
    if s == [] then TokensOk([])
    else match ParseName(s[1..], fragment, [])
      case NameErr(code, rest) => TokensErr(code, rest)
      case NameOk(rest, name) =>
        match ParseTokens(rest, fragment)
        case TokensErr(code, r) => TokensErr(code, r)
        case TokensOk(tokens) => TokensOk([NameToken(name)] + tokens)
  }

  function ParsePointer(source: Bytes): ParseResult {
    var fragment := source != [] && source[0] == HASH;
    var s := if fragment then source[1..] else source;
    if s != [] && s[0] != SOLIDUS then Failed(TokenMustBeginWithSolidus, |source| - |s|)
    else match ParseTokens(s, fragment)
      case TokensErr(code, rest) => Failed(code, |source| - |rest|)
      case TokensOk(tokens) => Parsed(tokens)
  }

  // ------------------------------------------------------------ printing

  function UpperHex(n: nat): Byte
    requires n < 16
  {
    if n < 10 then 0x30 + n else 0x41 + (n - 10)
  }

  function Percent(c: Byte): Bytes {
    var n: int := c;
    [PERCENT, UpperHex(n / 16), UpperHex(n % 16)]
  }

  function PercentAll(s: Bytes): (r: Bytes)
    ensures |r| == 3 * |s|
  {
    if s == [] then [] else Percent(s[0]) + PercentAll(s[1..])
  }

  /** The text of a name; None if it cannot be transcoded to UTF-8. */
  function NameText(name: Bytes, fragment: bool): Option<Bytes>
    decreases |name|
  {
    if name == [] then Some([])
    else if name[0] == TILDE then Before([TILDE, 0x30], NameText(name[1..], fragment))
    else if name[0] == SOLIDUS then Before([TILDE, 0x31], NameText(name[1..], fragment))
    else if fragment && NeedPercentEncode(name[0]) then
      var v := ValidateUtf8(name);
      if !v.ok || |v.out| > |name| then None
      else Before(PercentAll(v.out), NameText(name[|v.out|..], fragment))
    else Before([name[0]], NameText(name[1..], fragment))
  }

  function Before(front: Bytes, rest: Option<Bytes>): Option<Bytes> {
    if rest.Some? then Some(front + rest.value) else None
  }

  function TokensText(tokens: seq<Token>, fragment: bool): Option<Bytes>
    decreases |tokens|
  {
    if tokens == [] then Some([])
    else
      var name := NameText(tokens[0].name, fragment);
      if name.None? then None else Before([SOLIDUS] + name.value, TokensText(tokens[1..], fragment))
  }

  function Stringify(tokens: seq<Token>, fragment: bool): Option<Bytes> {
    if fragment then Before([HASH], TokensText(tokens, fragment)) else TokensText(tokens, fragment)
  }

  // ------------------------------------------------------------ round trips

  /** What parsing guarantees: the index of a token is that of its name. */
  predicate IndicesMatch(tokens: seq<Token>) {
    forall i :: 0 <= i < |tokens| ==> tokens[i] == NameToken(tokens[i].name)
  }

  lemma {:induction false} ParsedIndicesMatch(s: Bytes, fragment: bool)
    requires s == [] || s[0] == SOLIDUS
    ensures ParseTokens(s, fragment).TokensOk? ==> IndicesMatch(ParseTokens(s, fragment).tokens)
    decreases |s|
  {
    if s != [] && ParseName(s[1..], fragment, []).NameOk? {
      ParsedIndicesMatch(ParseName(s[1..], fragment, []).rest, fragment);
    }
  }

  /** Validation by the grammar: it takes the bytes of one character. */
  lemma {:induction false} ValidateIsGrammar(s: Bytes)
    requires s != []
    ensures ValidateUtf8(s).ok <==> Utf8CharLength(s) > 0
    ensures ValidateUtf8(s).ok ==> Utf8CharLength(s) <= |s| && ValidateUtf8(s).out == s[..Utf8CharLength(s)]
  {
    ValidateAgreesWithDecode(s);
    DecodeAcceptsExactly(s);
  }

  /** A character is recognised by its own bytes, whatever follows. */
  lemma {:induction false} SameCharacter(s: Bytes, more: Bytes)
    requires s != [] && ValidateUtf8(s).ok
    ensures ValidateUtf8(s).out != [] && ValidateUtf8(ValidateUtf8(s).out + more) == ValidateUtf8(s)
  {
    ValidateIsGrammar(s);
    var n := Utf8CharLength(s);
    var t := s[..n] + more;
    assert forall i :: 0 <= i < n ==> t[i] == s[i];
    assert Utf8CharLength(t) == n;
    ValidateIsGrammar(t);
    assert t[..n] == s[..n];
  }

  lemma {:induction false} ReadsPercent(c: Byte, s: Bytes)
    ensures Triplets(Percent(c) + s) == [c] + Triplets(s)
  {
    var t := Percent(c) + s;
    assert t[1] == Percent(c)[1] && t[2] == Percent(c)[2] && t[3..] == s;
  }

  lemma {:induction false} ReadsPercentAll(cs: Bytes, s: Bytes)
    ensures Triplets(PercentAll(cs) + s) == cs + Triplets(s)
    decreases |cs|
  {
    if cs == [] {
      assert [] + s == s && [] + Triplets(s) == Triplets(s);
    } else {
      assert PercentAll(cs) + s == Percent(cs[0]) + (PercentAll(cs[1..]) + s);
      ReadsPercent(cs[0], PercentAll(cs[1..]) + s);
      ReadsPercentAll(cs[1..], s);
    }
  }

  /** One printed character is read as that character. */
  lemma {:induction false} ReadsCharacter(s: Bytes, more: Bytes, fragment: bool, name: Bytes)
    requires fragment && s != [] && NeedPercentEncode(s[0]) && s[0] != SOLIDUS && ValidateUtf8(s).ok
    ensures var out := ValidateUtf8(s).out;
            ParseName(PercentAll(out) + more, fragment, name) == ParseName(more, fragment, name + out)
  {
    var out := ValidateUtf8(s).out;
    var t := PercentAll(out) + more;
    ValidateIsGrammar(s);
    SameCharacter(s, Triplets(more));
    ReadsPercentAll(out, more);
    assert PercentAll(out)[0] == PERCENT;
    assert t[0] == PERCENT && t[3 * |out|..] == more;
    if |out| == 1 {
      assert out == [s[0]];
    }
  }

  lemma {:induction false} ReadsName(name: Bytes, rest: Bytes, fragment: bool, before: Bytes)
    requires NameText(name, fragment).Some? && (rest == [] || rest[0] == SOLIDUS)
    ensures ParseName(NameText(name, fragment).value + rest, fragment, before) == NameOk(rest, before + name)
    decreases |name|
  {
    if name == [] {
      assert NameText(name, fragment).value + rest == rest && before + name == before;
    } else {
      var n := FirstCharacter(name, fragment, rest, before);
      ReadsName(name[n..], rest, fragment, before + name[..n]);
      assert before + name[..n] + name[n..] == before + name;
    }
  }

  /** The front of a name that is printed as one unit: `n` bytes. */
  lemma {:induction false} FirstCharacter(name: Bytes, fragment: bool, rest: Bytes, before: Bytes) returns (n: nat)
    requires name != [] && NameText(name, fragment).Some?
    ensures 0 < n <= |name| && NameText(name[n..], fragment).Some?
    ensures ParseName(NameText(name, fragment).value + rest, fragment, before)
         == ParseName(NameText(name[n..], fragment).value + rest, fragment, before + name[..n])
  {
    hide ParseName, ValidateUtf8, Percent;
    var c := name[0];
    if c != TILDE && c != SOLIDUS && fragment && NeedPercentEncode(c) {
      var out := ValidateUtf8(name).out;
      n := |out|;
      ValidateIsGrammar(name);
      var more := NameText(name[n..], fragment).value + rest;
      assert NameText(name, fragment).value + rest == PercentAll(out) + more;
      ReadsCharacter(name, more, fragment, before);
    } else {
      n := 1;
      var more := NameText(name[1..], fragment).value + rest;
      assert NameText(name, fragment).value + rest == PlainText(c) + more;
      ReadsPlain(c, more, fragment, before);
      assert name[..1] == [c];
    }
  }

  /** A character that is not percent-encoded. */
  function PlainText(c: Byte): Bytes {
    if c == TILDE then [TILDE, 0x30] else if c == SOLIDUS then [TILDE, 0x31] else [c]
  }

  lemma {:induction false} ReadsPlain(c: Byte, more: Bytes, fragment: bool, name: Bytes)
    requires c == TILDE || c == SOLIDUS || !fragment || !NeedPercentEncode(c)
    ensures ParseName(PlainText(c) + more, fragment, name) == ParseName(more, fragment, name + [c])
  {
    var s := PlainText(c) + more;
    assert s[1..] == if c == TILDE then [0x30] + more else if c == SOLIDUS then [0x31] + more else more;
    assert ([0x30] + more)[1..] == more && ([0x31] + more)[1..] == more;
  }

  lemma {:induction false} ReadsToken(token: Token, tokens: seq<Token>, name: Bytes, rest: Bytes, fragment: bool)
    requires token == NameToken(token.name) && (rest == [] || rest[0] == SOLIDUS)
    requires ParseName(name + rest, fragment, []) == NameOk(rest, token.name)
    requires ParseTokens(rest, fragment) == TokensOk(tokens)
    ensures ParseTokens([SOLIDUS] + name + rest, fragment) == TokensOk([token] + tokens)
  {
    hide ParseName, IndexOf;
    var s := [SOLIDUS] + name + rest;
    assert s[1..] == name + rest;
  }

  lemma {:induction false} NoTokens(fragment: bool)
    ensures TokensText([], fragment) == Some([]) && ParseTokens([], fragment) == TokensOk([])
  {
  }

  lemma {:induction false} TokensTextParts(tokens: seq<Token>, fragment: bool)
    requires tokens != [] && TokensText(tokens, fragment).Some?
    ensures var name, rest := NameText(tokens[0].name, fragment), TokensText(tokens[1..], fragment);
            name.Some? && rest.Some? && TokensText(tokens, fragment).value == [SOLIDUS] + name.value + rest.value
  {
    hide NameText;
  }

  lemma {:induction false} ReadsTokens(tokens: seq<Token>, fragment: bool)
    requires IndicesMatch(tokens) && TokensText(tokens, fragment).Some?
    ensures var s := TokensText(tokens, fragment).value;
            (s == [] || s[0] == SOLIDUS) && ParseTokens(s, fragment) == TokensOk(tokens)
    decreases |tokens|
  {
    hide ParseName, NameText, IndexOf, ParseTokens, TokensText;
    if tokens == [] {
      NoTokens(fragment);
    } else {
      TokensTextParts(tokens, fragment);
      var name, rest := NameText(tokens[0].name, fragment).value, TokensText(tokens[1..], fragment).value;
      ReadsTokens(tokens[1..], fragment);
      ReadsName(tokens[0].name, rest, fragment, []);
      assert [] + tokens[0].name == tokens[0].name;
      ReadsToken(tokens[0], tokens[1..], name, rest, fragment);
      assert tokens == [tokens[0]] + tokens[1..];
    }
  }

  /** Parsing what is printed gives the pointer back, in the string form and, where it can be printed, in the URI
      fragment form. */
  lemma {:induction false} ParseUndoesStringify(tokens: seq<Token>, fragment: bool)
    requires IndicesMatch(tokens) && Stringify(tokens, fragment).Some?
    ensures ParsePointer(Stringify(tokens, fragment).value) == Parsed(tokens)
  {
    ReadsTokens(tokens, fragment);
    var s := TokensText(tokens, fragment).value;
    if fragment {
      assert ([HASH] + s)[1..] == s;
    }
  }

  /** Every pointer has a string form. */
  lemma {:induction false} StringFormExists(tokens: seq<Token>)
    ensures Stringify(tokens, false).Some?
    decreases |tokens|
  {
    if tokens != [] {
      PlainNameExists(tokens[0].name);
      StringFormExists(tokens[1..]);
    }
  }

  lemma {:induction false} PlainNameExists(name: Bytes)
    ensures NameText(name, false).Some?
    decreases |name|
  {
    if name != [] {
      PlainNameExists(name[1..]);
    }
  }

  /** Well-formed UTF-8. */
  predicate IsUtf8(s: Bytes)
    decreases |s|
  {
    s == [] || (0 < Utf8CharLength(s) <= |s| && IsUtf8(s[Utf8CharLength(s)..]))
  }

  /** A name has a fragment form exactly when it is well-formed UTF-8. */
  lemma {:induction false} FragmentFormExists(name: Bytes)
    ensures NameText(name, true).Some? <==> IsUtf8(name)
    decreases |name|
  {
    if name != [] {
      ValidateIsGrammar(name);
      FragmentFormExists(name[1..]);
      if 0 < Utf8CharLength(name) <= |name| {
        FragmentFormExists(name[Utf8CharLength(name)..]);
      }
    }
  }

  /** So printing in the string form and parsing again is the identity on every parsed pointer. */
  lemma {:induction false} ReparseIsIdentity(source: Bytes)
    requires ParsePointer(source).Parsed?
    ensures var p := ParsePointer(source).tokens;
            && Stringify(p, false).Some? && ParsePointer(Stringify(p, false).value) == Parsed(p)
            && (Stringify(p, true).Some? ==> ParsePointer(Stringify(p, true).value) == Parsed(p))
  {
    var p := ParsePointer(source).tokens;
    var fragment := source != [] && source[0] == HASH;
    ParsedIndicesMatch(if fragment then source[1..] else source, fragment);
    StringFormExists(p);
    ParseUndoesStringify(p, false);
    if Stringify(p, true).Some? {
      ParseUndoesStringify(p, true);
    }
  }

  // ------------------------------------------------------------ the parser

  /** A token in the name buffer. */
  datatype Slot = Slot(start: nat, length: nat, index: nat)

  predicate SlotsOk(slots: seq<Slot>, size: nat) {
    forall k :: 0 <= k < |slots| ==> slots[k].start + slots[k].length <= size
  }

  function Names(slots: seq<Slot>, buffer: Bytes): seq<Token>
    requires SlotsOk(slots, |buffer|)
  {
    seq(|slots|, k requires 0 <= k < |slots| =>
      Token(buffer[slots[k].start..slots[k].start + slots[k].length], slots[k].index))
  }

  lemma {:induction false} WritesFew(s: Bytes)
    ensures 1 <= |ValidateUtf8(s).out| <= 4 && (s == [] ==> |ValidateUtf8(s).out| == 1)
    ensures ValidateUtf8(s).ok && |ValidateUtf8(s).out| > 1 ==> !AllDigits(ValidateUtf8(s).out)
    ensures |ValidateUtf8(s).out| <= |s| || |s| < 4
  {
    assert ValidateUtf8(s).out[0] == Unit(s, 0);
  }

  /** A step of `ParseName` at a percent sign. */
  lemma {:induction false} StepPercent(s: Bytes, name: Bytes)
    requires s != [] && s[0] == PERCENT
    ensures var units := Triplets(s); var v := ValidateUtf8(units);
            ParseName(s, true, name)
            == if !v.ok || |v.out| > |units| then NameErr(InvalidPercentEncoding, s)
               else if |v.out| == 1 then ParseEscaped(v.out[0], s[3..], true, name)
               else ParseName(s[3 * |v.out|..], true, name + v.out)
  {
  }

  lemma {:induction false} StepPlain(s: Bytes, fragment: bool, name: Bytes)
    requires s != [] && s[0] != SOLIDUS
    ensures !(fragment && s[0] == PERCENT) ==>
              ParseName(s, fragment, name)
              == if fragment && NeedPercentEncode(s[0]) then NameErr(CharacterMustPercentEncode, s)
                 else ParseEscaped(s[0], s[1..], fragment, name)
  {
  }

  /** The name buffer is as long as the source: no parse, failed ones included, writes behind its end. */
  class GenericPointer {
    var nameBuffer: array<Byte>
    var tokens: seq<Slot>
    var parseError: Option<ParseCode>
    var parseErrorOffset: nat

    constructor ()
      ensures tokens == [] && parseError.None?
    {
      nameBuffer := new Byte[0];
      tokens, parseError, parseErrorOffset := [], None, 0;
    }

    function Result(): ParseResult
      requires SlotsOk(tokens, nameBuffer.Length)
      reads this, nameBuffer
    {
      if parseError.Some? then Failed(parseError.value, parseErrorOffset) else Parsed(Names(tokens, nameBuffer[..]))
    }

    /** Writes the bytes of a percent-encoded character at `name`. */
    method PutAll(bytes: Bytes, name: nat)
      requires name + |bytes| <= nameBuffer.Length
      modifies nameBuffer
      ensures nameBuffer[..name] == old(nameBuffer[..name]) && nameBuffer[name..name + |bytes|] == bytes
    {
      for k := 0 to |bytes|
        invariant nameBuffer[..name] == old(nameBuffer[..name]) && nameBuffer[name..name + k] == bytes[..k]
      {
        nameBuffer[name + k] := bytes[k];
      }
    }

    /** Behind the character `c0` of a name, which may begin an escape: stores what it stands for. The name begins at
        `start` in the buffer and where the text `s` begins in the source; the buffer is filled up to `name`. */
    method PutEscaped(source: Bytes, c0: Byte, j0: nat, fragment: bool, start: nat, name: nat, ghost s: Bytes)
      returns (j: nat, error: Option<ParseCode>, digit: bool)
      requires nameBuffer.Length == |source| && start <= name < j0 <= |source|
      requires ParseEscaped(c0, source[j0..], fragment, nameBuffer[start..name]) == ParseName(s, fragment, [])
      modifies nameBuffer
      ensures nameBuffer[..name] == old(nameBuffer[..name]) && j0 <= j <= |source|
      ensures error.None? ==>
                && ParseName(source[j..], fragment, nameBuffer[start..name + 1]) == ParseName(s, fragment, [])
                && digit == IsDigit(nameBuffer[name])
      ensures error.Some? ==> ParseName(s, fragment, []) == NameErr(error.value, source[j..])
    {
      hide ParseName;
      var c := c0;
      j, error, digit := j0, None, false;
      if c == TILDE {
        if j < |source| && source[j] == 0x30 {
          c := TILDE;
        } else if j < |source| && source[j] == 0x31 {
          c := SOLIDUS;
        } else {
          error := Some(InvalidEscape);
          return;
        }
        j := j + 1;
      }
      nameBuffer[name] := c;
      digit := IsDigit(c);
      assert nameBuffer[start..name + 1] == old(nameBuffer[start..name]) + [c];
    }

    /** One character of a name, or one percent-encoded character, from `i` in the source to `name` in the buffer. */
    method ParseCharacter(source: Bytes, i: nat, fragment: bool, start: nat, name: nat, ghost s: Bytes)
      returns (j: nat, next: nat, error: Option<ParseCode>, digits: bool)
      requires nameBuffer.Length == |source| && start <= name < i < |source| && source[i] != SOLIDUS
      requires fragment ==> name + 1 < i
      requires ParseName(source[i..], fragment, nameBuffer[start..name]) == ParseName(s, fragment, [])
      modifies nameBuffer
      ensures nameBuffer[..name] == old(nameBuffer[..name]) && i <= j <= |source|
      ensures error.None? ==>
                && i < j && name < next < j && (fragment ==> next + 1 < j)
                && ParseName(source[j..], fragment, nameBuffer[start..next]) == ParseName(s, fragment, [])
                && digits == AllDigits(nameBuffer[name..next])
      ensures error.Some? ==> ParseName(s, fragment, []) == NameErr(error.value, source[j..])
    {
      hide ParseName, ParseEscaped, NeedPercentEncode;
      var c := source[i];
      j, next, error, digits := i, name, None, false;
      StepPlain(source[i..], fragment, nameBuffer[start..name]);
      if fragment && c == PERCENT {
        j, next, error, digits := ParsePercent(source, i, start, name, s);
      } else if fragment && NeedPercentEncode(c) {
        error := Some(CharacterMustPercentEncode);
      } else {
        assert source[i..][1..] == source[i + 1..];
        j, error, digits := PutEscaped(source, c, i + 1, fragment, start, name, s);
        next := name + 1;
        assert nameBuffer[name..next] == [nameBuffer[name]];
      }
    }

    /** A percent-encoded character in a fragment. */
    method ParsePercent(source: Bytes, i: nat, start: nat, name: nat, ghost s: Bytes)
      returns (j: nat, next: nat, error: Option<ParseCode>, digits: bool)
      requires nameBuffer.Length == |source| && start <= name && name + 1 < i < |source| && source[i] == PERCENT
      requires ParseName(source[i..], true, nameBuffer[start..name]) == ParseName(s, true, [])
      modifies nameBuffer
      ensures nameBuffer[..name] == old(nameBuffer[..name]) && i <= j <= |source|
      ensures error.None? ==>
                && i < j && name < next && next + 1 < j
                && ParseName(source[j..], true, nameBuffer[start..next]) == ParseName(s, true, [])
                && digits == AllDigits(nameBuffer[name..next])
      ensures error.Some? ==> ParseName(s, true, []) == NameErr(error.value, source[j..])
    {
      hide ParseName, ParseEscaped, ValidateUtf8, Triplets;
      var units := Triplets(source[i..]);
      var v := ValidateUtf8(units);
      WritesFew(units);
      StepPercent(source[i..], nameBuffer[start..name]);
      j, next, error, digits := i, name, None, false;
      PutAll(v.out, name);
      assert nameBuffer[start..name] == old(nameBuffer[start..name]);
      if !v.ok || |v.out| > |units| {
        error := Some(InvalidPercentEncoding);
      } else if |v.out| == 1 {
        assert source[i..][3..] == source[i + 3..];
        j, error, digits := PutEscaped(source, v.out[0], i + 3, true, start, name, s);
        next := name + 1;
        assert nameBuffer[name..next] == [nameBuffer[name]];
      } else {
        j, next := i + 3 * |v.out|, name + |v.out|;
        assert source[i..][3 * |v.out|..] == source[j..];
        assert nameBuffer[name..next] == v.out;
        assert nameBuffer[start..next] == old(nameBuffer[start..name]) + v.out;
      }
    }
  
    /** The characters of a name, from behind its solidus. */
    method ParseCharacters(source: Bytes, i0: nat, fragment: bool, start: nat)
      returns (i: nat, name: nat, error: Option<ParseCode>, isNumber: bool)
      requires nameBuffer.Length == |source| && start < i0 <= |source| && (fragment ==> start + 1 < i0)
      modifies nameBuffer
      ensures nameBuffer[..start] == old(nameBuffer[..start]) && i0 <= i <= |source| && start <= name < i
      ensures error.None? ==>
                && (i == |source| || source[i] == SOLIDUS) && (fragment ==> name + 1 < i)
                && ParseName(source[i..], fragment, nameBuffer[start..name]) == ParseName(source[i0..], fragment, [])
                && isNumber == AllDigits(nameBuffer[start..name])
      ensures error.Some? ==> ParseName(source[i0..], fragment, []) == NameErr(error.value, source[i..])
    {
      hide ParseName, ParseEscaped, AllDigits;
      i, name, error, isNumber := i0, start, None, true;
      AllDigitsEmpty();
      assert nameBuffer[start..name] == [];
      while i < |source| && source[i] != SOLIDUS
        invariant i0 <= i <= |source| && start <= name < i && (fragment ==> name + 1 < i)
        invariant nameBuffer[..start] == old(nameBuffer[..start])
        invariant ParseName(source[i..], fragment, nameBuffer[start..name]) == ParseName(source[i0..], fragment, [])
        invariant isNumber == AllDigits(nameBuffer[start..name])
        decreases |source| - i
      {
        ghost var before := nameBuffer[start..name];
        var j, next, failed, digits := ParseCharacter(source, i, fragment, start, name, source[i0..]);
        if failed.Some? {
          error := failed;
          i := j;
          return;
        }
        assert nameBuffer[start..next] == before + nameBuffer[name..next];
        AllDigitsJoin(before, nameBuffer[name..next]);
        isNumber := isNumber && digits;
        i, name := j, next;
      }
    }

    /** A whole name, which is followed by a NUL in the buffer. */
    method ParseOneName(source: Bytes, i0: nat, fragment: bool, start: nat)
      returns (i: nat, slot: Slot, error: Option<ParseCode>)
      requires nameBuffer.Length == |source| && start < i0 <= |source| && (fragment ==> start + 1 < i0)
      modifies nameBuffer
      ensures nameBuffer[..start] == old(nameBuffer[..start]) && i <= |source|
      ensures error.None? ==>
                && i0 <= i && (i == |source| || source[i] == SOLIDUS)
                && slot.start == start && slot.start + slot.length < i && (fragment ==> slot.start + slot.length + 1 < i)
                && var name := nameBuffer[start..start + slot.length];
                   ParseName(source[i0..], fragment, []) == NameOk(source[i..], name) && slot.index == IndexOf(name)
      ensures error.Some? ==> ParseName(source[i0..], fragment, []) == NameErr(error.value, source[i..])
    {
      var name, isNumber;
      i, name, error, isNumber := ParseCharacters(source, i0, fragment, start);
      slot := Slot(start, name - start, INVALID_INDEX);
      if error.None? {
        nameBuffer[name] := NUL;
        var index := ConvertIndex(nameBuffer[start..name], isNumber);
        slot := Slot(start, name - start, index);
      }
    }

    /** The index of a name whose characters are all digits or not, as `isNumber` says. */
    method ConvertIndex(name: Bytes, isNumber0: bool) returns (index: nat)
      requires isNumber0 == AllDigits(name)
      ensures index == IndexOf(name)
      ensures IsCanonical(name) && Decimal(name) < 0x1_0000_0000 ==> index == Decimal(name)
      ensures !IsCanonical(name) ==> index == INVALID_INDEX
    {
      IndexExactly(name);
      var isNumber := isNumber0;
      if |name| == 0 || (|name| > 1 && name[0] == DIGIT_0) {
        isNumber := false;
      }
      var n := 0;
      if isNumber {
        var j := 0;
        while j < |name|
          invariant j <= |name| && n <= 0xFFFF_FFFF && IndexFrom(n, name[j..]) == IndexFrom(0, name)
          decreases |name| - j
        {
          var m := (n * 10 + DigitValue(name[j])) % 0x1_0000_0000;
          assert name[j..][1..] == name[j + 1..];
          if m < n {
            return INVALID_INDEX;
          }
          n := m;
          j := j + 1;
        }
        return n;
      }
      return INVALID_INDEX;
    }

    method Parse(source: Bytes)
      requires parseError.None?
      modifies this
      ensures fresh(nameBuffer) && nameBuffer.Length == |source| && SlotsOk(tokens, |source|)
      ensures Result() == ParsePointer(source)
    {
      nameBuffer := new Byte[|source|];
      tokens := [];
      var i := 0;
      var fragment := false;
      if source != [] && source[0] == HASH {
        fragment := true;
        i := 1;
      }
      if i != |source| && source[i] != SOLIDUS {
        parseError, parseErrorOffset := Some(TokenMustBeginWithSolidus), i;
        return;
      }
      ParseAll(source, i, fragment);
    }

    /** All the tokens, from `i0` on. */
    method ParseAll(source: Bytes, i0: nat, fragment: bool)
      requires nameBuffer.Length == |source| && tokens == [] && parseError.None?
      requires i0 <= |source| && (fragment ==> i0 == 1) && (i0 == |source| || source[i0] == SOLIDUS)
      modifies this`tokens, this`parseError, this`parseErrorOffset, nameBuffer
      ensures SlotsOk(tokens, |source|)
      ensures match ParseTokens(source[i0..], fragment)
              case TokensOk(ts) => parseError.None? && Names(tokens, nameBuffer[..]) == ts
              case TokensErr(code, rest) => parseError == Some(code) && parseErrorOffset == |source| - |rest|
    {
      hide ParseTokens, Followed, Names;
      var i: nat, name: nat := i0, 0;
      NoNames(nameBuffer[..], ParseTokens(source[i0..], fragment));
      while i < |source|
        invariant i <= |source| && (i == |source| || source[i] == SOLIDUS) && name <= i && (fragment ==> name < i)
        invariant SlotsOk(tokens, name) && parseError.None?
        invariant ParseTokens(source[i0..], fragment)
                  == Followed(Names(tokens, nameBuffer[..]), ParseTokens(source[i..], fragment))
        decreases |source| - i
      {
        var error;
        i, name, error := ParseToken(source, i, fragment, name);
        if error.Some? {
          tokens, parseError, parseErrorOffset := [], error, i;
          return;
        }
      }
      EndOfTokens(Names(tokens, nameBuffer[..]), fragment);
      assert source[i..] == [];
    }

    /** A solidus and the name behind it. */
    method ParseToken(source: Bytes, i0: nat, fragment: bool, name0: nat)
      returns (i: nat, name: nat, error: Option<ParseCode>)
      requires nameBuffer.Length == |source| && i0 < |source| && source[i0] == SOLIDUS && SlotsOk(tokens, name0)
      requires name0 <= i0 && (fragment ==> name0 < i0)
      modifies this`tokens, nameBuffer
      ensures i <= |source|
      ensures error.Some? ==>
                Followed(old(Names(tokens, nameBuffer[..])), ParseTokens(source[i0..], fragment))
                == TokensErr(error.value, source[i..])
      ensures error.None? ==>
                && i0 < i && (i == |source| || source[i] == SOLIDUS) && name <= i && (fragment ==> name < i)
                && SlotsOk(tokens, name)
                && Followed(old(Names(tokens, nameBuffer[..])), ParseTokens(source[i0..], fragment))
                   == Followed(Names(tokens, nameBuffer[..]), ParseTokens(source[i..], fragment))
    {
      hide ParseName, IndexOf, Names;
      ghost var bytes, rest := nameBuffer[..], source[i0..];
      assert rest[1..] == source[i0 + 1..];
      var slot;
      i, slot, error := ParseOneName(source, i0 + 1, fragment, name0);
      name := slot.start + slot.length + 1;
      if error.None? {
        hide ParseTokens, Followed;
        ghost var token := NameToken(nameBuffer[slot.start..slot.start + slot.length]);
        StepToken(rest, fragment, token.name, source[i..]);
        assert nameBuffer[..][..name0] == bytes[..name0];
        SameNames(tokens, bytes, nameBuffer[..], name0);
        FollowedTwice(Names(tokens, bytes), [token], ParseTokens(source[i..], fragment));
        NamesAppended(tokens, slot, nameBuffer[..]);
        tokens := tokens + [slot];
      }
    }
  }

  /** What a parse comes to when some tokens were read before. */
  function Followed(tokens: seq<Token>, rest: TokensScan): TokensScan {
    if rest.TokensOk? then TokensOk(tokens + rest.tokens) else rest
  }

  lemma {:induction false} FollowedTwice(a: seq<Token>, b: seq<Token>, rest: TokensScan)
    ensures Followed(a, Followed(b, rest)) == Followed(a + b, rest)
  {
    if rest.TokensOk? {
      assert a + (b + rest.tokens) == a + b + rest.tokens;
    }
  }

  lemma {:induction false} StepToken(s: Bytes, fragment: bool, name: Bytes, rest: Bytes)
    requires s != [] && s[0] == SOLIDUS && ParseName(s[1..], fragment, []) == NameOk(rest, name)
    ensures ParseTokens(s, fragment) == Followed([NameToken(name)], ParseTokens(rest, fragment))
  {
  }

  lemma {:induction false} NoNames(buffer: Bytes, rest: TokensScan)
    ensures Followed(Names([], buffer), rest) == rest
  {
    assert Names([], buffer) == [];
  }

  lemma {:induction false} EndOfTokens(tokens: seq<Token>, fragment: bool)
    ensures Followed(tokens, ParseTokens([], fragment)) == TokensOk(tokens)
  {
    assert tokens + [] == tokens;
  }

  lemma {:induction false} NamesAppended(slots: seq<Slot>, slot: Slot, buffer: Bytes)
    requires SlotsOk(slots, |buffer|) && slot.start + slot.length <= |buffer|
    ensures SlotsOk(slots + [slot], |buffer|)
    ensures Names(slots + [slot], buffer)
         == Names(slots, buffer) + [Token(buffer[slot.start..slot.start + slot.length], slot.index)]
  {
  }

  lemma {:induction false} AllDigitsEmpty()
    ensures AllDigits([])
  {
  }

  lemma {:induction false} AllDigitsJoin(a: Bytes, b: Bytes)
    ensures AllDigits(a + b) == (AllDigits(a) && AllDigits(b))
  {
    if AllDigits(a + b) {
      assert forall i :: 0 <= i < |a| ==> a[i] == (a + b)[i];
      assert forall i :: 0 <= i < |b| ==> b[i] == (a + b)[|a| + i];
    }
  }

  lemma {:induction false} SameNames(slots: seq<Slot>, a: Bytes, b: Bytes, size: nat)
    requires SlotsOk(slots, size) && size <= |a| && size <= |b| && a[..size] == b[..size]
    ensures Names(slots, a) == Names(slots, b)
  {
    forall k | 0 <= k < |slots|
      ensures a[slots[k].start..slots[k].start + slots[k].length] == b[slots[k].start..slots[k].start + slots[k].length]
    {
      assert a[..size][slots[k].start..slots[k].start + slots[k].length]
          == a[slots[k].start..slots[k].start + slots[k].length];
      assert b[..size][slots[k].start..slots[k].start + slots[k].length]
          == b[slots[k].start..slots[k].start + slots[k].length];
    }
  }

  // ------------------------------------------------------------ the printer

  lemma {:induction false} BeforeTwice(a: Bytes, b: Bytes, rest: Option<Bytes>)
    ensures Before(a, Before(b, rest)) == Before(a + b, rest)
  {
    if rest.Some? {
      assert a + (b + rest.value) == a + b + rest.value;
    }
  }

  lemma {:induction false} PercentAppended(s: Bytes, c: Byte)
    ensures PercentAll(s + [c]) == PercentAll(s) + Percent(c)
  {
    if s == [] {
      assert PercentAll([c]) == Percent(c) + PercentAll([c][1..]);
    } else {
      assert (s + [c])[1..] == s[1..] + [c];
      PercentAppended(s[1..], c);
      assert Percent(s[0]) + (PercentAll(s[1..]) + Percent(c)) == Percent(s[0]) + PercentAll(s[1..]) + Percent(c);
    }
  }

  method PutPercents(bytes: Bytes) returns (os: Bytes)
    ensures os == PercentAll(bytes)
  {
    os := [];
    for k := 0 to |bytes|
      invariant os == PercentAll(bytes[..k])
    {
      PercentAppended(bytes[..k], bytes[k]);
      assert bytes[..k + 1] == bytes[..k] + [bytes[k]];
      var u: int := bytes[k];
      os := os + [PERCENT, UpperHex(u / 16), UpperHex(u % 16)];
    }
    assert bytes[..|bytes|] == bytes;
  }

  /** A name; it fails at the first byte that is not UTF-8 and must be percent-encoded. */
  method PutName(name: Bytes, fragment: bool) returns (ok: bool, os: Bytes)
    ensures ok == NameText(name, fragment).Some?
    ensures ok ==> os == NameText(name, fragment).value
  {
    hide NameText, Before;
    os := [];
    var j := 0;
    assert name[j..] == name;
    NothingBefore(NameText(name, fragment));
    while j < |name|
      invariant j <= |name| && NameText(name, fragment) == Before(os, NameText(name[j..], fragment))
      decreases |name| - j
    {
      var put, taken := PutCharacterText(name[j..], fragment);
      if taken == 0 {
        NeverBefore(os, NameText(name[j..], fragment));
        return false, os;
      }
      assert name[j..][taken..] == name[j + taken..];
      BeforeTwice(os, put, NameText(name[j + taken..], fragment));
      os := os + put;
      j := j + taken;
    }
    assert name[j..] == [];
    NothingBehind(os, fragment);
    return true, os;
  }

  /** One step of the printer, at the front of `s`. */
  method PutCharacterText(s: Bytes, fragment: bool) returns (put: Bytes, taken: nat)
    requires s != []
    ensures taken == 0 ==> NameText(s, fragment).None?
    ensures taken > 0 ==> taken <= |s| && NameText(s, fragment) == Before(put, NameText(s[taken..], fragment))
  {
    var c := s[0];
    put, taken := [c], 1;
    if c == TILDE {
      put := [TILDE, 0x30];
    } else if c == SOLIDUS {
      put := [TILDE, 0x31];
    } else if fragment && NeedPercentEncode(c) {
      var v := ValidateUtf8(s);
      ValidateIsGrammar(s);
      if v.ok {
        put := PutPercents(v.out);
        taken := |v.out|;
      } else {
        taken := 0;
      }
    }
  }

  method PutPointer(tokens: seq<Token>, fragment: bool) returns (ok: bool, os: Bytes)
    ensures ok == Stringify(tokens, fragment).Some?
    ensures ok ==> os == Stringify(tokens, fragment).value
  {
    os := if fragment then [HASH] else [];
    ghost var whole := Before(os, TokensText(tokens, fragment));
    NothingBefore(TokensText(tokens, fragment));
    assert whole == Stringify(tokens, fragment);
    var k := 0;
    assert tokens[k..] == tokens;
    while k < |tokens|
      invariant k <= |tokens| && whole == Before(os, TokensText(tokens[k..], fragment))
      decreases |tokens| - k
    {
      hide NameText;
      var put, text := PutName(tokens[k].name, fragment);
      assert tokens[k..][1..] == tokens[k + 1..];
      if !put {
        return false, os;
      }
      BeforeTwice(os, [SOLIDUS] + text, TokensText(tokens[k + 1..], fragment));
      os := os + ([SOLIDUS] + text);
      k := k + 1;
    }
    assert os + [] == os;
    return true, os;
  }

  lemma {:induction false} NothingBehind(os: Bytes, fragment: bool)
    ensures Before(os, NameText([], fragment)) == Some(os)
  {
    assert os + [] == os;
  }

  lemma {:induction false} NeverBefore(os: Bytes, rest: Option<Bytes>)
    ensures rest.None? ==> Before(os, rest).None?
  {
  }

  lemma {:induction false} NothingBefore(rest: Option<Bytes>)
    ensures Before([], rest) == rest
  {
    if rest.Some? {
      assert [] + rest.value == rest.value;
    }
  }
}
