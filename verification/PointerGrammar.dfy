/**
 The grammar of JSON pointers: in the string form that of RFC 6901, in the fragment form that of the program. A pointer is
 read if and only if it is a text of the grammar, as the names that the text stands for, and what is printed is the shortest
 text for a name. How the fragment form compares with the standard is in `PointerFragment`.
 */
module PointerGrammar {
  import opened Options
  import opened Json
  import opened Encodings
  import opened ReaderSpec
  import opened JsonPointer
  import opened Grammar

  /** Section 2.3 of RFC 3986: letters, digits, "-", ".", "_" and "~". */
  predicate IsUnreserved(c: Byte) {
    || 0x30 <= c <= 0x39 || 0x41 <= c <= 0x5A || 0x61 <= c <= 0x7A
    || c == 0x2D || c == 0x2E || c == 0x5F || c == 0x7E
  }

  /** Two hexadecimal digits of a byte. */
  predicate SpellsByte(digits: Bytes, b: Byte) {
    |digits| == 2 && IsHexDigitOf(digits[0], b / 16) && IsHexDigitOf(digits[1], b % 16)
  }

  predicate SpellsBytes(digits: seq<Bytes>, bytes: Bytes) {
    |digits| == |bytes| && forall i :: 0 <= i < |bytes| ==> SpellsByte(digits[i], bytes[i])
  }

  function TripletsText(digits: seq<Bytes>): Bytes {
    if digits == [] then [] else [PERCENT] + digits[0] + TripletsText(digits[1..])
  }

  /** A byte that stands for itself; the escape of a solidus or a tilde, whose own tilde may be percent-encoded; or a scalar
      value in percent-encoded UTF-8. */
  datatype Part = Itself(c: Byte) | Tilde(solidus: bool, digits: Bytes) | Encoded(codepoint: nat, triplets: seq<Bytes>)

  predicate IsPart(x: Part, fragment: bool) {
    match x
    case Itself(c) => c != SOLIDUS && c != TILDE && (fragment ==> IsUnreserved(c))
    case Tilde(_, digits) => digits == [] || (fragment && SpellsByte(digits, TILDE))
    case Encoded(c, triplets) => fragment && IsScalarValue(c) && c != TILDE && SpellsBytes(triplets, EncodeUtf8(c))
  }

  function PartText(x: Part, fragment: bool): Bytes
    requires IsPart(x, fragment)
  {
    match x
    case Itself(c) => [c]
    case Tilde(solidus, digits) => (if digits == [] then [TILDE] else [PERCENT] + digits) + [if solidus then 0x31 else 0x30]
    case Encoded(_, triplets) => TripletsText(triplets)
  }

  function PartBytes(x: Part, fragment: bool): Bytes
    requires IsPart(x, fragment)
  {
    match x
    case Itself(c) => [c]
    case Tilde(solidus, _) => [if solidus then SOLIDUS else TILDE]
    case Encoded(c, _) => EncodeUtf8(c)
  }

  predicate AreParts(xs: seq<Part>, fragment: bool) {
    forall i :: 0 <= i < |xs| ==> IsPart(xs[i], fragment)
  }

  function PartsText(xs: seq<Part>, fragment: bool): Bytes
    requires AreParts(xs, fragment)
  {
    if xs == [] then [] else PartText(xs[0], fragment) + PartsText(xs[1..], fragment)
  }

  function PartsBytes(xs: seq<Part>, fragment: bool): Bytes
    requires AreParts(xs, fragment)
  {
    if xs == [] then [] else PartBytes(xs[0], fragment) + PartsBytes(xs[1..], fragment)
  }

  // ------------------------------------------------------------ percent-encoding

  lemma {:induction false} TripletExactly(digits: Bytes, b: Byte)
    requires |digits| == 2
    ensures SpellsByte(digits, b) <==> IsHexDigit(digits[0]) && IsHexDigit(digits[1]) && HexValue(digits[0]) * 16 + HexValue(digits[1]) == b
  {
    hide IsHexDigitOf, HexValue, IsHexDigit;
    HexDigitExactly(digits[0], b / 16);
    HexDigitExactly(digits[1], b % 16);
    if IsHexDigit(digits[0]) && IsHexDigit(digits[1]) {
      HexValueBound(digits[0]);
      HexValueBound(digits[1]);
    }
  }

  lemma {:induction false} ReadsTriplet(digits: Bytes, b: Byte, rest: Bytes)
    requires SpellsByte(digits, b)
    ensures Triplets([PERCENT] + digits + rest) == [b] + Triplets(rest)
  {
    hide IsHexDigit, HexValue;
    TripletExactly(digits, b);
    var s := [PERCENT] + digits + rest;
    assert s[0] == PERCENT && s[1] == digits[0] && s[2] == digits[1] && s[3..] == rest;
  }

  lemma {:induction false} ReadsTriplets(digits: seq<Bytes>, bytes: Bytes, rest: Bytes)
    requires SpellsBytes(digits, bytes)
    ensures |TripletsText(digits)| == 3 * |digits| && Triplets(TripletsText(digits) + rest) == bytes + Triplets(rest)
    ensures digits != [] ==> TripletsText(digits)[0] == PERCENT
    decreases |digits|
  {
    hide SpellsByte, Triplets;
    if digits == [] {
      assert [] + rest == rest && bytes + Triplets(rest) == Triplets(rest);
    } else {
      assert SpellsByte(digits[0], bytes[0]);
      assert |digits[0]| == 2 by { TwoDigits(digits[0], bytes[0]); }
      var more := TripletsText(digits[1..]) + rest;
      ReadsTriplets(digits[1..], bytes[1..], rest);
      ReadsTriplet(digits[0], bytes[0], more);
      assert TripletsText(digits) + rest == [PERCENT] + digits[0] + more;
      assert [bytes[0]] + (bytes[1..] + Triplets(rest)) == bytes + Triplets(rest);
    }
  }

  lemma {:induction false} TwoDigits(digits: Bytes, b: Byte)
    requires SpellsByte(digits, b)
    ensures |digits| == 2
  {
  }

  /** Whatever is read as triplets is such a text. */
  lemma {:induction false} TripletsThere(s: Bytes, n: nat) returns (digits: seq<Bytes>)
    requires n <= |Triplets(s)|
    ensures 3 * n <= |s| && s[..3 * n] == TripletsText(digits) && SpellsBytes(digits, Triplets(s)[..n])
    decreases n
  {
    hide IsHexDigit, HexValue, SpellsByte;
    digits := [];
    if n > 0 {
      var rest := TripletsThere(s[3..], n - 1);
      digits := [s[1..3]] + rest;
      TripletExactly(s[1..3], Triplets(s)[0]);
      assert digits[1..] == rest && s[..3 * n] == [PERCENT] + s[1..3] + s[3..][..3 * (n - 1)];
      assert Triplets(s)[..n] == [Triplets(s)[0]] + Triplets(s[3..])[..n - 1];
    }
  }

  lemma {:induction false} UnreservedExactly(c: Byte)
    ensures IsUnreserved(c) <==> !NeedPercentEncode(c)
  {
  }

  /** A scalar value is validated by its own bytes, whatever follows. */
  lemma {:induction false} ValidatesScalar(c: nat, more: Bytes)
    requires IsScalarValue(c)
    ensures ValidateUtf8(EncodeUtf8(c) + more).ok && ValidateUtf8(EncodeUtf8(c) + more).out == EncodeUtf8(c)
    ensures 0 < |EncodeUtf8(c)| && (|EncodeUtf8(c)| == 1 <==> c <= 0x7F) && (c <= 0x7F ==> EncodeUtf8(c) == [c])
  {
    hide ValidateUtf8, DecodeUtf8;
    var s := EncodeUtf8(c) + more;
    DecodeInvertsEncode(c, more);
    ValidateAgreesWithDecode(s);
    assert s[..|EncodeUtf8(c)|] == EncodeUtf8(c);
  }

  /** Whatever is validated is a scalar value. */
  lemma {:induction false} ScalarThere(s: Bytes) returns (c: nat)
    requires s != [] && ValidateUtf8(s).ok
    ensures IsScalarValue(c) && ValidateUtf8(s).out == EncodeUtf8(c) <= s
  {
    hide ValidateUtf8, DecodeUtf8;
    ValidateAgreesWithDecode(s);
    DecodeAcceptsExactly(s);
    c := DecodeUtf8(s).codepoint;
  }

  // ------------------------------------------------------------ names

  lemma {:induction false} ReadsEncoded(x: Part, rest: Bytes, name: Bytes)
    requires IsPart(x, true) && x.Encoded?
    ensures ParseName(PartText(x, true) + rest, true, name) == ParseName(rest, true, name + PartBytes(x, true))
  {
    hide ValidateUtf8, EncodeUtf8, SpellsByte, Triplets;
    var out, text := EncodeUtf8(x.codepoint), PartText(x, true);
    var s := text + rest;
    ReadsTriplets(x.triplets, out, rest);
    ValidatesScalar(x.codepoint, Triplets(rest));
    assert s[0] == PERCENT && s[3 * |out|..] == rest;
  }

  lemma {:induction false} ReadsTilde(x: Part, rest: Bytes, fragment: bool, name: Bytes)
    requires IsPart(x, fragment) && x.Tilde?
    ensures ParseName(PartText(x, fragment) + rest, fragment, name) == ParseName(rest, fragment, name + PartBytes(x, fragment))
  {
    hide ValidateUtf8, SpellsByte, Triplets, NeedPercentEncode;
    var digit: Byte := if x.solidus then 0x31 else 0x30;
    var s, more := PartText(x, fragment) + rest, [digit] + rest;
    assert more[1..] == rest;
    UnreservedExactly(TILDE);
    if x.digits == [] {
      assert s == [TILDE] + more && s[1..] == more;
    } else {
      assert s == [PERCENT] + x.digits + more;
      TwoDigits(x.digits, TILDE);
      ReadsTriplet(x.digits, TILDE, more);
      ValidatesScalar(TILDE, Triplets(more));
      assert s[0] == PERCENT && s[3..] == more;
    }
  }

  lemma {:induction false} ReadsPart(x: Part, rest: Bytes, fragment: bool, name: Bytes)
    requires IsPart(x, fragment)
    ensures ParseName(PartText(x, fragment) + rest, fragment, name) == ParseName(rest, fragment, name + PartBytes(x, fragment))
  {
    hide ValidateUtf8, SpellsByte, Triplets, NeedPercentEncode;
    match x
    case Itself(c) =>
      UnreservedExactly(c);
      UnreservedExactly(PERCENT);
      assert ([c] + rest)[1..] == rest;
    case Tilde(_, _) => ReadsTilde(x, rest, fragment, name);
    case Encoded(_, _) => ReadsEncoded(x, rest, name);
  }

  /** Parts up to the end or to a solidus are read as the bytes that they stand for. */
  lemma {:induction false} ReadsParts(xs: seq<Part>, rest: Bytes, fragment: bool, name: Bytes)
    requires AreParts(xs, fragment) && (rest == [] || rest[0] == SOLIDUS)
    ensures ParseName(PartsText(xs, fragment) + rest, fragment, name) == NameOk(rest, name + PartsBytes(xs, fragment))
    decreases |xs|
  {
    hide IsPart, PartText, PartBytes, ParseName;
    if xs == [] {
      assert [] + rest == rest && name + [] == name;
      NameEnds(rest, fragment, name);
    } else {
      var more := PartsText(xs[1..], fragment) + rest;
      assert PartsText(xs, fragment) + rest == PartText(xs[0], fragment) + more;
      ReadsPart(xs[0], more, fragment, name);
      ReadsParts(xs[1..], rest, fragment, name + PartBytes(xs[0], fragment));
      assert name + PartBytes(xs[0], fragment) + PartsBytes(xs[1..], fragment) == name + PartsBytes(xs, fragment);
    }
  }

  lemma {:induction false} NameEnds(rest: Bytes, fragment: bool, name: Bytes)
    requires rest == [] || rest[0] == SOLIDUS
    ensures ParseName(rest, fragment, name) == NameOk(rest, name)
  {
  }

  /** What comes next in a name that is read, unless it is at its end. */
  lemma {:induction false} NextPart(s: Bytes, fragment: bool, name: Bytes) returns (x: Part, rest: Bytes)
    requires s != [] && s[0] != SOLIDUS && ParseName(s, fragment, name).NameOk?
    ensures IsPart(x, fragment) && s == PartText(x, fragment) + rest && |rest| < |s|
  {
    hide ValidateUtf8, SpellsByte, Triplets, NeedPercentEncode;
    UnreservedExactly(s[0]);
    if fragment && s[0] == PERCENT {
      x, rest := NextEncoded(s, name);
    } else if s[0] == TILDE {
      x, rest := Tilde(s[1] == 0x31, []), s[2..];
      assert s == [TILDE] + [s[1]] + s[2..];
    } else {
      x, rest := Itself(s[0]), s[1..];
    }
  }

  lemma {:induction false} NextEncoded(s: Bytes, name: Bytes) returns (x: Part, rest: Bytes)
    requires s != [] && s[0] == PERCENT && ParseName(s, true, name).NameOk?
    ensures IsPart(x, true) && s == PartText(x, true) + rest && |rest| < |s|
  {
    hide ValidateUtf8, SpellsByte, Triplets, EncodeUtf8;
    var t := Triplets(s);
    NothingToValidate();
    var c := ScalarThere(t);
    var out := EncodeUtf8(c);
    ValidatesScalar(c, []);
    var digits := TripletsThere(s, |out|);
    assert t[..|out|] == out;
    rest := s[3 * |out|..];
    if c == TILDE {
      OneTriplet(digits, TILDE);
      x := Tilde(rest[0] == 0x31, digits[0]);
      assert rest[0] == 0x30 || rest[0] == 0x31;
      assert s == s[..3] + rest && rest == [rest[0]] + rest[1..];
      rest := rest[1..];
    } else {
      x := Encoded(c, digits);
      ReadsTriplets(digits, out, []);
    }
  }

  lemma {:induction false} OneTriplet(digits: seq<Bytes>, b: Byte)
    requires SpellsBytes(digits, [b])
    ensures |digits| == 1 && SpellsByte(digits[0], b) && TripletsText(digits) == [PERCENT] + digits[0]
  {
    hide SpellsByte;
    assert SpellsByte(digits[0], [b][0]);
    assert digits[1..] == [];
  }

  lemma {:induction false} NothingToValidate()
    ensures ValidateUtf8([]).ok ==> |ValidateUtf8([]).out| > 0
  {
  }

  /** Whatever is read as a name is parts up to the end or to a solidus. */
  lemma {:induction false} NameIsParts(s: Bytes, fragment: bool, name: Bytes) returns (xs: seq<Part>)
    requires ParseName(s, fragment, name).NameOk?
    ensures AreParts(xs, fragment) && s == PartsText(xs, fragment) + ParseName(s, fragment, name).rest
    ensures ParseName(s, fragment, name).name == name + PartsBytes(xs, fragment)
    decreases |s|
  {
    hide IsPart, PartText, PartBytes, ParseName;
    xs := [];
    if s == [] || s[0] == SOLIDUS {
      NameEnds(s, fragment, name);
      assert [] + s == s && name + [] == name;
    } else {
      var x, rest := NextPart(s, fragment, name);
      ReadsPart(x, rest, fragment, name);
      var more := NameIsParts(rest, fragment, name + PartBytes(x, fragment));
      xs := [x] + more;
      assert xs[1..] == more;
      assert name + PartBytes(x, fragment) + PartsBytes(more, fragment) == name + PartsBytes(xs, fragment);
    }
  }

  // ------------------------------------------------------------ pointers

  predicate AreNames(names: seq<seq<Part>>, fragment: bool) {
    forall i :: 0 <= i < |names| ==> AreParts(names[i], fragment)
  }

  /** Every name behind a solidus. */
  function NamesText(names: seq<seq<Part>>, fragment: bool): Bytes
    requires AreNames(names, fragment)
  {
    if names == [] then [] else [SOLIDUS] + (PartsText(names[0], fragment) + NamesText(names[1..], fragment))
  }

  /** The text of a pointer: in the fragment form behind a number sign. */
  function PointerText(names: seq<seq<Part>>, fragment: bool): Bytes
    requires AreNames(names, fragment)
  {
    (if fragment then [HASH] else []) + NamesText(names, fragment)
  }

  /** The tokens of the names. */
  function TokensOf(names: seq<seq<Part>>, fragment: bool): seq<Token>
    requires AreNames(names, fragment)
  {
    seq(|names|, i requires 0 <= i < |names| => NameToken(PartsBytes(names[i], fragment)))
  }

  lemma {:induction false} ReadsNames(names: seq<seq<Part>>, fragment: bool)
    requires AreNames(names, fragment)
    ensures var s := NamesText(names, fragment);
            (s == [] || s[0] == SOLIDUS) && ParseTokens(s, fragment) == TokensOk(TokensOf(names, fragment))
    decreases |names|
  {
    hide ParseName, IndexOf, PartsText, PartsBytes, AreParts;
    if names != [] {
      var rest := NamesText(names[1..], fragment);
      var s := [SOLIDUS] + (PartsText(names[0], fragment) + rest);
      ReadsNames(names[1..], fragment);
      ReadsParts(names[0], rest, fragment, []);
      assert s[1..] == PartsText(names[0], fragment) + rest;
      assert [] + PartsBytes(names[0], fragment) == PartsBytes(names[0], fragment);
      assert TokensOf(names, fragment) == [NameToken(PartsBytes(names[0], fragment))] + TokensOf(names[1..], fragment);
    }
  }

  lemma {:induction false} TokensAreNames(s: Bytes, fragment: bool) returns (names: seq<seq<Part>>)
    requires (s == [] || s[0] == SOLIDUS) && ParseTokens(s, fragment).TokensOk?
    ensures AreNames(names, fragment) && s == NamesText(names, fragment)
    decreases |s|
  {
    hide ParseName, IndexOf, PartsText, PartsBytes, AreParts;
    names := [];
    if s != [] {
      var xs := NameIsParts(s[1..], fragment, []);
      var more := TokensAreNames(ParseName(s[1..], fragment, []).rest, fragment);
      names := [xs] + more;
      assert names[1..] == more;
      assert s == [SOLIDUS] + s[1..];
    }
  }

  /** A text of the grammar is read as the tokens of its names. */
  lemma {:induction false} PointerIsRead(names: seq<seq<Part>>, fragment: bool)
    requires AreNames(names, fragment)
    ensures ParsePointer(PointerText(names, fragment)) == Parsed(TokensOf(names, fragment))
  {
    hide ParseTokens, NamesText, TokensOf;
    var text := NamesText(names, fragment);
    ReadsNames(names, fragment);
    if fragment {
      assert ([HASH] + text)[1..] == text;
    } else {
      assert [] + text == text;
    }
  }

  /** Nothing else is read. */
  lemma {:induction false} ParsesExactlyTexts(source: Bytes)
    ensures ParsePointer(source).Parsed? <==> exists names, fragment :: AreNames(names, fragment) && source == PointerText(names, fragment)
  {
    hide ParseTokens, AreNames, PointerText;
    if ParsePointer(source).Parsed? {
      var fragment := source != [] && source[0] == HASH;
      var names := TokensAreNames(if fragment then source[1..] else source, fragment);
      TextOfNames(source, names, fragment);
    }
    if names, fragment :| AreNames(names, fragment) && source == PointerText(names, fragment) {
      PointerIsRead(names, fragment);
    }
  }

  lemma {:induction false} TextOfNames(source: Bytes, names: seq<seq<Part>>, fragment: bool)
    requires AreNames(names, fragment) && fragment == (source != [] && source[0] == HASH)
    requires NamesText(names, fragment) == if fragment then source[1..] else source
    ensures source == PointerText(names, fragment)
  {
    hide NamesText;
    if fragment {
      assert source == [HASH] + source[1..];
    } else {
      assert [] + source == source;
    }
  }

  lemma {:induction false} SolidusExample(fragment: bool, source: Bytes)
    requires source == (if fragment then [HASH] else []) + [0x2F, 0x61, 0x7E, 0x31, 0x62]
    ensures ParsePointer(source) == Parsed([NameToken([0x61, 0x2F, 0x62])])
  {
    hide ParsePointer, NameToken;
    OneName(Itself(0x61), Tilde(true, []), Itself(0x62), fragment, source, [0x61, 0x2F, 0x62]);
  }

  lemma {:induction false} TildeExample(fragment: bool, source: Bytes)
    requires source == (if fragment then [HASH] else []) + [0x2F, 0x6D, 0x7E, 0x30, 0x6E]
    ensures ParsePointer(source) == Parsed([NameToken([0x6D, 0x7E, 0x6E])])
  {
    hide ParsePointer, NameToken;
    OneName(Itself(0x6D), Tilde(false, []), Itself(0x6E), fragment, source, [0x6D, 0x7E, 0x6E]);
  }

  lemma {:induction false} PercentExample()
    ensures ParsePointer([0x23, 0x2F, 0x63, 0x25, 0x32, 0x35, 0x64]) == Parsed([NameToken([0x63, 0x25, 0x64])])
  {
    hide ParsePointer, NameToken;
    assert SpellsByte([0x32, 0x35], 0x25) && EncodeUtf8(0x25) == [0x25];
    OneTriplet([[0x32, 0x35]], 0x25);
    OneName(Itself(0x63), Encoded(0x25, [[0x32, 0x35]]), Itself(0x64), true,
            [0x23, 0x2F, 0x63, 0x25, 0x32, 0x35, 0x64], [0x63, 0x25, 0x64]);
  }

  /** The examples of sections 5 and 6 of RFC 6901 for the names a/b, m~n and c%d: "/a~1b", "/m~0n" and "/c%d" as strings,
      "#/a~1b", "#/m~0n" and "#/c%25d" as fragments. */
  lemma {:induction false} PointerExamples()
    ensures ParsePointer([0x2F, 0x61, 0x7E, 0x31, 0x62]) == Parsed([NameToken([0x61, 0x2F, 0x62])])
    ensures ParsePointer([0x2F, 0x6D, 0x7E, 0x30, 0x6E]) == Parsed([NameToken([0x6D, 0x7E, 0x6E])])
    ensures ParsePointer([0x23, 0x2F, 0x63, 0x25, 0x32, 0x35, 0x64]) == Parsed([NameToken([0x63, 0x25, 0x64])])
  {
    hide ParsePointer, NameToken, IsPart, PartText, PartBytes, EncodeUtf8;
    SolidusExample(false, [0x2F, 0x61, 0x7E, 0x31, 0x62]);
    TildeExample(false, [0x2F, 0x6D, 0x7E, 0x30, 0x6E]);
    PercentExample();
  }

  lemma {:induction false} OneName(x: Part, y: Part, z: Part, fragment: bool, source: Bytes, name: Bytes)
    requires IsPart(x, fragment) && IsPart(y, fragment) && IsPart(z, fragment)
    requires source == (if fragment then [HASH] else []) + [SOLIDUS] + PartText(x, fragment) + PartText(y, fragment) + PartText(z, fragment)
    requires name == PartBytes(x, fragment) + PartBytes(y, fragment) + PartBytes(z, fragment)
    ensures ParsePointer(source) == Parsed([NameToken(name)])
  {
    hide IsPart, PartText, PartBytes, ParsePointer, NameToken;
    var xs, none: seq<seq<Part>> := [x, y, z], [];
    assert xs[1..] == [y, z] && [y, z][1..] == [z] && [z][1..] == [];
    assert PartsText([z], fragment) == PartText(z, fragment) && PartsBytes([z], fragment) == PartBytes(z, fragment);
    assert PartsText([y, z], fragment) == PartText(y, fragment) + PartText(z, fragment);
    assert PartsBytes([y, z], fragment) == PartBytes(y, fragment) + PartBytes(z, fragment);
    assert PartsBytes(xs, fragment) == name;
    assert [xs][1..] == none && NamesText(none, fragment) == [];
    assert PointerText([xs], fragment) == source;
    assert TokensOf([xs], fragment) == [NameToken(name)];
    PointerIsRead([xs], fragment);
  }

  // ------------------------------------------------------------ what errors tell

  /** There is a tilde, or its percent-encoding, in front of this place. */
  predicate TildeBefore(source: Bytes, p: nat, fragment: bool) {
    p <= |source|
    && ((p > 0 && source[p - 1] == TILDE)
        || (fragment && p >= 3 && source[p - 3] == PERCENT && SpellsByte(source[p - 2..p], TILDE)))
  }

  /** Some scalar value is percent-encoded at the front. */
  ghost predicate EncodedFirst(s: Bytes) {
    exists c: nat, digits :: IsScalarValue(c) && SpellsBytes(digits, EncodeUtf8(c)) && TripletsText(digits) <= s
  }

  ghost predicate PointerTells(source: Bytes, code: ParseCode, p: nat, fragment: bool) {
    p <= |source|
    && match code
       case TokenMustBeginWithSolidus => p == (if fragment then 1 else 0) && p < |source| && source[p] != SOLIDUS
       case InvalidEscape => TildeBefore(source, p, fragment) && !(p < |source| && source[p] in [0x30, 0x31])
       case InvalidPercentEncoding => fragment && p < |source| && source[p] == PERCENT && !EncodedFirst(source[p..])
       case CharacterMustPercentEncode =>
         fragment && p < |source| && source[p] != PERCENT && source[p] != SOLIDUS && !IsUnreserved(source[p])
  }

  /** What is left is the end of the source. */
  predicate IsRest(source: Bytes, s: Bytes) {
    |s| <= |source| && s == source[|source| - |s|..]
  }

  lemma {:induction false} RestOfRest(source: Bytes, s: Bytes, n: nat)
    requires IsRest(source, s) && n <= |s|
    ensures IsRest(source, s[n..])
  {
  }

  lemma {:induction false} EscapeErrorTells(source: Bytes, s: Bytes, fragment: bool)
    requires IsRest(source, s) && TildeBefore(source, |source| - |s|, fragment) && !(s != [] && s[0] in [0x30, 0x31])
    ensures PointerTells(source, InvalidEscape, |source| - |s|, fragment)
  {
  }

  lemma {:induction false} PercentErrorTells(s: Bytes)
    requires s != [] && s[0] == PERCENT
    ensures EncodedFirst(s) ==> ValidateUtf8(Triplets(s)).ok && |ValidateUtf8(Triplets(s)).out| <= |Triplets(s)|
  {
    hide ValidateUtf8, Triplets, SpellsBytes, EncodeUtf8;
    if c: nat, digits :| IsScalarValue(c) && SpellsBytes(digits, EncodeUtf8(c)) && TripletsText(digits) <= s {
      var text := TripletsText(digits);
      var rest := s[|text|..];
      assert s == text + rest;
      ReadsTriplets(digits, EncodeUtf8(c), rest);
      ValidatesScalar(c, Triplets(rest));
    }
  }

  /** Behind a percent-encoded tilde. */
  lemma {:induction false} EncodedTildeBefore(source: Bytes, s: Bytes)
    requires IsRest(source, s) && Triplets(s) != [] && Triplets(s)[0] == TILDE
    ensures |s| >= 3 && TildeBefore(source, |source| - |s[3..]|, true)
  {
    hide SpellsByte, IsHexDigit, HexValue;
    TripletExactly(s[1..3], TILDE);
    var p := |source| - |s| + 3;
    assert source[p - 2..p] == s[1..3];
  }

  lemma {:induction false} NameErrorTells(source: Bytes, s: Bytes, fragment: bool, name: Bytes)
    requires IsRest(source, s) && ParseName(s, fragment, name).NameErr?
    ensures var r := ParseName(s, fragment, name); PointerTells(source, r.code, |source| - |r.rest|, fragment)
    decreases |s|, 1
  {
    hide ValidateUtf8, Triplets, TildeBefore, EncodedFirst, NeedPercentEncode, PointerTells, IsRest, ParseEscaped;
    UnreservedExactly(s[0]);
    RestOfRest(source, s, 1);
    TildeStep(s[0], s[1..], fragment, name);
    if fragment && s[0] == PERCENT {
      EncodedErrorTells(source, s, name);
    } else if fragment && NeedPercentEncode(s[0]) {
      ReservedTells(source, s);
    } else if s[0] != TILDE {
      NameErrorTells(source, s[1..], fragment, name + [s[0]]);
    } else if |s| > 1 && (s[1] == 0x30 || s[1] == 0x31) {
      RestOfRest(source, s, 2);
      assert s[1..][1..] == s[2..];
      NameErrorTells(source, s[2..], fragment, name + [if s[1] == 0x30 then TILDE else SOLIDUS]);
    } else {
      PlainTildeBefore(source, s, fragment);
      EscapeErrorTells(source, s[1..], fragment);
    }
  }

  lemma {:induction false} PlainTildeBefore(source: Bytes, s: Bytes, fragment: bool)
    requires IsRest(source, s) && s != [] && s[0] == TILDE
    ensures TildeBefore(source, |source| - |s[1..]|, fragment)
  {
  }

  lemma {:induction false} ReservedTells(source: Bytes, s: Bytes)
    requires IsRest(source, s) && s != [] && s[0] != PERCENT && s[0] != SOLIDUS && !IsUnreserved(s[0])
    ensures PointerTells(source, CharacterMustPercentEncode, |source| - |s|, true)
  {
  }

  lemma {:induction false} NotEncodedTells(source: Bytes, s: Bytes)
    requires IsRest(source, s) && s != [] && s[0] == PERCENT && !EncodedFirst(s)
    ensures PointerTells(source, InvalidPercentEncoding, |source| - |s|, true)
  {
    hide EncodedFirst;
  }

  /** A step at a percent sign. */
  lemma {:induction false} EncodedStep(s: Bytes, name: Bytes)
    requires s != [] && s[0] == PERCENT
    ensures var v := ValidateUtf8(Triplets(s));
            v.ok && 0 < |v.out| <= |Triplets(s)| ==>
              if |v.out| == 1 then ParseName(s, true, name) == ParseEscaped(v.out[0], s[3..], true, name)
              else ParseName(s, true, name) == ParseName(s[3 * |v.out|..], true, name + v.out)
    ensures var v := ValidateUtf8(Triplets(s));
            !v.ok || |v.out| > |Triplets(s)| ==> ParseName(s, true, name) == NameErr(InvalidPercentEncoding, s)
  {
    hide ValidateUtf8, Triplets;
  }

  lemma {:induction false} TildeStep(c: Byte, s: Bytes, fragment: bool, name: Bytes)
    ensures ParseEscaped(c, s, fragment, name)
            == if c != TILDE then ParseName(s, fragment, name + [c])
               else if s != [] && s[0] == 0x30 then ParseName(s[1..], fragment, name + [TILDE])
               else if s != [] && s[0] == 0x31 then ParseName(s[1..], fragment, name + [SOLIDUS])
               else NameErr(InvalidEscape, s)
  {
    hide ParseName;
  }

  lemma {:induction false} EncodedErrorTells(source: Bytes, s: Bytes, name: Bytes)
    requires IsRest(source, s) && s != [] && s[0] == PERCENT && ParseName(s, true, name).NameErr?
    ensures var r := ParseName(s, true, name); PointerTells(source, r.code, |source| - |r.rest|, true)
    decreases |s|, 0
  {
    hide ValidateUtf8, Triplets, TildeBefore, EncodedFirst, NeedPercentEncode, PointerTells, ParseName, ParseEscaped, EncodeUtf8, IsRest;
    var t := Triplets(s);
    var v := ValidateUtf8(t);
    PercentErrorTells(s);
    EncodedStep(s, name);
    if !v.ok || |v.out| > |t| {
      NotEncodedTells(source, s);
    } else {
      NothingToValidate();
      RestOfRest(source, s, 3 * |v.out|);
      if |v.out| > 1 {
        NameErrorTells(source, s[3 * |v.out|..], true, name + v.out);
      } else {
        ValidatedFirst(t);
        EscapedErrorTells(source, s, name);
      }
    }
  }

  lemma {:induction false} ValidatedFirst(t: Bytes)
    requires t != [] && ValidateUtf8(t).ok
    ensures ValidateUtf8(t).out != [] && ValidateUtf8(t).out[0] == t[0]
  {
    hide ValidateUtf8;
    var c := ScalarThere(t);
    ValidatesScalar(c, []);
  }

  lemma {:induction false} EscapedErrorTells(source: Bytes, s: Bytes, name: Bytes)
    requires IsRest(source, s) && s != [] && s[0] == PERCENT && |Triplets(s)| > 0 && ParseEscaped(Triplets(s)[0], s[3..], true, name).NameErr?
    ensures var r := ParseEscaped(Triplets(s)[0], s[3..], true, name); PointerTells(source, r.code, |source| - |r.rest|, true)
    decreases |s[3..]|, 2
  {
    hide Triplets, TildeBefore, PointerTells, ParseName, ParseEscaped, IsRest;
    var c := Triplets(s)[0];
    TildeStep(c, s[3..], true, name);
    RestOfRest(source, s, 3);
    if c != TILDE {
      NameErrorTells(source, s[3..], true, name + [c]);
    } else if |s| > 3 && (s[3] == 0x30 || s[3] == 0x31) {
      RestOfRest(source, s, 4);
      assert s[3..][1..] == s[4..];
      NameErrorTells(source, s[4..], true, name + [if s[3] == 0x30 then TILDE else SOLIDUS]);
    } else {
      EncodedTildeBefore(source, s);
      EscapeErrorTells(source, s[3..], true);
    }
  }

  lemma {:induction false} TokensErrorTells(source: Bytes, s: Bytes, fragment: bool)
    requires IsRest(source, s) && (s == [] || s[0] == SOLIDUS) && ParseTokens(s, fragment).TokensErr?
    ensures var r := ParseTokens(s, fragment); PointerTells(source, r.code, |source| - |r.rest|, fragment)
    decreases |s|
  {
    hide ParseName, PointerTells, IndexOf, IsRest, PartsText, PartsBytes, AreParts;
    RestOfRest(source, s, 1);
    var r := ParseName(s[1..], fragment, []);
    if r.NameErr? {
      NameErrorTells(source, s[1..], fragment, []);
    } else {
      var xs := NameIsParts(s[1..], fragment, []);
      assert IsRest(source, r.rest) by { IsBehind(source, s[1..], PartsText(xs, fragment), r.rest); }
      TokensErrorTells(source, r.rest, fragment);
    }
  }

  lemma {:induction false} IsBehind(source: Bytes, s: Bytes, front: Bytes, rest: Bytes)
    requires IsRest(source, s) && s == front + rest
    ensures IsRest(source, rest)
  {
    RestOfRest(source, s, |front|);
    assert s[|front|..] == rest;
  }

  /** Every error of the pointer parser says what is wrong with the text at its offset. */
  lemma {:induction false} PointerErrorsTell(source: Bytes)
    requires ParsePointer(source).Failed?
    ensures var r := ParsePointer(source); PointerTells(source, r.code, r.offset, source != [] && source[0] == HASH)
  {
    hide ParseTokens;
    var fragment := source != [] && source[0] == HASH;
    var s := if fragment then source[1..] else source;
    assert IsRest(source, s);
    if s == [] || s[0] == SOLIDUS {
      hide PointerTells;
      TokensErrorTells(source, s, fragment);
    }
  }

  // ------------------------------------------------------------ what is printed

  /** A percent-encoded byte has two digits, capital ones. */
  lemma {:induction false} PercentExactly(s: Bytes)
    ensures |PercentAll(s)| == 3 * |s|
    ensures forall c: Byte :: Percent(c) == [PERCENT, UPPER_DIGITS[c / 16], UPPER_DIGITS[c % 16]]
  {
  }

  /** The printer takes the bytes of one part at a time, and writes no more for them than the part does. */
  lemma {:induction false} PrintsPart(x: Part, rest: Bytes, fragment: bool)
    requires IsPart(x, fragment) && NameText(PartBytes(x, fragment) + rest, fragment).Some?
    ensures NameText(rest, fragment).Some?
    ensures |NameText(PartBytes(x, fragment) + rest, fragment).value| <= |PartText(x, fragment)| + |NameText(rest, fragment).value|
  {
    hide ValidateUtf8, NeedPercentEncode, SpellsByte, EncodeUtf8;
    var name := PartBytes(x, fragment) + rest;
    match x
    case Itself(c) =>
      UnreservedExactly(c);
      assert name[1..] == rest;
    case Tilde(_, _) =>
      assert name[1..] == rest;
    case Encoded(c, triplets) =>
      ReadsTriplets(triplets, EncodeUtf8(c), []);
      ValidatesScalar(c, rest);
      FirstOfScalar(c);
      UnreservedExactly(name[0]);
      assert name[|EncodeUtf8(c)|..] == rest;
  }

  lemma {:induction false} FirstOfScalar(c: nat)
    requires IsScalarValue(c)
    ensures EncodeUtf8(c) != [] && (c > 0x7F ==> EncodeUtf8(c)[0] >= 0x80)
  {
  }

  /** No text that is read as a name is shorter than the one that is printed for it. */
  lemma {:induction false} PrintsShortest(xs: seq<Part>, fragment: bool)
    requires AreParts(xs, fragment) && NameText(PartsBytes(xs, fragment), fragment).Some?
    ensures |NameText(PartsBytes(xs, fragment), fragment).value| <= |PartsText(xs, fragment)|
    decreases |xs|
  {
    hide IsPart, PartText, PartBytes, NameText;
    if xs == [] {
      assert NameText([], fragment) == Some([]) by { NothingPrinted(fragment); }
    } else {
      PrintsPart(xs[0], PartsBytes(xs[1..], fragment), fragment);
      PrintsShortest(xs[1..], fragment);
    }
  }

  lemma {:induction false} NothingPrinted(fragment: bool)
    ensures NameText([], fragment) == Some([])
  {
  }
}
