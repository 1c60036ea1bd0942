/**
 Pointers in URI fragments by the standard, which decodes the whole fragment before it reads the pointer, and exactly when
 the program, which decodes one name after the other, reads the same.
 */
module PointerFragment {
  import opened Options
  import opened Json
  import opened Encodings
  import opened ReaderSpec
  import opened JsonPointer
  import opened Grammar
  import opened PointerGrammar

  /** Section 3.5 of RFC 3986: what may stand in a fragment besides percent-encoded bytes. */
  predicate IsFragmentByte(c: Byte) {
    || IsUnreserved(c)
    || c in [0x21, 0x24, 0x26, 0x27, 0x28, 0x29, 0x2A, 0x2B, 0x2C, 0x3B, 0x3D]
    || c in [0x3A, 0x40, 0x2F, 0x3F]
  }

  /** A percent sign and two hexadecimal digits are in front. */
  predicate TripletFirst(s: Bytes) {
    |s| >= 3 && s[0] == PERCENT && IsHexDigit(s[1]) && IsHexDigit(s[2])
  }

  function TripletValue(s: Bytes): Byte
    requires TripletFirst(s)
  {
    HexValue(s[1]) * 16 + HexValue(s[2])
  }

  /** The bytes of a fragment; None if it is none. */
  function Decoded(s: Bytes): Option<Bytes>
    decreases |s|
  {
    if s == [] then Some([])
    else if s[0] == PERCENT then (if TripletFirst(s) then Before([TripletValue(s)], Decoded(s[3..])) else None)
    else if IsFragmentByte(s[0]) then Before([s[0]], Decoded(s[1..]))
    else None
  }

  /** Section 6 of RFC 6901: the fragment is decoded to UTF-8 text, which is read as a pointer in the string form. */
  function ByStandard(s: Bytes): Option<seq<Token>> {
    match Decoded(s)
    case None => None
    case Some(d) =>
      if !IsUtf8(d) || (d != [] && d[0] != SOLIDUS) then None
      else match ParseTokens(d, false)
        case TokensOk(tokens) => Some(tokens)
        case TokensErr(_, _) => None
  }

  /** No byte but unreserved ones and solidi stands there for itself, no solidus is percent-encoded, and no 0 or 1 behind a
      tilde is. */
  predicate IsClean(s: Bytes, afterTilde: bool)
    decreases |s|
  {
    s == []
    || (if TripletFirst(s) then
          var b := TripletValue(s);
          b != SOLIDUS && !(afterTilde && (b == 0x30 || b == 0x31)) && IsClean(s[3..], b == TILDE)
        else (IsUnreserved(s[0]) || s[0] == SOLIDUS) && IsClean(s[1..], s[0] == TILDE))
  }

  // ------------------------------------------------------------ what the program reads is a fragment

  /** The decoded text of a part. */
  function PlainText(x: Part): Bytes
    requires IsPart(x, true)
  {
    match x
    case Itself(c) => [c]
    case Tilde(solidus, _) => [TILDE, if solidus then 0x31 else 0x30]
    case Encoded(c, _) => EncodeUtf8(c)
  }

  lemma {:induction false} TripletIs(digits: Bytes, b: Byte, rest: Bytes)
    requires SpellsByte(digits, b)
    ensures var s := [PERCENT] + digits + rest; TripletFirst(s) && TripletValue(s) == b && s[3..] == rest
  {
    hide HexValue, IsHexDigit;
    TripletExactly(digits, b);
    var s := [PERCENT] + digits + rest;
    assert s[1] == digits[0] && s[2] == digits[1] && s[3..] == rest;
  }

  lemma {:induction false} DecodesTriplet(digits: Bytes, b: Byte, rest: Bytes)
    requires SpellsByte(digits, b)
    ensures Decoded([PERCENT] + digits + rest) == Before([b], Decoded(rest))
  {
    hide TripletFirst, TripletValue, SpellsByte;
    TripletIs(digits, b, rest);
  }

  lemma {:induction false} TripletsSplit(digits: seq<Bytes>, rest: Bytes)
    ensures TripletsText(digits) + rest == if digits == [] then rest else [PERCENT] + digits[0] + (TripletsText(digits[1..]) + rest)
  {
  }

  lemma {:induction false} BeforeJoined(a: Bytes, b: Bytes, r: Option<Bytes>)
    ensures Before(a, Before(b, r)) == Before(a + b, r)
  {
    assert r.Some? ==> a + (b + r.value) == a + b + r.value;
  }

  lemma {:induction false} BeforeNothing(r: Option<Bytes>)
    ensures Before([], r) == r
  {
    assert r.Some? ==> [] + r.value == r.value;
  }

  lemma {:induction false} DecodesTriplets(digits: seq<Bytes>, bytes: Bytes, rest: Bytes)
    requires SpellsBytes(digits, bytes)
    ensures Decoded(TripletsText(digits) + rest) == Before(bytes, Decoded(rest))
    decreases |digits|
  {
    hide SpellsByte, Decoded, TripletsText, Before;
    TripletsSplit(digits, rest);
    if digits == [] {
      BeforeNothing(Decoded(rest));
    } else {
      assert SpellsByte(digits[0], bytes[0]);
      DecodesTriplet(digits[0], bytes[0], TripletsText(digits[1..]) + rest);
      DecodesTriplets(digits[1..], bytes[1..], rest);
      BeforeJoined([bytes[0]], bytes[1..], Decoded(rest));
      assert [bytes[0]] + bytes[1..] == bytes;
    }
  }

  lemma {:induction false} DecodesByte(c: Byte, rest: Bytes)
    requires c != PERCENT && IsFragmentByte(c)
    ensures Decoded([c] + rest) == Before([c], Decoded(rest))
  {
    assert ([c] + rest)[1..] == rest;
  }

  lemma {:induction false} DecodesPart(x: Part, rest: Bytes)
    requires IsPart(x, true)
    ensures Decoded(PartText(x, true) + rest) == Before(PlainText(x), Decoded(rest))
  {
    hide SpellsByte, TripletFirst, TripletValue, Decoded;
    match x
    case Itself(c) => DecodesByte(c, rest);
    case Tilde(solidus, digits) =>
      var digit: Byte := if solidus then 0x31 else 0x30;
      DecodesByte(digit, rest);
      if digits == [] {
        DecodesByte(TILDE, [digit] + rest);
        assert [TILDE] + [digit] + rest == [TILDE] + ([digit] + rest);
      } else {
        OneByte(digits, TILDE);
        DecodesTriplets([digits], [TILDE], [digit] + rest);
        assert [PERCENT] + digits + [digit] + rest == [PERCENT] + digits + ([digit] + rest);
      }
      assert Decoded(rest).Some? ==> [TILDE] + ([digit] + Decoded(rest).value) == [TILDE, digit] + Decoded(rest).value;
    case Encoded(c, triplets) => DecodesTriplets(triplets, EncodeUtf8(c), rest);
  }

  lemma {:induction false} OneByte(digits: Bytes, b: Byte)
    requires SpellsByte(digits, b)
    ensures SpellsBytes([digits], [b]) && TripletsText([digits]) == [PERCENT] + digits
  {
    hide SpellsByte;
    assert [digits][1..] == [];
    assert TripletsText([digits]) == [PERCENT] + digits + TripletsText([digits][1..]);
  }

  predicate EncodesSolidus(x: Part) {
    x.Encoded? && x.codepoint == SOLIDUS
  }

  lemma {:induction false} CleanTriplet(digits: Bytes, b: Byte, rest: Bytes, afterTilde: bool)
    requires SpellsByte(digits, b)
    ensures IsClean([PERCENT] + digits + rest, afterTilde)
       <==> b != SOLIDUS && !(afterTilde && (b == 0x30 || b == 0x31)) && IsClean(rest, b == TILDE)
  {
    hide SpellsByte, TripletFirst, TripletValue;
    TripletIs(digits, b, rest);
  }

  /** Bytes that are not of ASCII. */
  lemma {:induction false} CleanHigh(digits: seq<Bytes>, bytes: Bytes, rest: Bytes, afterTilde: bool)
    requires SpellsBytes(digits, bytes) && forall i :: 0 <= i < |bytes| ==> bytes[i] >= 0x80
    ensures IsClean(TripletsText(digits) + rest, afterTilde) <==> IsClean(rest, if digits == [] then afterTilde else false)
    decreases |digits|
  {
    hide SpellsByte, IsClean;
    if digits == [] {
      assert [] + rest == rest;
    } else {
      assert SpellsByte(digits[0], bytes[0]);
      CleanTriplet(digits[0], bytes[0], TripletsText(digits[1..]) + rest, afterTilde);
      CleanHigh(digits[1..], bytes[1..], rest, false);
      assert TripletsText(digits) + rest == [PERCENT] + digits[0] + (TripletsText(digits[1..]) + rest);
    }
  }

  lemma {:induction false} CleanByte(c: Byte, rest: Bytes, afterTilde: bool)
    requires c != PERCENT
    ensures IsClean([c] + rest, afterTilde) <==> (IsUnreserved(c) || c == SOLIDUS) && IsClean(rest, c == TILDE)
  {
    assert ([c] + rest)[1..] == rest;
  }

  lemma {:induction false} ScalarBytes(c: nat)
    requires IsScalarValue(c)
    ensures if c <= 0x7F then EncodeUtf8(c) == [c] else forall i :: 0 <= i < |EncodeUtf8(c)| ==> EncodeUtf8(c)[i] >= 0x80
    ensures EncodeUtf8(c) != []
  {
  }

  /** A part is clean unless it is a percent-encoded solidus. */
  lemma {:induction false} CleanPart(x: Part, rest: Bytes)
    requires IsPart(x, true)
    ensures IsClean(PartText(x, true) + rest, false) <==> !EncodesSolidus(x) && IsClean(rest, false)
  {
    hide SpellsByte, IsClean, EncodeUtf8;
    match x
    case Itself(c) => CleanByte(c, rest, false);
    case Tilde(solidus, digits) =>
      var digit: Byte := if solidus then 0x31 else 0x30;
      CleanByte(digit, rest, true);
      if digits == [] {
        CleanByte(TILDE, [digit] + rest, false);
        assert [TILDE] + [digit] + rest == [TILDE] + ([digit] + rest);
      } else {
        CleanTriplet(digits, TILDE, [digit] + rest, false);
        assert [PERCENT] + digits + [digit] + rest == [PERCENT] + digits + ([digit] + rest);
      }
    case Encoded(c, triplets) =>
      ScalarBytes(c);
      if c <= 0x7F {
        OneTriplet(triplets, c);
        CleanTriplet(triplets[0], c, rest, false);
      } else {
        CleanHigh(triplets, EncodeUtf8(c), rest, false);
      }
  }

  // ------------------------------------------------------------ decoded texts

  /** Every tilde has 0 or 1 behind it. */
  predicate TildesEscape(d: Bytes)
    decreases |d|
  {
    d == [] || (if d[0] == TILDE then |d| > 1 && d[1] in [0x30, 0x31] && TildesEscape(d[2..]) else TildesEscape(d[1..]))
  }

  function Solidi(d: Bytes): nat {
    if d == [] then 0 else (if d[0] == SOLIDUS then 1 else 0) + Solidi(d[1..])
  }

  lemma {:induction false} SolidiJoined(a: Bytes, b: Bytes)
    ensures Solidi(a + b) == Solidi(a) + Solidi(b)
    decreases |a|
  {
    if a == [] {
      assert a + b == b;
    } else {
      assert (a + b)[1..] == a[1..] + b;
      SolidiJoined(a[1..], b);
    }
  }

  lemma {:induction false} NoSolidi(a: Bytes)
    requires SOLIDUS !in a
    ensures Solidi(a) == 0
  {
    if a != [] {
      NoSolidi(a[1..]);
    }
  }

  lemma {:induction false} OtherBytes(a: Bytes, b: Bytes)
    requires TILDE !in a
    ensures TildesEscape(a + b) == TildesEscape(b)
    decreases |a|
  {
    if a == [] {
      assert a + b == b;
    } else {
      assert (a + b)[1..] == a[1..] + b;
      OtherBytes(a[1..], b);
    }
  }

  lemma {:induction false} Utf8Joined(c: nat, rest: Bytes)
    requires IsScalarValue(c)
    ensures IsUtf8(EncodeUtf8(c) + rest) == IsUtf8(rest)
  {
    hide EncodeUtf8, Utf8CharLength;
    EncodeIsWellFormed(c, rest);
    ScalarBytes(c);
    assert (EncodeUtf8(c) + rest)[|EncodeUtf8(c)|..] == rest;
  }

  /** What a decoded part adds to a text: UTF-8, escapes, and a solidus exactly if it was percent-encoded. */
  lemma {:induction false} PlainAdds(x: Part, rest: Bytes)
    requires IsPart(x, true)
    ensures IsUtf8(PlainText(x) + rest) == IsUtf8(rest) && TildesEscape(PlainText(x) + rest) == TildesEscape(rest)
    ensures Solidi(PlainText(x) + rest) == Solidi(rest) + if EncodesSolidus(x) then 1 else 0
  {
    hide IsUtf8, EncodeUtf8, Solidi, TildesEscape, SpellsByte;
    SolidiJoined(PlainText(x), rest);
    match x
    case Itself(c) =>
      ScalarBytes(c);
      Utf8Joined(c, rest);
      OtherBytes([c], rest);
      NoSolidi([c]);
    case Tilde(solidus, _) =>
      var digit: Byte := if solidus then 0x31 else 0x30;
      ScalarBytes(TILDE);
      ScalarBytes(digit);
      Utf8Joined(TILDE, [digit] + rest);
      Utf8Joined(digit, rest);
      TildeEscapes(digit, rest);
      NoSolidi([TILDE, digit]);
      assert [TILDE, digit] + rest == [TILDE] + ([digit] + rest);
    case Encoded(c, _) =>
      ScalarBytes(c);
      Utf8Joined(c, rest);
      OtherBytes(EncodeUtf8(c), rest);
      if c == SOLIDUS {
        OneSolidus();
      } else {
        NoSolidi(EncodeUtf8(c));
      }
  }

  lemma {:induction false} TildeEscapes(digit: Byte, rest: Bytes)
    requires digit in [0x30, 0x31]
    ensures TildesEscape([TILDE, digit] + rest) == TildesEscape(rest)
  {
    assert ([TILDE, digit] + rest)[2..] == rest;
  }

  lemma {:induction false} OneSolidus()
    ensures Solidi([SOLIDUS]) == 1
  {
    assert [SOLIDUS][1..] == [];
  }

  function PlainTexts(xs: seq<Part>): Bytes
    requires AreParts(xs, true)
  {
    if xs == [] then [] else PlainText(xs[0]) + PlainTexts(xs[1..])
  }

  function EncodedSolidi(xs: seq<Part>): nat {
    if xs == [] then 0 else (if EncodesSolidus(xs[0]) then 1 else 0) + EncodedSolidi(xs[1..])
  }

  /** A name with what follows: how it decodes, and what it adds. */
  lemma {:induction false} NameDecodes(xs: seq<Part>, rest: Bytes, d: Bytes)
    requires AreParts(xs, true) && Decoded(rest) == Some(d)
    ensures Decoded(PartsText(xs, true) + rest) == Some(PlainTexts(xs) + d)
    ensures IsUtf8(PlainTexts(xs) + d) == IsUtf8(d) && TildesEscape(PlainTexts(xs) + d) == TildesEscape(d)
    ensures Solidi(PlainTexts(xs) + d) == EncodedSolidi(xs) + Solidi(d)
    ensures IsClean(PartsText(xs, true) + rest, false) <==> EncodedSolidi(xs) == 0 && IsClean(rest, false)
    decreases |xs|
  {
    hide IsPart, PartText, PlainText, Decoded, IsUtf8, Solidi, TildesEscape, IsClean, EncodesSolidus;
    if xs == [] {
      assert [] + rest == rest && [] + d == d;
    } else {
      var more, after := PartsText(xs[1..], true) + rest, PlainTexts(xs[1..]) + d;
      NameDecodes(xs[1..], rest, d);
      assert PartsText(xs, true) + rest == PartText(xs[0], true) + more;
      assert PlainTexts(xs) + d == PlainText(xs[0]) + after;
      DecodesPart(xs[0], more);
      PlainAdds(xs[0], after);
      CleanPart(xs[0], more);
    }
  }

  // ------------------------------------------------------------ whole pointers

  function PlainNames(names: seq<seq<Part>>): Bytes
    requires AreNames(names, true)
  {
    if names == [] then [] else [SOLIDUS] + (PlainTexts(names[0]) + PlainNames(names[1..]))
  }

  function AllEncodedSolidi(names: seq<seq<Part>>): nat {
    if names == [] then 0 else EncodedSolidi(names[0]) + AllEncodedSolidi(names[1..])
  }

  lemma {:induction false} NamesDecode(names: seq<seq<Part>>)
    requires AreNames(names, true)
    ensures var s, d := NamesText(names, true), PlainNames(names);
            && Decoded(s) == Some(d) && IsUtf8(d) && TildesEscape(d) && (d == [] || d[0] == SOLIDUS)
            && Solidi(d) == |names| + AllEncodedSolidi(names) && (IsClean(s, false) <==> AllEncodedSolidi(names) == 0)
    decreases |names|
  {
    hide AreParts, PartsText, PlainTexts, Decoded, IsUtf8, TildesEscape, IsClean, EncodedSolidi, Solidi;
    if names == [] {
      NothingDecoded();
    } else {
      var rest, d := NamesText(names[1..], true), PlainNames(names[1..]);
      NamesDecode(names[1..]);
      NameDecodes(names[0], rest, d);
      var text, plain := PartsText(names[0], true) + rest, PlainTexts(names[0]) + d;
      DecodesByte(SOLIDUS, text);
      CleanByte(SOLIDUS, text, false);
      ScalarBytes(SOLIDUS);
      Utf8Joined(SOLIDUS, plain);
      OtherBytes([SOLIDUS], plain);
      SolidiJoined([SOLIDUS], plain);
      OneSolidus();
    }
  }

  lemma {:induction false} NothingDecoded()
    ensures Decoded([]) == Some([]) && IsUtf8([]) && TildesEscape([]) && IsClean([], false) && Solidi([]) == 0
  {
  }

  // ------------------------------------------------------------ decoded texts in the string form

  lemma {:induction false} StringNameAdds(xs: seq<Part>, rest: Bytes)
    requires AreParts(xs, false)
    ensures Solidi(PartsText(xs, false) + rest) == Solidi(rest) && TildesEscape(PartsText(xs, false) + rest) == TildesEscape(rest)
    decreases |xs|
  {
    hide IsPart, PartText, Solidi, TildesEscape;
    if xs == [] {
      assert [] + rest == rest;
    } else {
      var more := PartsText(xs[1..], false) + rest;
      StringNameAdds(xs[1..], rest);
      assert PartsText(xs, false) + rest == PartText(xs[0], false) + more;
      StringPartAdds(xs[0], more);
    }
  }

  lemma {:induction false} StringPartAdds(x: Part, rest: Bytes)
    requires IsPart(x, false)
    ensures Solidi(PartText(x, false) + rest) == Solidi(rest) && TildesEscape(PartText(x, false) + rest) == TildesEscape(rest)
  {
    hide Solidi, TildesEscape;
    SolidiJoined(PartText(x, false), rest);
    NoSolidi(PartText(x, false));
    match x
    case Itself(c) => OtherBytes([c], rest);
    case Tilde(solidus, _) =>
      TildeEscapes(if solidus then 0x31 else 0x30, rest);
      assert PartText(x, false) == [TILDE, if solidus then 0x31 else 0x30];
  }

  lemma {:induction false} StringNamesAdd(names: seq<seq<Part>>)
    requires AreNames(names, false)
    ensures Solidi(NamesText(names, false)) == |names| && TildesEscape(NamesText(names, false))
    decreases |names|
  {
    hide AreParts, PartsText, Solidi, TildesEscape;
    if names == [] {
      NothingDecoded();
    } else {
      var rest := NamesText(names[1..], false);
      StringNamesAdd(names[1..]);
      StringNameAdds(names[0], rest);
      SolidiJoined([SOLIDUS], PartsText(names[0], false) + rest);
      OneSolidus();
      OtherBytes([SOLIDUS], PartsText(names[0], false) + rest);
    }
  }

  /** In the string form there is one token for each solidus, and every tilde escapes. */
  lemma {:induction false} StringTokens(d: Bytes)
    requires (d == [] || d[0] == SOLIDUS) && ParseTokens(d, false).TokensOk?
    ensures |ParseTokens(d, false).tokens| == Solidi(d) && TildesEscape(d)
  {
    hide ParseTokens, Solidi, TildesEscape;
    var names := TokensAreNames(d, false);
    ReadsNames(names, false);
    StringNamesAdd(names);
  }

  /** And where every tilde does the text is read. */
  lemma {:induction false} EscapesAreRead(d: Bytes)
    requires (d == [] || d[0] == SOLIDUS) && TildesEscape(d)
    ensures ParseTokens(d, false).TokensOk?
    decreases |d|
  {
    hide ParseName, IndexOf;
    if d != [] {
      NameIsRead(d[1..], []);
      EscapesAreRead(ParseName(d[1..], false, []).rest);
    }
  }

  lemma {:induction false} NameIsRead(d: Bytes, name: Bytes)
    requires TildesEscape(d)
    ensures var r := ParseName(d, false, name); r.NameOk? && TildesEscape(r.rest)
    decreases |d|
  {
    hide NeedPercentEncode;
    if d != [] && d[0] != SOLIDUS {
      TildeStep(d[0], d[1..], false, name);
      if d[0] == TILDE {
        assert d[1..][1..] == d[2..];
        NameIsRead(d[2..], name + [if d[1] == 0x30 then TILDE else SOLIDUS]);
      } else {
        NameIsRead(d[1..], name + [d[0]]);
      }
    }
  }

  lemma {:induction false} ReadsBytes(bytes: Bytes, rest: Bytes, name: Bytes)
    requires TILDE !in bytes && SOLIDUS !in bytes
    ensures ParseName(bytes + rest, false, name) == ParseName(rest, false, name + bytes)
    decreases |bytes|
  {
    if bytes == [] {
      assert [] + rest == rest && name + [] == name;
    } else {
      var s := bytes + rest;
      assert s[1..] == bytes[1..] + rest;
      ReadsBytes(bytes[1..], rest, name + [bytes[0]]);
      assert name + [bytes[0]] + bytes[1..] == name + bytes;
    }
  }

  lemma {:induction false} ReadsPlain(x: Part, rest: Bytes, name: Bytes)
    requires IsPart(x, true) && !EncodesSolidus(x)
    ensures ParseName(PlainText(x) + rest, false, name) == ParseName(rest, false, name + PartBytes(x, true))
  {
    hide EncodeUtf8, SpellsByte, ParseName;
    match x
    case Itself(c) => ReadsBytes([c], rest, name);
    case Tilde(solidus, _) => ReadsPart(Tilde(solidus, []), rest, false, name);
      assert PartText(Tilde(solidus, []), false) == PlainText(x);
    case Encoded(c, _) =>
      ScalarBytes(c);
      ReadsBytes(EncodeUtf8(c), rest, name);
  }

  lemma {:induction false} ReadsPlainName(xs: seq<Part>, rest: Bytes, name: Bytes)
    requires AreParts(xs, true) && EncodedSolidi(xs) == 0 && (rest == [] || rest[0] == SOLIDUS)
    ensures ParseName(PlainTexts(xs) + rest, false, name) == NameOk(rest, name + PartsBytes(xs, true))
    decreases |xs|
  {
    hide IsPart, PlainText, PartBytes, ParseName, EncodesSolidus;
    if xs == [] {
      assert [] + rest == rest && name + [] == name;
      NameEnds(rest, false, name);
    } else {
      var more := PlainTexts(xs[1..]) + rest;
      assert PlainTexts(xs) + rest == PlainText(xs[0]) + more;
      ReadsPlain(xs[0], more, name);
      ReadsPlainName(xs[1..], rest, name + PartBytes(xs[0], true));
      assert name + PartBytes(xs[0], true) + PartsBytes(xs[1..], true) == name + PartsBytes(xs, true);
    }
  }

  lemma {:induction false} ReadsPlainNames(names: seq<seq<Part>>)
    requires AreNames(names, true) && AllEncodedSolidi(names) == 0
    ensures var d := PlainNames(names);
            (d == [] || d[0] == SOLIDUS) && ParseTokens(d, false) == TokensOk(TokensOf(names, true))
    decreases |names|
  {
    hide ParseName, IndexOf, PlainTexts, PartsBytes, AreParts, EncodedSolidi;
    if names != [] {
      var rest := PlainNames(names[1..]);
      var d := [SOLIDUS] + (PlainTexts(names[0]) + rest);
      ReadsPlainNames(names[1..]);
      ReadsPlainName(names[0], rest, []);
      assert d[1..] == PlainTexts(names[0]) + rest;
      assert [] + PartsBytes(names[0], true) == PartsBytes(names[0], true);
      assert TokensOf(names, true) == [NameToken(PartsBytes(names[0], true))] + TokensOf(names[1..], true);
    }
  }

  // ------------------------------------------------------------ clean fragments are read

  /** A clean fragment of UTF-8 in which every tilde escapes. */
  predicate IsGood(s: Bytes) {
    Decoded(s).Some? && IsUtf8(Decoded(s).value) && TildesEscape(Decoded(s).value) && IsClean(s, false)
  }

  /** Behind a tilde there is an escape, and what follows is good again. */
  lemma {:induction false} GoodBehindTilde(s: Bytes)
    requires Decoded(s).Some? && IsUtf8([TILDE] + Decoded(s).value) && TildesEscape([TILDE] + Decoded(s).value) && IsClean(s, true)
    ensures s != [] && s[0] in [0x30, 0x31] && IsGood(s[1..])
  {
    hide IsUtf8, TripletFirst, TripletValue;
    var d := Decoded(s).value;
    assert ([TILDE] + d)[1..] == d;
    TildeThenDigit(d);
    ScalarBytes(TILDE);
    Utf8Joined(TILDE, d);
    DigitFirst(s);
    ScalarBytes(d[0]);
    Utf8Joined(d[0], d[1..]);
    assert [d[0]] + d[1..] == d && ([TILDE] + d)[2..] == d[1..];
  }

  lemma {:induction false} TildeThenDigit(d: Bytes)
    requires TildesEscape([TILDE] + d)
    ensures d != [] && d[0] in [0x30, 0x31] && TildesEscape(d[1..])
  {
    assert ([TILDE] + d)[2..] == d[1..];
  }

  lemma {:induction false} DigitFirst(s: Bytes)
    requires s != [] && Decoded(s).Some? && Decoded(s).value[0] in [0x30, 0x31] && IsClean(s, true)
    ensures s[0] == Decoded(s).value[0] && Decoded(s[1..]) == Some(Decoded(s).value[1..]) && IsClean(s[1..], false)
  {
    hide TripletValue, IsFragmentByte;
    var rest := Decoded(s[1..]);
    assert rest.Some? ==> ([s[0]] + rest.value)[1..] == rest.value;
  }

  lemma {:induction false} HighIsTriplet(s: Bytes, afterTilde: bool)
    requires Decoded(s).Some? && Decoded(s).value != [] && Decoded(s).value[0] >= 0x80 && IsClean(s, afterTilde)
    ensures TripletFirst(s)
  {
    hide IsFragmentByte;
  }

  /** Bytes that are not of ASCII come from triplets. */
  lemma {:induction false} HighAreTriplets(s: Bytes, n: nat, afterTilde: bool)
    requires Decoded(s).Some? && n <= |Decoded(s).value| && forall i :: 0 <= i < n ==> Decoded(s).value[i] >= 0x80
    requires IsClean(s, afterTilde)
    ensures n <= |Triplets(s)| && Triplets(s)[..n] == Decoded(s).value[..n]
    ensures Decoded(s[3 * n..]) == Some(Decoded(s).value[n..]) && (n > 0 ==> IsClean(s[3 * n..], false))
    decreases n
  {
    hide IsHexDigit, HexValue;
    if n > 0 {
      var d := Decoded(s).value;
      HighIsTriplet(s, afterTilde);
      var rest := Decoded(s[3..]).value;
      assert d[1..] == rest && d[0] == TripletValue(s) && Triplets(s) == [d[0]] + Triplets(s[3..]);
      assert forall i :: 0 <= i < n - 1 ==> rest[i] == d[i + 1];
      HighAreTriplets(s[3..], n - 1, false);
      assert s[3..][3 * (n - 1)..] == s[3 * n..] && rest[n - 1..] == d[n..];
      assert d[..n] == [d[0]] + rest[..n - 1];
    }
  }

  /** The first character of a good fragment that is percent-encoded, other than a tilde. */
  lemma {:induction false} GoodCharacter(s: Bytes) returns (n: nat, c: nat)
    requires IsGood(s) && TripletFirst(s) && TripletValue(s) != TILDE
    ensures IsScalarValue(c) && n == |EncodeUtf8(c)| <= |Triplets(s)| && EncodeUtf8(c) == Triplets(s)[..n] && c != TILDE
    ensures 0 < n && IsGood(s[3 * n..])
  {
    hide EncodeUtf8, IsUtf8, TildesEscape, IsHexDigit, HexValue;
    var d, b := Decoded(s).value, TripletValue(s);
    assert d[0] == b && d[1..] == Decoded(s[3..]).value && Triplets(s) == [b] + Triplets(s[3..]);
    c, n := FirstScalar(d);
    ScalarBytes(c);
    assert d == EncodeUtf8(c) + d[n..];
    Utf8Joined(c, d[n..]);
    if c <= 0x7F {
      OtherBytes([b], d[1..]);
      assert Triplets(s)[..1] == [b];
    } else {
      assert forall i :: 0 <= i < n ==> d[i] == EncodeUtf8(c)[i];
      HighAreTriplets(s, n, false);
      OtherBytes(EncodeUtf8(c), d[n..]);
    }
  }

  lemma {:induction false} FirstScalar(d: Bytes) returns (c: nat, n: nat)
    requires d != [] && IsUtf8(d)
    ensures IsScalarValue(c) && n == |EncodeUtf8(c)| <= |d| && EncodeUtf8(c) == d[..n] && 0 < n
  {
    hide EncodeUtf8, Utf8CharLength, DecodeUtf8;
    DecodeAcceptsExactly(d);
    c := DecodeUtf8(d).codepoint;
    n := DecodeUtf8(d).taken;
  }

  /** A name in a good fragment is read, and what is left is good. */
  lemma {:induction false} GoodNameIsRead(s: Bytes, name: Bytes)
    requires IsGood(s)
    ensures var r := ParseName(s, true, name); r.NameOk? && IsGood(r.rest)
    decreases |s|
  {
    hide IsGood, ParseName, ParseEscaped, ValidateUtf8, Triplets, TripletFirst, TripletValue, NeedPercentEncode;
    if s == [] || s[0] == SOLIDUS {
      NameEnds(s, true, name);
    } else if TripletFirst(s) {
      GoodTripletIsRead(s, name);
    } else {
      GoodByteIsRead(s, name);
    }
  }

  lemma {:induction false} GoodTripletIsRead(s: Bytes, name: Bytes)
    requires IsGood(s) && TripletFirst(s)
    ensures var r := ParseName(s, true, name); r.NameOk? && IsGood(r.rest)
    decreases |s|, 0
  {
    hide IsGood, ParseName, ParseEscaped, ValidateUtf8, EncodeUtf8, IsHexDigit, HexValue;
    var t := Triplets(s);
    EncodedStep(s, name);
    if TripletValue(s) == TILDE {
      assert t[0] == TILDE && t == [TILDE] + t[1..];
      ScalarBytes(TILDE);
      ValidatesScalar(TILDE, t[1..]);
      EncodedTildeGood(s);
      TildeStep(TILDE, s[3..], true, name);
      assert s[3..][1..] == s[4..];
      GoodNameIsRead(s[4..], name + [if s[3] == 0x30 then TILDE else SOLIDUS]);
    } else {
      var n, c := GoodCharacter(s);
      var out := EncodeUtf8(c);
      assert t == out + t[n..];
      ValidatesScalar(c, t[n..]);
      TildeStep(out[0], s[3..], true, name);
      GoodNameIsRead(s[3 * n..], name + out);
    }
  }

  lemma {:induction false} EncodedTildeGood(s: Bytes)
    requires IsGood(s) && TripletFirst(s) && TripletValue(s) == TILDE
    ensures |s| > 3 && s[3] in [0x30, 0x31] && IsGood(s[4..])
  {
    hide IsUtf8, TildesEscape, IsHexDigit, HexValue;
    GoodBehindTilde(s[3..]);
    assert s[3..][1..] == s[4..];
  }

  lemma {:induction false} GoodByteIsRead(s: Bytes, name: Bytes)
    requires IsGood(s) && s != [] && s[0] != SOLIDUS && !TripletFirst(s)
    ensures var r := ParseName(s, true, name); r.NameOk? && IsGood(r.rest)
    decreases |s|, 0
  {
    hide ParseEscaped, ParseName, IsUtf8, TildesEscape, TripletFirst, TripletValue, NeedPercentEncode, IsUnreserved;
    PlainStep(s, name);
    TildeStep(s[0], s[1..], true, name);
    if s[0] == TILDE {
      GoodBehindTilde(s[1..]);
      assert s[1..][1..] == s[2..];
      GoodNameIsRead(s[2..], name + [if s[1] == 0x30 then TILDE else SOLIDUS]);
    } else {
      var d := Decoded(s[1..]).value;
      AsciiFirst(s);
      ScalarBytes(s[0]);
      Utf8Joined(s[0], d);
      OtherBytes([s[0]], d);
      GoodNameIsRead(s[1..], name + [s[0]]);
    }
  }

  lemma {:induction false} AsciiFirst(s: Bytes)
    requires s != [] && (IsUnreserved(s[0]) || s[0] == SOLIDUS)
    ensures s[0] <= 0x7F && s[0] != PERCENT
  {
  }

  lemma {:induction false} PlainStep(s: Bytes, name: Bytes)
    requires s != [] && s[0] != SOLIDUS && IsClean(s, false) && !TripletFirst(s)
    ensures IsUnreserved(s[0]) && ParseName(s, true, name) == ParseEscaped(s[0], s[1..], true, name)
  {
    hide TripletFirst, ParseEscaped;
    UnreservedExactly(s[0]);
    UnreservedExactly(PERCENT);
  }

  lemma {:induction false} GoodIsRead(s: Bytes)
    requires IsGood(s) && (s == [] || s[0] == SOLIDUS)
    ensures ParseTokens(s, true).TokensOk?
    decreases |s|
  {
    hide ParseName, IndexOf, IsGood;
    if s != [] {
      GoodBehindSolidus(s);
      GoodNameIsRead(s[1..], []);
      GoodIsRead(ParseName(s[1..], true, []).rest);
    }
  }

  lemma {:induction false} GoodBehindSolidus(s: Bytes)
    requires IsGood(s) && s != [] && s[0] == SOLIDUS
    ensures IsGood(s[1..])
  {
    hide IsUtf8, TildesEscape;
    var d := Decoded(s[1..]).value;
    ScalarBytes(SOLIDUS);
    Utf8Joined(SOLIDUS, d);
    OtherBytes([SOLIDUS], d);
  }

  // ------------------------------------------------------------ exactly when

  /** A fragment that the program reads is a pointer by the standard too. */
  lemma {:induction false} ReadIsStandard(s: Bytes)
    requires ParsePointer([HASH] + s).Parsed?
    ensures ByStandard(s).Some?
  {
    hide ParseTokens, Decoded, IsUtf8, TildesEscape, Solidi;
    assert ([HASH] + s)[1..] == s;
    var names := TokensAreNames(s, true);
    NamesDecode(names);
    EscapesAreRead(PlainNames(names));
  }

  /** Where a fragment is a pointer by the standard, the program reads the same pointer if and only if the fragment is clean. */
  lemma {:induction false} FragmentExactlyWhen(s: Bytes)
    requires ByStandard(s).Some?
    ensures ParsePointer([HASH] + s) == Parsed(ByStandard(s).value) <==> IsClean(s, false)
  {
    hide ParseTokens, Decoded, IsUtf8, TildesEscape, Solidi, IsClean;
    assert ([HASH] + s)[1..] == s;
    var d := Decoded(s).value;
    StringTokens(d);
    if ParsePointer([HASH] + s).Parsed? {
      var names := TokensAreNames(s, true);
      ReadsNames(names, true);
      NamesDecode(names);
      if AllEncodedSolidi(names) == 0 {
        ReadsPlainNames(names);
      }
    } else if IsClean(s, false) {
      CleanBegins(s);
      GoodIsRead(s);
    }
  }

  lemma {:induction false} CleanBegins(s: Bytes)
    requires Decoded(s).Some? && IsClean(s, false) && (Decoded(s).value == [] || Decoded(s).value[0] == SOLIDUS)
    ensures s == [] || s[0] == SOLIDUS
  {
  }

  // ------------------------------------------------------------ what is printed, and where they part

  lemma {:induction false} PercentIsTriplets(bytes: Bytes) returns (digits: seq<Bytes>)
    ensures SpellsBytes(digits, bytes) && TripletsText(digits) == PercentAll(bytes)
    decreases |bytes|
  {
    hide SpellsByte, Percent;
    digits := [];
    if bytes != [] {
      var rest := PercentIsTriplets(bytes[1..]);
      var first := OnePercent(bytes[0]);
      digits := [first] + rest;
      assert digits[1..] == rest;
    }
  }

  lemma {:induction false} OnePercent(b: Byte) returns (digits: Bytes)
    ensures SpellsByte(digits, b) && Percent(b) == [PERCENT] + digits
  {
    digits := [UPPER_DIGITS[b / 16], UPPER_DIGITS[b % 16]];
    PercentExactly([]);
  }

  /** A printed name is clean. */
  lemma {:induction false} PrintedNameIsClean(name: Bytes, rest: Bytes)
    requires NameText(name, true).Some? && IsClean(rest, false)
    ensures IsClean(NameText(name, true).value + rest, false)
    decreases |name|
  {
    hide IsClean, ValidateUtf8, NeedPercentEncode, IsUnreserved;
    if name == [] {
      assert [] + rest == rest;
    } else {
      var n, front := FirstPrinted(name);
      PrintedNameIsClean(name[n..], rest);
      var more := NameText(name[n..], true).value + rest;
      assert NameText(name, true).value + rest == front + more;
      PrintedFrontIsClean(name, n, front, more);
    }
  }

  /** What is printed first, and how many bytes of the name it is for. */
  lemma {:induction false} FirstPrinted(name: Bytes) returns (n: nat, front: Bytes)
    requires name != [] && NameText(name, true).Some?
    ensures 0 < n <= |name| && NameText(name[n..], true).Some? && NameText(name, true).value == front + NameText(name[n..], true).value
    ensures var c := name[0];
            if c == TILDE then front == [TILDE, 0x30] && n == 1
            else if c == SOLIDUS then front == [TILDE, 0x31] && n == 1
            else if NeedPercentEncode(c) then ValidateUtf8(name).ok && ValidateUtf8(name).out == name[..n] && front == PercentAll(name[..n])
            else front == [c] && n == 1
  {
    hide ValidateUtf8;
    var c := name[0];
    n, front := 1, if c == TILDE then [TILDE, 0x30] else if c == SOLIDUS then [TILDE, 0x31] else [c];
    if c != TILDE && c != SOLIDUS && NeedPercentEncode(c) {
      ValidateIsGrammar(name);
      n := |ValidateUtf8(name).out|;
      front := PercentAll(name[..n]);
    }
  }

  lemma {:induction false} PrintedFrontIsClean(name: Bytes, n: nat, front: Bytes, more: Bytes)
    requires name != [] && 0 < n <= |name| && IsClean(more, false)
    requires var c := name[0];
            if c == TILDE then front == [TILDE, 0x30] && n == 1
            else if c == SOLIDUS then front == [TILDE, 0x31] && n == 1
            else if NeedPercentEncode(c) then ValidateUtf8(name).ok && ValidateUtf8(name).out == name[..n] && front == PercentAll(name[..n])
            else front == [c] && n == 1
    ensures IsClean(front + more, false)
  {
    hide IsClean, ValidateUtf8, NeedPercentEncode, IsUnreserved, EncodeUtf8;
    var c := name[0];
    UnreservedExactly(c);
    if c == TILDE || c == SOLIDUS {
      var digit: Byte := if c == TILDE then 0x30 else 0x31;
      CleanPart(Tilde(c == SOLIDUS, []), more);
      assert PartText(Tilde(c == SOLIDUS, []), true) == [TILDE] + [digit] == front;
    } else if NeedPercentEncode(c) {
      var u := ScalarThere(name);
      ScalarBytes(u);
      var digits := PercentIsTriplets(name[..n]);
      CleanPart(Encoded(u, digits), more);
    } else {
      CleanPart(Itself(c), more);
    }
  }

  lemma {:induction false} PrintedTokensAreClean(tokens: seq<Token>)
    requires TokensText(tokens, true).Some?
    ensures IsClean(TokensText(tokens, true).value, false)
    decreases |tokens|
  {
    hide IsClean, NameText, TokensText;
    if tokens == [] {
      NoTokens(true);
      NothingDecoded();
    } else {
      TokensTextParts(tokens, true);
      var name, rest := NameText(tokens[0].name, true).value, TokensText(tokens[1..], true).value;
      PrintedTokensAreClean(tokens[1..]);
      PrintedNameIsClean(tokens[0].name, rest);
      SolidusIsClean(name + rest);
      assert [SOLIDUS] + name + rest == [SOLIDUS] + (name + rest);
    }
  }

  lemma {:induction false} SolidusIsClean(s: Bytes)
    ensures IsClean([SOLIDUS] + s, false) == IsClean(s, false)
  {
    CleanByte(SOLIDUS, s, false);
  }

  /** A fragment that the program prints means the same pointer by the standard. */
  lemma {:induction false} PrintedIsStandard(tokens: seq<Token>)
    requires IndicesMatch(tokens) && Stringify(tokens, true).Some?
    ensures ByStandard(Stringify(tokens, true).value[1..]) == Some(tokens)
  {
    hide ByStandard, IsClean, ParsePointer, TokensText, IndexOf;
    var s := TokensText(tokens, true).value;
    assert ([HASH] + s)[1..] == s;
    ParseUndoesStringify(tokens, true);
    PrintedTokensAreClean(tokens);
    ReadIsStandard(s);
    FragmentExactlyWhen(s);
  }

  /** "#/a:b", "#/%2F" and "#/~%30" are pointers by the standard, but not those that the program reads: a colon is not taken, a
      percent-encoded solidus does not divide, and a percent-encoded digit does not escape. */
  lemma {:induction false} FragmentsDiffer()
    ensures var s: Bytes := [0x2F, 0x61, 0x3A, 0x62]; ByStandard(s).Some? && ParsePointer([HASH] + s) != Parsed(ByStandard(s).value)
    ensures var s: Bytes := [0x2F, 0x25, 0x32, 0x46]; ByStandard(s).Some? && ParsePointer([HASH] + s) != Parsed(ByStandard(s).value)
    ensures var s: Bytes := [0x2F, 0x7E, 0x25, 0x33, 0x30]; ByStandard(s).Some? && ParsePointer([HASH] + s) != Parsed(ByStandard(s).value)
  {
    hide ByStandard, ParsePointer;
    ColonDiffers();
    SolidusDiffers();
    DigitDiffers();
  }

  lemma {:induction false} ColonDiffers()
    ensures var s: Bytes := [0x2F, 0x61, 0x3A, 0x62]; ByStandard(s).Some? && ParsePointer([HASH] + s) != Parsed(ByStandard(s).value)
  {
    hide Decoded, ParseTokens, ParsePointer, IsUtf8, TildesEscape;
    var s: Bytes := [0x2F, 0x61, 0x3A, 0x62];
    assert [0x62] + [] == [0x62] && [0x3A] + [0x62] == [0x3A, 0x62] && [0x61] + [0x3A, 0x62] == [0x61, 0x3A, 0x62];
    assert [0x2F] + [0x61, 0x3A, 0x62] == s;
    NothingDecoded();
    AsciiDecodes(0x62, [], []);
    AsciiDecodes(0x3A, [0x62], [0x62]);
    AsciiDecodes(0x61, [0x3A, 0x62], [0x3A, 0x62]);
    AsciiDecodes(0x2F, [0x61, 0x3A, 0x62], [0x61, 0x3A, 0x62]);
    EscapesAreRead(s);
    assert s[1..] == [0x61, 0x3A, 0x62] && s[1..][1..] == [0x3A, 0x62];
    assert !IsClean([0x3A, 0x62], false);
    FragmentExactlyWhen(s);
  }

  lemma {:induction false} AsciiDecodes(c: Byte, rest: Bytes, d: Bytes)
    requires c <= 0x7F && c != PERCENT && c != TILDE && IsFragmentByte(c) && Decoded(rest) == Some(d) && IsUtf8(d) && TildesEscape(d)
    ensures Decoded([c] + rest) == Some([c] + d) && IsUtf8([c] + d) && TildesEscape([c] + d)
  {
    hide Decoded, IsUtf8, TildesEscape, IsFragmentByte;
    DecodesByte(c, rest);
    ScalarBytes(c);
    Utf8Joined(c, d);
    OtherBytes([c], d);
  }

  lemma {:induction false} SolidusDiffers()
    ensures var s: Bytes := [0x2F, 0x25, 0x32, 0x46]; ByStandard(s).Some? && ParsePointer([HASH] + s) != Parsed(ByStandard(s).value)
  {
    hide Decoded, ParseTokens, ParsePointer, IsUtf8, TildesEscape, IsClean;
    var s: Bytes, triplet: Bytes, none: Bytes := [0x2F, 0x25, 0x32, 0x46], [0x25, 0x32, 0x46], [];
    NothingDecoded();
    assert SpellsByte([0x32, 0x46], 0x2F);
    DecodesTriplet([0x32, 0x46], 0x2F, none);
    assert [PERCENT] + [0x32, 0x46] + none == triplet && [SOLIDUS] + none == [SOLIDUS];
    ScalarBytes(SOLIDUS);
    Utf8Joined(SOLIDUS, none);
    OtherBytes([SOLIDUS], none);
    AsciiDecodes(0x2F, triplet, [SOLIDUS]);
    assert [0x2F] + triplet == s;
    EscapesAreRead([0x2F] + [SOLIDUS]);
    CleanTriplet([0x32, 0x46], 0x2F, none, false);
    CleanByte(0x2F, triplet, false);
    FragmentExactlyWhen(s);
  }

  lemma {:induction false} DigitDiffers()
    ensures var s: Bytes := [0x2F, 0x7E, 0x25, 0x33, 0x30]; ByStandard(s).Some? && ParsePointer([HASH] + s) != Parsed(ByStandard(s).value)
  {
    hide Decoded, ParseTokens, ParsePointer, IsUtf8, TildesEscape, IsClean;
    var s: Bytes, triplet: Bytes, none: Bytes := [0x2F, 0x7E, 0x25, 0x33, 0x30], [0x25, 0x33, 0x30], [];
    NothingDecoded();
    assert SpellsByte([0x33, 0x30], 0x30);
    DecodesTriplet([0x33, 0x30], 0x30, none);
    assert [PERCENT] + [0x33, 0x30] + none == triplet && [0x30] + none == [0x30];
    ScalarBytes(0x30);
    ScalarBytes(TILDE);
    Utf8Joined(0x30, none);
    Utf8Joined(TILDE, [0x30]);
    TildeEscapes(0x30, none);
    assert [TILDE, 0x30] + none == [TILDE, 0x30] == [TILDE] + [0x30];
    DecodesByte(TILDE, triplet);
    var rest := [TILDE] + triplet;
    AsciiDecodes(0x2F, rest, [TILDE, 0x30]);
    assert [0x2F] + rest == s;
    EscapesAreRead([0x2F] + [TILDE, 0x30]);
    CleanTriplet([0x33, 0x30], 0x30, none, true);
    CleanByte(TILDE, triplet, false);
    CleanByte(0x2F, rest, false);
    FragmentExactlyWhen(s);
  }
}
