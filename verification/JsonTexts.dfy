/**
 JSON texts as syntax trees, white space included: the reader takes a text if and only if it is one of these, and sends the
 events of the value that it stands for. The trees are those of RFC 8259, with the strings of `Grammar`, a comma behind the last
 element or member where the flag allows it, and no number that is too big.
 */
module JsonTexts {
  import opened Options
  import opened Json
  import opened ReaderSpec
  import opened Nesting
  import opened Grammar

  // ------------------------------------------------------------ syntax trees

  /** A value as it is written. `open` is the white space behind an opening bracket. */
  datatype Syntax =
    | Word(event: Event)
    | Number(numeral: Numeral, event: Event)
    | Quoted(pieces: seq<Piece>)
    | Array(open: Bytes, items: Items)
    | Object(open: Bytes, entries: Entries)

  /** The elements of an array up to the closing bracket: each has white space behind it and then a comma with more white
      space, or nothing. */
  datatype Items = NoItem | Item(value: Syntax, after: Bytes, separator: Bytes, rest: Items)

  datatype Entries =
    | NoEntry
    | Entry(name: seq<Piece>, afterName: Bytes, beforeValue: Bytes, value: Syntax, after: Bytes, separator: Bytes, rest: Entries)

  /** Section 2: space, tab, line feed and carriage return. */
  predicate IsSpaces(s: Bytes) {
    forall i :: 0 <= i < |s| ==> s[i] in [0x20, 0x09, 0x0A, 0x0D]
  }

  /** A comma between two, or none behind the last; one there as well if the flag is set. */
  predicate IsSeparator(s: Bytes, last: bool, trailingCommas: bool) {
    if s == [] then last else s[0] == COMMA && IsSpaces(s[1..]) && (last ==> trailingCommas)
  }

  /** Syntax that a reader with these flags takes: its numbers are not too big. */
  predicate IsSyntax(input: Input, s: Syntax) {
    match s
    case Word(e) => e == Null || e.Bool?
    case Number(n, e) => IsNumeral(n) && IsEventOf(n, e) && !IsTooBig(n, input.overflows)
    case Quoted(xs) => ArePieces(xs)
    case Array(open, items) => IsSpaces(open) && AreItems(input, items)
    case Object(open, entries) => IsSpaces(open) && AreEntries(input, entries)
  }

  predicate AreItems(input: Input, items: Items) {
    items.Item? ==>
      && IsSyntax(input, items.value) && IsSpaces(items.after) && AreItems(input, items.rest)
      && IsSeparator(items.separator, items.rest.NoItem?, input.trailingCommas)
  }

  predicate AreEntries(input: Input, entries: Entries) {
    entries.Entry? ==>
      && ArePieces(entries.name) && IsSpaces(entries.afterName) && IsSpaces(entries.beforeValue)
      && IsSyntax(input, entries.value) && IsSpaces(entries.after) && AreEntries(input, entries.rest)
      && IsSeparator(entries.separator, entries.rest.NoEntry?, input.trailingCommas)
  }

  function WordText(e: Event): Bytes {
    if e == Null then [0x6E, 0x75, 0x6C, 0x6C]
    else if e == Bool(true) then [0x74, 0x72, 0x75, 0x65]
    else [0x66, 0x61, 0x6C, 0x73, 0x65]
  }

  function SyntaxText(input: Input, s: Syntax): (text: Bytes)
    requires IsSyntax(input, s)
  {
    match s
    case Word(e) => WordText(e)
    case Number(n, _) => NumeralText(n)
    case Quoted(xs) => NameText(xs)
    case Array(open, items) => [LBRACKET] + (open + ItemsText(input, items))
    case Object(open, entries) => [LBRACE] + (open + EntriesText(input, entries))
  }

  function ItemsText(input: Input, items: Items): (text: Bytes)
    requires AreItems(input, items)
  {
    match items
    case NoItem => [RBRACKET]
    case Item(value, after, separator, rest) => SyntaxText(input, value) + (after + (separator + ItemsText(input, rest)))
  }

  function NameText(name: seq<Piece>): Bytes
    requires ArePieces(name)
  {
    [QUOTE] + (PiecesText(name) + [QUOTE])
  }

  function EntriesText(input: Input, entries: Entries): (text: Bytes)
    requires AreEntries(input, entries)
  {
    match entries
    case NoEntry => [RBRACE]
    case Entry(name, afterName, beforeValue, value, after, separator, rest) =>
      NameText(name) + (afterName + ([COLON] + (beforeValue + (SyntaxText(input, value) + (after + (separator + EntriesText(input, rest)))))))
  }

  /** What the syntax stands for. */
  function TreeOf(input: Input, s: Syntax): (t: Tree)
    requires IsSyntax(input, s)
    ensures WellFormed(t)
  {
    match s
    case Word(e) => Leaf(e)
    case Number(_, e) => Leaf(e)
    case Quoted(xs) => Leaf(String(PiecesBytes(xs)))
    case Array(_, items) => Arr(ItemTrees(input, items))
    case Object(_, entries) => Obj(EntryTrees(input, entries))
  }

  function ItemTrees(input: Input, items: Items): (ts: seq<Tree>)
    requires AreItems(input, items)
    ensures AllWellFormed(ts)
  {
    match items
    case NoItem => []
    case Item(value, _, _, rest) => [TreeOf(input, value)] + ItemTrees(input, rest)
  }

  function EntryTrees(input: Input, entries: Entries): (ms: seq<TreeMember>)
    requires AreEntries(input, entries)
    ensures AllMembersWellFormed(ms)
  {
    match entries
    case NoEntry => []
    case Entry(name, _, _, value, _, _, rest) => [TreeMember(PiecesBytes(name), TreeOf(input, value))] + EntryTrees(input, rest)
  }

  // ------------------------------------------------------------ every syntax is read

  /** A handler that refuses nothing. */
  ghost predicate Accepting(input: Input) {
    forall es :: input.answer(es)
  }

  /** A byte that no number goes on with. */
  predicate EndsNumber(c: Byte) {
    !IsDigit(c) && c != DOT && c != LOWER_E && c != UPPER_E
  }

  lemma {:induction false} SkipsSpaces(input: Input, p: nat, s: Bytes)
    requires IsSpaces(s) && At(input, p, s) && !IsSpace(input.Peek(p + |s|))
    ensures input.SkipWs(p) == p + |s|
    decreases |s|
  {
    if s != [] {
      assert s == [s[0]] + s[1..];
      AtByte(input, p, s[0], s[1..]);
      SkipsSpaces(input, p + 1, s[1..]);
    }
  }

  lemma {:induction false} MatchesWord(input: Input, p: nat, word: Bytes)
    requires At(input, p, word)
    ensures input.Match(p, word) == p + |word|
    decreases |word|
  {
    if word != [] {
      assert word == [word[0]] + word[1..];
      AtByte(input, p, word[0], word[1..]);
      MatchesWord(input, p + 1, word[1..]);
    }
  }

  lemma {:induction false} ReadsLiteral(input: Input, p: nat, c: Byte, tail: Bytes, e: Event, evs: seq<Event>)
    requires Accepting(input) && At(input, p, [c] + tail)
    ensures input.Peek(p) == c && input.Literal(p, tail, e, evs) == Ok(p + 1 + |tail|, evs + [e])
  {
    AtByte(input, p, c, tail);
    MatchesWord(input, p + 1, tail);
  }

  /** How the text of a value begins. */
  lemma {:induction false} FirstOfSyntax(input: Input, s: Syntax)
    requires IsSyntax(input, s)
    ensures SyntaxText(input, s) != []
    ensures var c := SyntaxText(input, s)[0];
            && !IsSpace(c) && c != NUL && c != RBRACKET && c != RBRACE && c != COMMA && c != COLON
            && (s.Word? ==> c == (if s.event == Null then LOWER_N else if s.event == Bool(true) then LOWER_T else LOWER_F))
            && (s.Number? ==> IsDigit(c) || c == MINUS) && (s.Quoted? ==> c == QUOTE)
            && (s.Array? ==> c == LBRACKET) && (s.Object? ==> c == LBRACE)
  {
  }

  lemma {:induction false} AnyDelimits(n: Numeral, c: Byte)
    requires IsNumeral(n) && EndsNumber(c)
    ensures Delimits(n, c)
  {
  }

  predicate Delimited(input: Input, s: Syntax, p: nat)
    requires IsSyntax(input, s)
  {
    s.Number? ==> Delimits(s.numeral, input.Peek(p + |SyntaxText(input, s)|))
  }

  lemma {:induction false} EndDelimits(input: Input, s: Syntax, p: nat)
    requires IsSyntax(input, s) && EndsNumber(input.Peek(p + |SyntaxText(input, s)|))
    ensures Delimited(input, s, p)
  {
    hide SyntaxText;
    if s.Number? {
      AnyDelimits(s.numeral, input.Peek(p + |SyntaxText(input, s)|));
    }
  }

  lemma {:induction false} OneEventOf(n: Numeral, e: Event, f: Event)
    requires IsNumeral(n) && IsEventOf(n, e) && IsEventOf(n, f)
    ensures e == f && IsScalar(e)
  {
  }

  lemma {:induction false} ReadsWord(input: Input, p: nat, e: Event, evs: seq<Event>)
    requires Accepting(input) && (e == Null || e.Bool?) && At(input, p, WordText(e))
    ensures input.Val(p, evs) == Ok(p + |WordText(e)|, evs + [e])
  {
    hide Input.Literal, At, Input.ArrayBody, Input.ObjectBody, Input.Str, Input.Number;
    if e == Null {
      assert WordText(e) == [LOWER_N] + NULL_TAIL;
      ReadsLiteral(input, p, LOWER_N, NULL_TAIL, e, evs);
    } else if e.b {
      assert WordText(e) == [LOWER_T] + TRUE_TAIL;
      ReadsLiteral(input, p, LOWER_T, TRUE_TAIL, e, evs);
    } else {
      assert WordText(e) == [LOWER_F] + FALSE_TAIL;
      ReadsLiteral(input, p, LOWER_F, FALSE_TAIL, e, evs);
    }
  }

  lemma {:induction false} ReadsText(input: Input, p: nat, xs: seq<Piece>, evs: seq<Event>, isKey: bool)
    requires Accepting(input) && ArePieces(xs) && At(input, p, NameText(xs))
    ensures p < |input.src| && input.Peek(p) == QUOTE
    ensures input.Str(p, evs, isKey) == Ok(p + |NameText(xs)|, evs + [if isKey then Key(PiecesBytes(xs)) else String(PiecesBytes(xs))])
  {
    hide Input.ScanString;
    AtByte(input, p, QUOTE, PiecesText(xs) + [QUOTE]);
    ReadsPieces(input, p + 1, xs, []);
    assert [] + PiecesBytes(xs) == PiecesBytes(xs);
  }

  lemma {:induction false} ReadsScalar(input: Input, p: nat, s: Syntax, evs: seq<Event>)
    requires Accepting(input) && IsSyntax(input, s) && At(input, p, SyntaxText(input, s)) && !s.Array? && !s.Object? && Delimited(input, s, p)
    ensures input.Val(p, evs) == Ok(p + |SyntaxText(input, s)|, evs + TreeEvents(TreeOf(input, s)))
  {
    hide Input.ScanString, Input.NumberAt, Input.Literal, At, Input.ArrayBody, Input.ObjectBody, NumeralText, NameText, WordText, Input.Str, IsEventOf, IsTooBig,
         Delimits;
    FirstOfSyntax(input, s);
    AtIndex(input, p, SyntaxText(input, s), 0);
    match s
    case Word(e) =>
      ReadsWord(input, p, e, evs);
    case Number(n, e) =>
      ReadsNumeral(input, p, n);
      OneEventOf(n, e, input.NumberAt(p).event);
      assert input.Val(p, evs) == input.Number(p, evs);
    case Quoted(xs) =>
      ReadsText(input, p, xs, evs, false);
  }

  /** A syntax is read as what it stands for, wherever it stands. */
  lemma {:induction false} ReadsSyntax(input: Input, p: nat, s: Syntax, evs: seq<Event>)
    requires Accepting(input) && IsSyntax(input, s) && At(input, p, SyntaxText(input, s)) && Delimited(input, s, p)
    ensures input.Val(p, evs) == Ok(p + |SyntaxText(input, s)|, evs + TreeEvents(TreeOf(input, s)))
    decreases s, 1
  {
    hide Input.Val, At, TreeEvents, TreeOf, Delimited;
    match s
    case Array(open, items) => ReadsArray(input, p, open, items, evs);
    case Object(open, entries) => ReadsObject(input, p, open, entries, evs);
    case _ => ReadsScalar(input, p, s, evs);
  }

  lemma {:induction false} FirstOfItems(input: Input, items: Items)
    requires AreItems(input, items)
    ensures ItemsText(input, items) != []
    ensures var c := ItemsText(input, items)[0]; !IsSpace(c) && (c == RBRACKET <==> items.NoItem?)
  {
    if items.Item? {
      FirstOfSyntax(input, items.value);
    }
  }

  /** Spaces and what comes behind them. */
  lemma {:induction false} SpacesThen(input: Input, p: nat, spaces: Bytes, text: Bytes)
    requires IsSpaces(spaces) && text != [] && !IsSpace(text[0]) && At(input, p, spaces + text)
    ensures input.SkipWs(p) == p + |spaces| && At(input, p + |spaces|, text) && input.Peek(p + |spaces|) == text[0]
  {
    AtSplit(input, p, spaces, text);
    AtIndex(input, p + |spaces|, text, 0);
    SkipsSpaces(input, p, spaces);
  }

  lemma {:induction false} ArrayOpens(input: Input, p: nat, evs: seq<Event>)
    requires p < |input.src| && input.Peek(p) == LBRACKET && Accepting(input)
    ensures input.Val(p, evs) == input.ArrayBody(p + 1, evs + [StartArray])
  {
    hide Input.ArrayBody;
  }

  lemma {:induction false} ReadsArray(input: Input, p: nat, open: Bytes, items: Items, evs: seq<Event>)
    requires Accepting(input) && IsSyntax(input, Array(open, items)) && At(input, p, SyntaxText(input, Array(open, items)))
    ensures input.Val(p, evs) == Ok(p + |SyntaxText(input, Array(open, items))|, evs + TreeEvents(TreeOf(input, Array(open, items))))
    decreases items, 3
  {
    hide Input.Val, Input.Elements, At, ItemsText, ItemTrees, ElemEvents, AreItems;
    var start, ts := evs + [StartArray], ItemTrees(input, items);
    AtByte(input, p, LBRACKET, open + ItemsText(input, items));
    FirstOfItems(input, items);
    SpacesThen(input, p + 1, open, ItemsText(input, items));
    ArrayOpens(input, p, evs);
    assert start + (ElemEvents(ts) + [EndArray(|ts|)]) == evs + TreeEvents(Arr(ts));
    if items.NoItem? {
      NoItems(input);
      assert start + ([] + [EndArray(0)]) == start + [EndArray(0)];
    } else {
      ReadsItems(input, p + 1 + |open|, items, 0, start);
    }
  }

  lemma {:induction false} NoItems(input: Input)
    ensures AreItems(input, NoItem) && ItemsText(input, NoItem) == [RBRACKET] && ItemTrees(input, NoItem) == [] && ElemEvents([]) == []
  {
  }

  lemma {:induction false} ItemUnfolds(input: Input, items: Items)
    requires items.Item? && AreItems(input, items)
    ensures IsSyntax(input, items.value) && IsSpaces(items.after) && AreItems(input, items.rest)
    ensures IsSeparator(items.separator, items.rest.NoItem?, input.trailingCommas)
    ensures ItemsText(input, items)
            == SyntaxText(input, items.value) + (items.after + (items.separator + ItemsText(input, items.rest)))
    ensures ItemTrees(input, items) == [TreeOf(input, items.value)] + ItemTrees(input, items.rest)
  {
    hide SyntaxText, TreeOf;
  }

  lemma {:induction false} NumberEnds(input: Input, p: nat, spaces: Bytes, tail: Bytes)
    requires IsSpaces(spaces) && tail != [] && EndsNumber(tail[0]) && At(input, p, spaces + tail)
    ensures EndsNumber(input.Peek(p))
  {
    hide At;
    AtIndex(input, p, spaces + tail, 0);
  }

  lemma {:induction false} SeparatorFirst(separator: Bytes, text: Bytes, last: bool, trailingCommas: bool)
    requires IsSeparator(separator, last, trailingCommas) && separator != []
    ensures separator + text == [COMMA] + (separator[1..] + text) && IsSpaces(separator[1..])
  {
  }

  /** Spaces, then a comma with more spaces or nothing, and then a text that begins with what closes or with something else. */
  lemma {:induction false} SeparatorThen(input: Input, p: nat, spaces: Bytes, separator: Bytes, text: Bytes, last: bool, close: Byte)
    requires IsSpaces(spaces) && text != [] && !IsSpace(text[0]) && (text[0] == close <==> last) && EndsNumber(close) && !IsSpace(close)
    requires IsSeparator(separator, last, input.trailingCommas) && At(input, p, spaces + (separator + text))
    ensures var r := p + |spaces|; var u := r + |separator|;
            && EndsNumber(input.Peek(p)) && input.SkipWs(p) == r && At(input, u, text)
            && (if separator == [] then input.Peek(r) == close
                else input.Peek(r) == COMMA && input.SkipWs(r + 1) == u && (input.Peek(u) == close <==> last))
  {
    hide Input.SkipWs, At, IsSpaces, Input.Peek;
    var tail := separator + text;
    if separator == [] {
      assert tail == text;
      NumberEnds(input, p, spaces, text);
      SpacesThen(input, p, spaces, text);
    } else {
      SeparatorFirst(separator, text, last, input.trailingCommas);
      NumberEnds(input, p, spaces, tail);
      SpacesThen(input, p, spaces, tail);
      AtByte(input, p + |spaces|, COMMA, separator[1..] + text);
      SpacesThen(input, p + |spaces| + 1, separator[1..], text);
    }
  }

  /** Behind a value: spaces, then a comma or the closing bracket. */
  lemma {:induction false} BehindItem(input: Input, p: nat, items: Items)
    requires items.Item? && AreItems(input, items) && At(input, p, ItemsText(input, items))
    ensures var q := p + |SyntaxText(input, items.value)|; var r := q + |items.after|; var u := r + |items.separator|;
            && At(input, p, SyntaxText(input, items.value)) && EndsNumber(input.Peek(q)) && input.SkipWs(q) == r
            && At(input, u, ItemsText(input, items.rest)) && u + |ItemsText(input, items.rest)| == p + |ItemsText(input, items)|
            && (if items.separator == [] then input.Peek(r) == RBRACKET
                else input.Peek(r) == COMMA && input.SkipWs(r + 1) == u && (input.Peek(u) == RBRACKET <==> items.rest.NoItem?))
  {
    hide SyntaxText, Input.SkipWs, At, ItemsText, AreItems, IsSyntax, IsSpaces, IsSeparator, EndsNumber;
    ItemUnfolds(input, items);
    var text, more := SyntaxText(input, items.value), ItemsText(input, items.rest);
    FirstOfItems(input, items.rest);
    AtSplit(input, p, text, items.after + (items.separator + more));
    BracketEnds(RBRACKET);
    SeparatorThen(input, p + |text|, items.after, items.separator, more, items.rest.NoItem?, RBRACKET);
  }

  lemma {:induction false} BracketEnds(c: Byte)
    requires c == RBRACKET || c == RBRACE
    ensures EndsNumber(c) && !IsSpace(c)
  {
  }

  lemma {:induction false} FirstEvents(evs: seq<Event>, t: Tree, ts: seq<Tree>, last: Event)
    ensures evs + TreeEvents(t) + (ElemEvents(ts) + [last]) == evs + (ElemEvents([t] + ts) + [last])
  {
    assert ([t] + ts)[1..] == ts;
  }

  lemma {:induction false} ReadsItems(input: Input, p: nat, items: Items, n: nat, evs: seq<Event>)
    requires Accepting(input) && items.Item? && AreItems(input, items) && At(input, p, ItemsText(input, items))
    ensures var ts := ItemTrees(input, items);
            input.Elements(p, n, evs) == Ok(p + |ItemsText(input, items)|, evs + (ElemEvents(ts) + [EndArray(n + |ts|)]))
    decreases items, 2
  {
    hide Input.Val, At, TreeEvents, TreeOf, SyntaxText, EndsNumber, ItemsText, ItemTrees, AreItems, IsSyntax, Input.AfterElement, ElemEvents,
         IsSeparator, IsSpaces;
    var s, rest := items.value, items.rest;
    ItemUnfolds(input, items);
    BehindItem(input, p, items);
    var q := p + |SyntaxText(input, s)|;
    EndDelimits(input, s, p);
    ReadsSyntax(input, p, s, evs);
    var now := evs + TreeEvents(TreeOf(input, s));
    FirstEvents(evs, TreeOf(input, s), ItemTrees(input, rest), EndArray(n + 1 + |ItemTrees(input, rest)|));
    ReadsMoreItems(input, q, q + |items.after|, items.separator, rest, n + 1, now);
    assert input.Elements(p, n, evs) == input.AfterElement(q, n + 1, now);
  }

  lemma {:induction false} ReadsMoreItems(input: Input, q: nat, r: nat, separator: Bytes, rest: Items, n: nat, evs: seq<Event>)
    requires Accepting(input) && AreItems(input, rest) && IsSeparator(separator, rest.NoItem?, input.trailingCommas)
    requires q <= r == input.SkipWs(q) && At(input, r + |separator|, ItemsText(input, rest))
    requires var u := r + |separator|;
             if separator == [] then input.Peek(r) == RBRACKET
             else input.Peek(r) == COMMA && input.SkipWs(r + 1) == u && (input.Peek(u) == RBRACKET <==> rest.NoItem?)
    ensures var u, ts := r + |separator|, ItemTrees(input, rest);
            q <= |input.src|
            && input.AfterElement(q, n, evs) == Ok(u + |ItemsText(input, rest)|, evs + (ElemEvents(ts) + [EndArray(n + |ts|)]))
    decreases rest, 4
  {
    hide Input.SkipWs, Input.Elements, At, ItemsText, ItemTrees, ElemEvents, AreItems;
    var u := r + |separator|;
    AtFits(input, u, ItemsText(input, rest));
    if rest.NoItem? {
      NoItems(input);
      assert evs + ([] + [EndArray(n)]) == evs + [EndArray(n)];
    } else {
      ReadsItems(input, u, rest, n, evs);
    }
    if separator != [] {
      assert input.AfterElement(q, n, evs) == input.AfterElementComma(r + 1, n, evs);
    }
  }


  lemma {:induction false} FirstOfEntries(input: Input, entries: Entries)
    requires AreEntries(input, entries)
    ensures EntriesText(input, entries) != []
    ensures EntriesText(input, entries)[0] == if entries.NoEntry? then RBRACE else QUOTE
  {
  }

  lemma {:induction false} ObjectOpens(input: Input, p: nat, evs: seq<Event>)
    requires p < |input.src| && input.Peek(p) == LBRACE && Accepting(input)
    ensures input.Val(p, evs) == input.ObjectBody(p + 1, evs + [StartObject])
  {
    hide Input.ObjectBody;
  }

  lemma {:induction false} NoEntries(input: Input)
    ensures AreEntries(input, NoEntry) && EntriesText(input, NoEntry) == [RBRACE] && EntryTrees(input, NoEntry) == []
    ensures MemberEvents([]) == []
  {
  }

  lemma {:induction false} ReadsObject(input: Input, p: nat, open: Bytes, entries: Entries, evs: seq<Event>)
    requires Accepting(input) && IsSyntax(input, Object(open, entries)) && At(input, p, SyntaxText(input, Object(open, entries)))
    ensures input.Val(p, evs) == Ok(p + |SyntaxText(input, Object(open, entries))|, evs + TreeEvents(TreeOf(input, Object(open, entries))))
    decreases entries, 3
  {
    hide Input.Val, Input.Members, At, EntriesText, EntryTrees, MemberEvents, AreEntries;
    var start, ms := evs + [StartObject], EntryTrees(input, entries);
    AtByte(input, p, LBRACE, open + EntriesText(input, entries));
    FirstOfEntries(input, entries);
    SpacesThen(input, p + 1, open, EntriesText(input, entries));
    ObjectOpens(input, p, evs);
    assert start + (MemberEvents(ms) + [EndObject(|ms|)]) == evs + TreeEvents(Obj(ms));
    if entries.NoEntry? {
      NoEntries(input);
      assert start + ([] + [EndObject(0)]) == start + [EndObject(0)];
    } else {
      ReadsEntries(input, p + 1 + |open|, entries, 0, start);
    }
  }

  /** What stands behind the name of a member. */
  function AfterNameText(input: Input, entries: Entries): Bytes
    requires entries.Entry? && AreEntries(input, entries)
  {
    entries.afterName + ([COLON] + (entries.beforeValue + EntryText(input, entries)))
  }

  function EntryText(input: Input, entries: Entries): Bytes
    requires entries.Entry? && AreEntries(input, entries)
  {
    SyntaxText(input, entries.value) + (entries.after + (entries.separator + EntriesText(input, entries.rest)))
  }

  lemma {:induction false} ValueBegins(input: Input, entries: Entries)
    requires entries.Entry? && AreEntries(input, entries)
    ensures EntryText(input, entries) != [] && !IsSpace(EntryText(input, entries)[0])
    ensures AfterNameText(input, entries) == entries.afterName + ([COLON] + (entries.beforeValue + EntryText(input, entries)))
  {
    hide SyntaxText, EntriesText;
    FirstOfSyntax(input, entries.value);
  }

  lemma {:induction false} EntryUnfolds(input: Input, entries: Entries)
    requires entries.Entry? && AreEntries(input, entries)
    ensures ArePieces(entries.name) && IsSpaces(entries.afterName) && IsSpaces(entries.beforeValue)
    ensures IsSyntax(input, entries.value) && IsSpaces(entries.after) && AreEntries(input, entries.rest)
    ensures IsSeparator(entries.separator, entries.rest.NoEntry?, input.trailingCommas)
    ensures EntriesText(input, entries) == NameText(entries.name) + AfterNameText(input, entries)
    ensures EntryTrees(input, entries)
            == [TreeMember(PiecesBytes(entries.name), TreeOf(input, entries.value))] + EntryTrees(input, entries.rest)
  {
    hide SyntaxText, TreeOf, NameText;
  }

  lemma {:induction false} ColonThen(input: Input, k: nat, afterName: Bytes, beforeValue: Bytes, value: Bytes)
    requires IsSpaces(afterName) && IsSpaces(beforeValue) && value != [] && !IsSpace(value[0])
    requires At(input, k, afterName + ([COLON] + (beforeValue + value)))
    ensures var c := k + |afterName|; var v := c + 1 + |beforeValue|;
            && c == input.SkipWs(k) < |input.src| && input.Peek(c) == COLON && input.SkipWs(c + 1) == v && At(input, v, value)
  {
    hide Input.SkipWs, At, IsSpaces, Input.Peek;
    var tail := [COLON] + (beforeValue + value);
    SpacesThen(input, k, afterName, tail);
    AtFits(input, k + |afterName|, tail);
    AtByte(input, k + |afterName|, COLON, beforeValue + value);
    SpacesThen(input, k + |afterName| + 1, beforeValue, value);
  }

  lemma {:induction false} AfterNameLength(input: Input, entries: Entries)
    requires entries.Entry? && AreEntries(input, entries)
    ensures |EntriesText(input, entries)|
            == |NameText(entries.name)| + |entries.afterName| + 1 + |entries.beforeValue| + |EntryText(input, entries)|
  {
    hide SyntaxText, NameText, EntryText;
    EntryUnfolds(input, entries);
  }

  /** The name of a member, the colon and the place of its value. */
  lemma {:induction false} EntryName(input: Input, p: nat, entries: Entries) returns (k: nat, c: nat, v: nat)
    requires entries.Entry? && AreEntries(input, entries) && At(input, p, EntriesText(input, entries))
    ensures At(input, p, NameText(entries.name)) && k == p + |NameText(entries.name)|
    ensures k <= c == input.SkipWs(k) < |input.src| && input.Peek(c) == COLON && input.SkipWs(c + 1) == v
    ensures At(input, v, EntryText(input, entries)) && v + |EntryText(input, entries)| == p + |EntriesText(input, entries)|
  {
    hide SyntaxText, Input.SkipWs, At, NameText, EntriesText, AreEntries, IsSyntax, IsSpaces, EntryText, AfterNameText, ArePieces, IsSeparator,
         Input.Peek;
    EntryUnfolds(input, entries);
    ValueBegins(input, entries);
    AtSplit(input, p, NameText(entries.name), AfterNameText(input, entries));
    k := p + |NameText(entries.name)|;
    ColonThen(input, k, entries.afterName, entries.beforeValue, EntryText(input, entries));
    c := k + |entries.afterName|;
    v := c + 1 + |entries.beforeValue|;
    AfterNameLength(input, entries);
  }

  /** Behind the value of a member: spaces, then a comma or the closing brace. */
  lemma {:induction false} BehindEntry(input: Input, p: nat, entries: Entries)
    requires entries.Entry? && AreEntries(input, entries) && At(input, p, EntryText(input, entries))
    ensures var q := p + |SyntaxText(input, entries.value)|; var r := q + |entries.after|; var u := r + |entries.separator|;
            && At(input, p, SyntaxText(input, entries.value)) && EndsNumber(input.Peek(q)) && input.SkipWs(q) == r
            && At(input, u, EntriesText(input, entries.rest)) && u + |EntriesText(input, entries.rest)| == p + |EntryText(input, entries)|
            && (if entries.separator == [] then input.Peek(r) == RBRACE
                else input.Peek(r) == COMMA && input.SkipWs(r + 1) == u && (input.Peek(u) == RBRACE <==> entries.rest.NoEntry?))
  {
    hide SyntaxText, Input.SkipWs, At, EntriesText, AreEntries, IsSyntax, IsSpaces, IsSeparator, EndsNumber;
    EntryUnfolds(input, entries);
    var text, more := SyntaxText(input, entries.value), EntriesText(input, entries.rest);
    FirstOfEntries(input, entries.rest);
    AtSplit(input, p, text, entries.after + (entries.separator + more));
    BracketEnds(RBRACE);
    SeparatorThen(input, p + |text|, entries.after, entries.separator, more, entries.rest.NoEntry?, RBRACE);
  }

  lemma {:induction false} FirstMemberEvents(evs: seq<Event>, m: TreeMember, ms: seq<TreeMember>, last: Event)
    ensures evs + [Key(m.name)] + TreeEvents(m.tree) + (MemberEvents(ms) + [last]) == evs + (MemberEvents([m] + ms) + [last])
  {
    assert ([m] + ms)[1..] == ms;
  }

  /** A name and a colon. */
  lemma {:induction false} ReadsName(input: Input, p: nat, name: seq<Piece>, k: nat, c: nat, v: nat, n: nat, evs: seq<Event>)
    requires Accepting(input) && ArePieces(name) && At(input, p, NameText(name)) && k == p + |NameText(name)|
    requires k <= c == input.SkipWs(k) < |input.src| && input.Peek(c) == COLON && input.SkipWs(c + 1) == v
    ensures p <= |input.src| && v <= |input.src|
    ensures var now := evs + [Key(PiecesBytes(name))]; var r := input.Val(v, now);
            input.Members(p, n, evs) == if r.Err? then r else input.AfterMember(r.pos, n + 1, r.evs)
  {
    hide Input.SkipWs, Input.Val, Input.AfterMember, At, NameText, Input.Str;
    ReadsText(input, p, name, evs, true);
    var now := evs + [Key(PiecesBytes(name))];
    assert input.Members(p, n, evs) == input.AfterKey(k, n, now);
    assert input.AfterKey(k, n, now) == input.AfterColon(c + 1, n, now);
  }

  lemma {:induction false} ReadsEntries(input: Input, p: nat, entries: Entries, n: nat, evs: seq<Event>)
    requires Accepting(input) && entries.Entry? && AreEntries(input, entries) && At(input, p, EntriesText(input, entries))
    ensures var ms := EntryTrees(input, entries);
            input.Members(p, n, evs) == Ok(p + |EntriesText(input, entries)|, evs + (MemberEvents(ms) + [EndObject(n + |ms|)]))
    decreases entries, 2
  {
    hide Input.Val, At, TreeEvents, TreeOf, SyntaxText, EndsNumber, Input.Members, Input.AfterMember, NameText, EntriesText, EntryText,
         MemberEvents, AreEntries, IsSyntax, EntryTrees, IsSeparator, IsSpaces, AfterNameText, Delimited;
    var s, rest := entries.value, entries.rest;
    EntryUnfolds(input, entries);
    var k, c, v := EntryName(input, p, entries);
    BehindEntry(input, v, entries);
    var q := v + |SyntaxText(input, s)|;
    EndDelimits(input, s, v);
    var before := evs + [Key(PiecesBytes(entries.name))];
    ReadsName(input, p, entries.name, k, c, v, n, evs);
    ReadsSyntax(input, v, s, before);
    var now := before + TreeEvents(TreeOf(input, s));
    FirstMemberEvents(evs, TreeMember(PiecesBytes(entries.name), TreeOf(input, s)), EntryTrees(input, rest),
                      EndObject(n + 1 + |EntryTrees(input, rest)|));
    ReadsMoreEntries(input, q, q + |entries.after|, entries.separator, rest, n + 1, now);
  }

  lemma {:induction false} ReadsMoreEntries(input: Input, q: nat, r: nat, separator: Bytes, rest: Entries, n: nat, evs: seq<Event>)
    requires Accepting(input) && AreEntries(input, rest) && IsSeparator(separator, rest.NoEntry?, input.trailingCommas)
    requires q <= r == input.SkipWs(q) && At(input, r + |separator|, EntriesText(input, rest))
    requires var u := r + |separator|;
             if separator == [] then input.Peek(r) == RBRACE
             else input.Peek(r) == COMMA && input.SkipWs(r + 1) == u && (input.Peek(u) == RBRACE <==> rest.NoEntry?)
    ensures var u, ms := r + |separator|, EntryTrees(input, rest);
            q <= |input.src|
            && input.AfterMember(q, n, evs) == Ok(u + |EntriesText(input, rest)|, evs + (MemberEvents(ms) + [EndObject(n + |ms|)]))
    decreases rest, 4
  {
    hide Input.SkipWs, Input.Members, At, EntriesText, EntryTrees, MemberEvents, AreEntries;
    var u := r + |separator|;
    AtFits(input, u, EntriesText(input, rest));
    if rest.NoEntry? {
      NoEntries(input);
      assert evs + ([] + [EndObject(n)]) == evs + [EndObject(n)];
    } else {
      ReadsEntries(input, u, rest, n, evs);
    }
    if separator != [] {
      assert input.AfterMember(q, n, evs) == input.AfterMemberComma(r + 1, n, evs);
    }
  }

  // ------------------------------------------------------------ nothing else is read

  lemma {:induction false} SpacesThere(input: Input, p: nat)
    requires p <= |input.src|
    ensures var q := input.SkipWs(p); q <= |input.src| && IsSpaces(input.src[p..q]) && At(input, p, input.src[p..q])
    decreases |input.src| - p
  {
    if p < |input.src| && IsSpace(input.src[p]) {
      SpacesThere(input, p + 1);
      assert input.src[p..input.SkipWs(p)] == [input.src[p]] + input.src[p + 1..input.SkipWs(p)];
    }
  }

  lemma {:induction false} MatchIsThere(input: Input, p: nat, word: Bytes)
    requires p <= |input.src| && input.Match(p, word) == p + |word| && forall i :: 0 <= i < |word| ==> word[i] != NUL
    ensures At(input, p, word)
    decreases |word|
  {
    if word != [] {
      MatchIsThere(input, p + 1, word[1..]);
      ByteAt(input, p);
      AtJoin(input, p, [word[0]], word[1..]);
      assert word == [word[0]] + word[1..];
    }
  }

  lemma {:induction false} LiteralIsThere(input: Input, p: nat, c: Byte, tail: Bytes, e: Event, evs: seq<Event>)
    requires p < |input.src| && input.Peek(p) == c && input.Literal(p, tail, e, evs).Ok?
    requires forall i :: 0 <= i < |tail| ==> tail[i] != NUL
    ensures At(input, p, [c] + tail) && input.Literal(p, tail, e, evs) == Ok(p + 1 + |tail|, evs + [e])
  {
    MatchIsThere(input, p + 1, tail);
    ByteAt(input, p);
    AtJoin(input, p, [c], tail);
  }

  /** What has been read as `s` from `p` on. */
  predicate ReadAs(input: Input, p: nat, evs: seq<Event>, s: Syntax, r: Outcome) {
    && IsSyntax(input, s) && At(input, p, SyntaxText(input, s)) && Delimited(input, s, p)
    && r == Ok(p + |SyntaxText(input, s)|, evs + TreeEvents(TreeOf(input, s)))
  }

  lemma {:induction false} WordIsSyntax(input: Input, p: nat, evs: seq<Event>) returns (s: Syntax)
    requires p < |input.src| && input.Val(p, evs).Ok? && input.Peek(p) in [LOWER_N, LOWER_T, LOWER_F]
    ensures ReadAs(input, p, evs, s, input.Val(p, evs))
  {
    hide Input.Literal, Input.ArrayBody, Input.ObjectBody, Input.Str, Input.Number, At;
    var c := input.Peek(p);
    var e := if c == LOWER_N then Null else Bool(c == LOWER_T);
    var tail := if c == LOWER_N then NULL_TAIL else if c == LOWER_T then TRUE_TAIL else FALSE_TAIL;
    LiteralIsThere(input, p, c, tail, e, evs);
    s := Word(e);
    assert WordText(e) == [c] + tail;
  }

  lemma {:induction false} TextIsPieces(input: Input, p: nat, evs: seq<Event>, isKey: bool) returns (xs: seq<Piece>)
    requires p < |input.src| && input.Peek(p) == QUOTE && input.Str(p, evs, isKey).Ok?
    ensures ArePieces(xs) && At(input, p, NameText(xs))
    ensures input.Str(p, evs, isKey) == Ok(p + |NameText(xs)|, evs + [if isKey then Key(PiecesBytes(xs)) else String(PiecesBytes(xs))])
  {
    hide Input.ScanString, At, ArePieces, PiecesText, PiecesBytes;
    xs := StringIsPieces(input, p + 1, []);
    ByteAt(input, p);
    AtJoin(input, p, [QUOTE], PiecesText(xs) + [QUOTE]);
    assert [] + PiecesBytes(xs) == PiecesBytes(xs);
  }

  lemma {:induction false} TextIsSyntax(input: Input, p: nat, evs: seq<Event>) returns (s: Syntax)
    requires p < |input.src| && input.Val(p, evs).Ok? && input.Peek(p) == QUOTE
    ensures ReadAs(input, p, evs, s, input.Val(p, evs))
  {
    hide Input.Literal, Input.ArrayBody, Input.ObjectBody, Input.Str, Input.Number, At, NameText;
    var xs := TextIsPieces(input, p, evs, false);
    s := Quoted(xs);
  }

  lemma {:induction false} NumberIsSyntax(input: Input, p: nat, evs: seq<Event>) returns (s: Syntax)
    requires p <= |input.src| && input.Val(p, evs).Ok?
    requires input.Peek(p) !in [LOWER_N, LOWER_T, LOWER_F, QUOTE, LBRACE, LBRACKET]
    ensures ReadAs(input, p, evs, s, input.Val(p, evs))
  {
    hide Input.Literal, Input.ArrayBody, Input.ObjectBody, Input.Str, Input.NumberAt, At, IsTooBig, Delimits, NumeralText;
    var n := NumberIsNumeral(input, p);
    ReadsNumeral(input, p, n);
    s := Number(n, input.NumberAt(p).event);
    OneEventOf(n, input.NumberAt(p).event, input.NumberAt(p).event);
  }

  /** Whatever is read as a value is a syntax and is read as what it stands for. */
  lemma {:induction false} ValIsSyntax(input: Input, p: nat, evs: seq<Event>) returns (s: Syntax)
    requires p <= |input.src| && input.Val(p, evs).Ok?
    ensures ReadAs(input, p, evs, s, input.Val(p, evs))
    decreases |input.src| - p, 2
  {
    hide Input.Val, Input.ObjectBody, Input.ArrayBody, ReadAs;
    var c := input.Peek(p);
    if c == LBRACE {
      ValIsObject(input, p, evs);
      var open, entries := ObjectBodyIsEntries(input, p + 1, evs + [StartObject]);
      s := Object(open, entries);
      ObjectIsRead(input, p, evs, open, entries);
    } else if c == LBRACKET {
      ValIsArray(input, p, evs);
      var open, items := ArrayBodyIsItems(input, p + 1, evs + [StartArray]);
      s := Array(open, items);
      ArrayIsRead(input, p, evs, open, items);
    } else if c == QUOTE {
      s := TextIsSyntax(input, p, evs);
    } else if c in [LOWER_N, LOWER_T, LOWER_F] {
      s := WordIsSyntax(input, p, evs);
    } else {
      s := NumberIsSyntax(input, p, evs);
    }
  }

  /** What has been read of an array from its first element, or from the bracket, on. */
  predicate ItemsReadAs(input: Input, p: nat, n: nat, evs: seq<Event>, items: Items, r: Outcome) {
    && AreItems(input, items) && At(input, p, ItemsText(input, items))
    && var ts := ItemTrees(input, items);
       r == Ok(p + |ItemsText(input, items)|, evs + (ElemEvents(ts) + [EndArray(n + |ts|)]))
  }

  lemma {:induction false} ArrayIsRead(input: Input, p: nat, evs: seq<Event>, open: Bytes, items: Items)
    requires p < |input.src| && input.Peek(p) == LBRACKET && IsSpaces(open) && At(input, p + 1, open)
    requires input.Val(p, evs).Ok? && ItemsReadAs(input, p + 1 + |open|, 0, evs + [StartArray], items, input.Val(p, evs))
    ensures ReadAs(input, p, evs, Array(open, items), input.Val(p, evs))
  {
    hide Input.Val, ItemsText, ItemTrees, AreItems, At;
    var ts := ItemTrees(input, items);
    ByteAt(input, p);
    AtJoin(input, p + 1, open, ItemsText(input, items));
    AtJoin(input, p, [LBRACKET], open + ItemsText(input, items));
    assert evs + [StartArray] + (ElemEvents(ts) + [EndArray(|ts|)]) == evs + TreeEvents(Arr(ts));
  }

  lemma {:induction false} NoItemIsRead(input: Input, p: nat, n: nat, evs: seq<Event>)
    requires p < |input.src| && input.Peek(p) == RBRACKET
    ensures ItemsReadAs(input, p, n, evs, NoItem, Ok(p + 1, evs + [EndArray(n)]))
  {
    NoItems(input);
    ByteAt(input, p);
    assert evs + ([] + [EndArray(n)]) == evs + [EndArray(n)];
  }

  lemma {:induction false} ArrayBodyIsItems(input: Input, p: nat, evs: seq<Event>) returns (open: Bytes, items: Items)
    requires p <= |input.src| && input.ArrayBody(p, evs).Ok?
    ensures IsSpaces(open) && At(input, p, open) && ItemsReadAs(input, p + |open|, 0, evs, items, input.ArrayBody(p, evs))
    decreases |input.src| - p, 4
  {
    hide ItemsReadAs, Input.Elements;
    var q := input.SkipWs(p);
    SpacesThere(input, p);
    open := input.src[p..q];
    if input.Peek(q) == RBRACKET {
      items := NoItem;
      NoItemIsRead(input, q, 0, evs);
    } else {
      items := ElementsAreItems(input, q, 0, evs);
    }
  }

  lemma {:induction false} ElementsAreItems(input: Input, p: nat, n: nat, evs: seq<Event>) returns (items: Items)
    requires p <= |input.src| && input.Elements(p, n, evs).Ok?
    ensures items.Item? && ItemsReadAs(input, p, n, evs, items, input.Elements(p, n, evs))
    decreases |input.src| - p, 3
  {
    hide ItemsReadAs, Input.Val, Input.AfterElement;
    var s := ValIsSyntax(input, p, evs);
    var r := input.Val(p, evs);
    var after, separator, rest := AfterElementIsItems(input, r.pos, n + 1, r.evs);
    items := Item(s, after, separator, rest);
    ItemIsRead(input, p, n, evs, items);
  }

  /** A comma and the spaces behind it. */
  lemma {:induction false} SeparatorThere(input: Input, q: nat) returns (separator: Bytes)
    requires q < |input.src| && input.Peek(q) == COMMA
    ensures separator != [] && At(input, q, separator) && q + |separator| == input.SkipWs(q + 1) <= |input.src|
    ensures IsSeparator(separator, false, input.trailingCommas) && IsSeparator(separator, true, true)
  {
    hide Input.SkipWs;
    var spaces := input.src[q + 1..input.SkipWs(q + 1)];
    SpacesThere(input, q + 1);
    separator := [COMMA] + spaces;
    assert separator[1..] == spaces;
    ByteAt(input, q);
    AtJoin(input, q, [COMMA], spaces);
  }

  /** Spaces behind an element, and then the closing bracket or a comma with more. */
  lemma {:induction false} AfterElementIsItems(input: Input, p: nat, n: nat, evs: seq<Event>)
      returns (after: Bytes, separator: Bytes, rest: Items)
    requires p <= |input.src| && input.AfterElement(p, n, evs).Ok?
    ensures IsSpaces(after) && At(input, p, after) && At(input, p + |after|, separator)
    ensures IsSeparator(separator, rest.NoItem?, input.trailingCommas)
    ensures ItemsReadAs(input, p + |after| + |separator|, n, evs, rest, input.AfterElement(p, n, evs))
    decreases |input.src| - p, 1
  {
    hide ItemsReadAs, Input.Elements, Input.SkipWs, At, IsSpaces;
    var q := input.SkipWs(p);
    SpacesThere(input, p);
    after, separator, rest := input.src[p..q], [], NoItem;
    AtRange(input, q, q);
    if input.Peek(q) == COMMA {
      assert input.AfterElement(p, n, evs) == input.AfterElementComma(q + 1, n, evs);
      var u := input.SkipWs(q + 1);
      separator := SeparatorThere(input, q);
      if input.trailingCommas && input.Peek(u) == RBRACKET {
        NoItemIsRead(input, u, n, evs);
      } else {
        rest := ElementsAreItems(input, u, n, evs);
      }
    } else {
      NoItemIsRead(input, q, n, evs);
    }
  }

  lemma {:induction false} ItemFolds(input: Input, items: Items)
    requires items.Item? && IsSyntax(input, items.value) && IsSpaces(items.after) && AreItems(input, items.rest)
    requires IsSeparator(items.separator, items.rest.NoItem?, input.trailingCommas)
    ensures AreItems(input, items)
  {
  }

  lemma {:induction false} ItemIsRead(input: Input, p: nat, n: nat, evs: seq<Event>, items: Items)
    requires p <= |input.src| && input.Elements(p, n, evs).Ok? && items.Item? && ReadAs(input, p, evs, items.value, input.Val(p, evs))
    requires var r := input.Val(p, evs);
             && IsSpaces(items.after) && At(input, r.pos, items.after) && At(input, r.pos + |items.after|, items.separator)
             && IsSeparator(items.separator, items.rest.NoItem?, input.trailingCommas)
             && ItemsReadAs(input, r.pos + |items.after| + |items.separator|, n + 1, r.evs, items.rest, input.AfterElement(r.pos, n + 1, r.evs))
    ensures ItemsReadAs(input, p, n, evs, items, input.Elements(p, n, evs))
  {
    hide Input.Val, Input.AfterElement, At, TreeEvents, SyntaxText, AreItems, IsSyntax, IsSpaces, IsSeparator, ItemsText, ItemTrees, ElemEvents, TreeOf, Delimited;
    ItemFolds(input, items);
    ItemUnfolds(input, items);
    var r, rest := input.Val(p, evs), ItemsText(input, items.rest);
    var ts := ItemTrees(input, items.rest);
    AtJoin(input, r.pos + |items.after|, items.separator, rest);
    AtJoin(input, r.pos, items.after, items.separator + rest);
    AtJoin(input, p, SyntaxText(input, items.value), items.after + (items.separator + rest));
    FirstEvents(evs, TreeOf(input, items.value), ts, EndArray(n + 1 + |ts|));
  }

  /** What has been read of an object from the name of its first member, or from the brace, on. */
  predicate EntriesReadAs(input: Input, p: nat, n: nat, evs: seq<Event>, entries: Entries, r: Outcome) {
    && AreEntries(input, entries) && At(input, p, EntriesText(input, entries))
    && var ms := EntryTrees(input, entries);
       r == Ok(p + |EntriesText(input, entries)|, evs + (MemberEvents(ms) + [EndObject(n + |ms|)]))
  }

  lemma {:induction false} ObjectIsRead(input: Input, p: nat, evs: seq<Event>, open: Bytes, entries: Entries)
    requires p < |input.src| && input.Peek(p) == LBRACE && IsSpaces(open) && At(input, p + 1, open)
    requires input.Val(p, evs).Ok? && EntriesReadAs(input, p + 1 + |open|, 0, evs + [StartObject], entries, input.Val(p, evs))
    ensures ReadAs(input, p, evs, Object(open, entries), input.Val(p, evs))
  {
    hide Input.Val, EntriesText, EntryTrees, AreEntries, At;
    var ms := EntryTrees(input, entries);
    ByteAt(input, p);
    AtJoin(input, p + 1, open, EntriesText(input, entries));
    AtJoin(input, p, [LBRACE], open + EntriesText(input, entries));
    assert evs + [StartObject] + (MemberEvents(ms) + [EndObject(|ms|)]) == evs + TreeEvents(Obj(ms));
  }

  lemma {:induction false} NoEntryIsRead(input: Input, p: nat, n: nat, evs: seq<Event>)
    requires p < |input.src| && input.Peek(p) == RBRACE
    ensures EntriesReadAs(input, p, n, evs, NoEntry, Ok(p + 1, evs + [EndObject(n)]))
  {
    NoEntries(input);
    ByteAt(input, p);
    assert evs + ([] + [EndObject(n)]) == evs + [EndObject(n)];
  }

  lemma {:induction false} ObjectBodyIsEntries(input: Input, p: nat, evs: seq<Event>) returns (open: Bytes, entries: Entries)
    requires p <= |input.src| && input.ObjectBody(p, evs).Ok?
    ensures IsSpaces(open) && At(input, p, open) && EntriesReadAs(input, p + |open|, 0, evs, entries, input.ObjectBody(p, evs))
    decreases |input.src| - p, 4
  {
    hide EntriesReadAs, Input.Members;
    var q := input.SkipWs(p);
    SpacesThere(input, p);
    open := input.src[p..q];
    if input.Peek(q) == RBRACE {
      entries := NoEntry;
      NoEntryIsRead(input, q, 0, evs);
    } else {
      entries := MembersAreEntries(input, q, 0, evs);
    }
  }

  lemma {:induction false} NameIsThere(name: seq<Piece>)
    requires ArePieces(name)
    ensures |NameText(name)| >= 2
  {
  }

  /** The name of a member that is read, and where its colon and its value are. */
  lemma {:induction false} FindName(input: Input, p: nat, n: nat, evs: seq<Event>)
      returns (name: seq<Piece>, k: nat, c: nat, v: nat, now: seq<Event>)
    requires p <= |input.src| && input.Members(p, n, evs).Ok?
    ensures ArePieces(name) && At(input, p, NameText(name)) && now == evs + [Key(PiecesBytes(name))]
    ensures p < k == p + |NameText(name)| <= c == input.SkipWs(k) < v == input.SkipWs(c + 1) <= |input.src| && input.Peek(c) == COLON
    ensures var r := input.Val(v, now);
            r.Ok? && input.Members(p, n, evs) == input.AfterMember(r.pos, n + 1, r.evs)
  {
    hide Input.Str, Input.SkipWs, Input.Val, Input.AfterMember, NameText, At;
    name := TextIsPieces(input, p, evs, true);
    k, now := p + |NameText(name)|, evs + [Key(PiecesBytes(name))];
    NameIsThere(name);
    assert input.Members(p, n, evs) == input.AfterKey(k, n, now);
    c := input.SkipWs(k);
    assert input.AfterKey(k, n, now) == input.AfterColon(c + 1, n, now);
    v := input.SkipWs(c + 1);
  }

  lemma {:induction false} MembersAreEntries(input: Input, p: nat, n: nat, evs: seq<Event>) returns (entries: Entries)
    requires p <= |input.src| && input.Members(p, n, evs).Ok?
    ensures entries.Entry? && EntriesReadAs(input, p, n, evs, entries, input.Members(p, n, evs))
    decreases |input.src| - p, 3
  {
    hide EntriesReadAs, Input.Val, Input.AfterMember, Input.Members, NameText, At, IsSpaces, Input.SkipWs, IsSeparator, ReadAs;
    var name, k, c, v, now := FindName(input, p, n, evs);
    SpacesThere(input, k);
    SpacesThere(input, c + 1);
    var s := ValIsSyntax(input, v, now);
    var r := input.Val(v, now);
    var after, separator, rest := AfterMemberIsEntries(input, r.pos, n + 1, r.evs);
    entries := Entry(name, input.src[k..c], input.src[c + 1..v], s, after, separator, rest);
    EntryIsRead(input, p, k, c, v, n, evs, entries);
  }

  /** Spaces behind a member, and then the closing brace or a comma with more. */
  lemma {:induction false} AfterMemberIsEntries(input: Input, p: nat, n: nat, evs: seq<Event>)
      returns (after: Bytes, separator: Bytes, rest: Entries)
    requires p <= |input.src| && input.AfterMember(p, n, evs).Ok?
    ensures IsSpaces(after) && At(input, p, after) && At(input, p + |after|, separator)
    ensures IsSeparator(separator, rest.NoEntry?, input.trailingCommas)
    ensures EntriesReadAs(input, p + |after| + |separator|, n, evs, rest, input.AfterMember(p, n, evs))
    decreases |input.src| - p, 1
  {
    hide EntriesReadAs, Input.Members, Input.SkipWs, At, IsSpaces;
    var q := input.SkipWs(p);
    SpacesThere(input, p);
    after, separator, rest := input.src[p..q], [], NoEntry;
    AtRange(input, q, q);
    if input.Peek(q) == COMMA {
      assert input.AfterMember(p, n, evs) == input.AfterMemberComma(q + 1, n, evs);
      var u := input.SkipWs(q + 1);
      separator := SeparatorThere(input, q);
      if input.trailingCommas && input.Peek(u) == RBRACE {
        NoEntryIsRead(input, u, n, evs);
      } else {
        rest := MembersAreEntries(input, u, n, evs);
      }
    } else {
      NoEntryIsRead(input, q, n, evs);
    }
  }

  lemma {:induction false} EntryFolds(input: Input, entries: Entries)
    requires entries.Entry? && ArePieces(entries.name) && IsSpaces(entries.afterName) && IsSpaces(entries.beforeValue)
    requires IsSyntax(input, entries.value) && IsSpaces(entries.after) && AreEntries(input, entries.rest)
    requires IsSeparator(entries.separator, entries.rest.NoEntry?, input.trailingCommas)
    ensures AreEntries(input, entries)
  {
  }

  lemma {:induction false} ValueUnfolds(input: Input, entries: Entries)
    requires entries.Entry? && AreEntries(input, entries)
    ensures EntryText(input, entries)
            == SyntaxText(input, entries.value) + (entries.after + (entries.separator + EntriesText(input, entries.rest)))
  {
    hide SyntaxText, EntriesText;
  }

  lemma {:induction false} ValueIsThere(input: Input, v: nat, entries: Entries)
    requires entries.Entry? && AreEntries(input, entries) && At(input, v, SyntaxText(input, entries.value))
    requires var q := v + |SyntaxText(input, entries.value)|;
             && At(input, q, entries.after) && At(input, q + |entries.after|, entries.separator)
             && At(input, q + |entries.after| + |entries.separator|, EntriesText(input, entries.rest))
    ensures At(input, v, EntryText(input, entries))
    ensures |EntryText(input, entries)|
            == |SyntaxText(input, entries.value)| + |entries.after| + |entries.separator| + |EntriesText(input, entries.rest)|
  {
    hide At, SyntaxText, EntriesText, AreEntries, EntryText;
    EntryUnfolds(input, entries);
    ValueUnfolds(input, entries);
    var text, rest := SyntaxText(input, entries.value), EntriesText(input, entries.rest);
    var q := v + |text|;
    AtJoin(input, q + |entries.after|, entries.separator, rest);
    AtJoin(input, q, entries.after, entries.separator + rest);
    AtJoin(input, v, text, entries.after + (entries.separator + rest));
  }

  lemma {:induction false} EntryIsThere(input: Input, p: nat, k: nat, c: nat, v: nat, entries: Entries)
    requires entries.Entry? && AreEntries(input, entries) && ArePieces(entries.name) && At(input, p, NameText(entries.name))
    requires k == p + |NameText(entries.name)| && c == k + |entries.afterName| && v == c + 1 + |entries.beforeValue|
    requires At(input, k, entries.afterName) && c < |input.src| && input.Peek(c) == COLON && At(input, c + 1, entries.beforeValue)
    requires At(input, v, EntryText(input, entries))
    ensures At(input, p, EntriesText(input, entries)) && p + |EntriesText(input, entries)| == v + |EntryText(input, entries)|
  {
    hide At, SyntaxText, EntriesText, AreEntries, EntryText, NameText, AfterNameText, IsSyntax, IsSpaces, ArePieces, IsSeparator;
    EntryUnfolds(input, entries);
    ValueBegins(input, entries);
    var value := EntryText(input, entries);
    AtJoin(input, c + 1, entries.beforeValue, value);
    ByteAt(input, c);
    AtJoin(input, c, [COLON], entries.beforeValue + value);
    AtJoin(input, k, entries.afterName, [COLON] + (entries.beforeValue + value));
    AtJoin(input, p, NameText(entries.name), AfterNameText(input, entries));
  }

  lemma {:induction false} EntryIsRead(input: Input, p: nat, k: nat, c: nat, v: nat, n: nat, evs: seq<Event>, entries: Entries)
    requires entries.Entry? && ArePieces(entries.name) && At(input, p, NameText(entries.name)) && k == p + |NameText(entries.name)|
    requires k <= c == k + |entries.afterName| < v == c + 1 + |entries.beforeValue| <= |input.src| && input.Peek(c) == COLON
    requires IsSpaces(entries.afterName) && IsSpaces(entries.beforeValue) && At(input, k, entries.afterName) && At(input, c + 1, entries.beforeValue)
    requires ReadAs(input, v, evs + [Key(PiecesBytes(entries.name))], entries.value, input.Val(v, evs + [Key(PiecesBytes(entries.name))]))
    requires var r := input.Val(v, evs + [Key(PiecesBytes(entries.name))]);
             && IsSpaces(entries.after) && At(input, r.pos, entries.after) && At(input, r.pos + |entries.after|, entries.separator)
             && IsSeparator(entries.separator, entries.rest.NoEntry?, input.trailingCommas)
             && p <= |input.src| && input.Members(p, n, evs) == input.AfterMember(r.pos, n + 1, r.evs)
             && EntriesReadAs(input, r.pos + |entries.after| + |entries.separator|, n + 1, r.evs, entries.rest, input.Members(p, n, evs))
    ensures EntriesReadAs(input, p, n, evs, entries, input.Members(p, n, evs))
  {
    hide Input.Val, Input.AfterMember, Input.Members, At, TreeEvents, SyntaxText, NameText, EntriesText, EntryTrees, AreEntries, IsSyntax, TreeOf,
         EntryText, AfterNameText, IsSeparator, IsSpaces, MemberEvents, Delimited, ArePieces;
    EntryFolds(input, entries);
    EntryUnfolds(input, entries);
    ValueIsThere(input, v, entries);
    EntryIsThere(input, p, k, c, v, entries);
    var ms := EntryTrees(input, entries.rest);
    FirstMemberEvents(evs, TreeMember(PiecesBytes(entries.name), TreeOf(input, entries.value)), ms, EndObject(n + 1 + |ms|));
  }

  // ------------------------------------------------------------ whole texts

  /** The input is a value with white space around it, up to its end or to a NUL. */
  predicate IsText(input: Input, before: Bytes, s: Syntax, after: Bytes) {
    && IsSpaces(before) && IsSyntax(input, s) && IsSpaces(after)
    && At(input, 0, before + (SyntaxText(input, s) + after)) && input.Peek(|before| + |SyntaxText(input, s)| + |after|) == NUL
  }

  lemma {:induction false} SpacesToEnd(input: Input, q: nat, after: Bytes)
    requires IsSpaces(after) && At(input, q, after) && input.Peek(q + |after|) == NUL
    ensures EndsNumber(input.Peek(q)) && input.SkipWs(q) == q + |after| <= |input.src|
  {
    if after != [] {
      AtIndex(input, q, after, 0);
    }
    SkipsSpaces(input, q, after);
  }

  /** Every text is read as the value that it stands for. */
  lemma {:induction false} TextIsRead(input: Input, before: Bytes, s: Syntax, after: Bytes)
    requires Accepting(input) && !input.stopWhenDone && IsText(input, before, s, after)
    ensures input.Document(0, []) == Ok(|before| + |SyntaxText(input, s)| + |after|, TreeEvents(TreeOf(input, s)))
  {
    hide Input.Val, At, SyntaxText, TreeEvents, TreeOf, Input.SkipWs, IsSyntax, IsSpaces, Delimited, EndsNumber;
    var text, p := SyntaxText(input, s), |before|;
    FirstOfSyntax(input, s);
    SpacesThen(input, 0, before, text + after);
    AtSplit(input, p, text, after);
    SpacesToEnd(input, p + |text|, after);
    EndDelimits(input, s, p);
    ReadsSyntax(input, p, s, []);
    assert [] + TreeEvents(TreeOf(input, s)) == TreeEvents(TreeOf(input, s));
  }

  /** Whatever is read is a text, and what is sent stands for it, whatever the handler. */
  lemma {:induction false} ReadIsText(input: Input) returns (before: Bytes, s: Syntax, after: Bytes)
    requires !input.stopWhenDone && input.Document(0, []).Ok?
    ensures IsText(input, before, s, after)
    ensures input.Document(0, []) == Ok(|before| + |SyntaxText(input, s)| + |after|, TreeEvents(TreeOf(input, s)))
  {
    hide Input.Val, At, SyntaxText, TreeEvents, TreeOf, Input.SkipWs, Delimited;
    var p := input.SkipWs(0);
    SpacesThere(input, 0);
    before := input.src[0..p];
    s := ValIsSyntax(input, p, []);
    var q := input.Val(p, []).pos;
    SpacesThere(input, q);
    after := input.src[q..input.SkipWs(q)];
    AtJoin(input, p, SyntaxText(input, s), after);
    AtJoin(input, 0, before, SyntaxText(input, s) + after);
    assert [] + TreeEvents(TreeOf(input, s)) == TreeEvents(TreeOf(input, s));
  }

  /** A text is read to its end if and only if it is one of the grammar. */
  lemma {:induction false} AcceptsExactlyTexts(input: Input)
    requires Accepting(input) && !input.stopWhenDone
    ensures input.Document(0, []).Ok? <==> exists before, s, after :: IsText(input, before, s, after)
  {
    hide Input.Document, IsText;
    if input.Document(0, []).Ok? {
      var before, s, after := ReadIsText(input);
    }
    if before, s, after :| IsText(input, before, s, after) {
      TextIsRead(input, before, s, after);
    }
  }

  /** No text stands for two values. */
  lemma {:induction false} TextsAreUnambiguous(input: Input, a: Bytes, s: Syntax, b: Bytes, c: Bytes, t: Syntax, d: Bytes)
    requires Accepting(input) && !input.stopWhenDone && IsText(input, a, s, b) && IsText(input, c, t, d)
    ensures TreeEvents(TreeOf(input, s)) == TreeEvents(TreeOf(input, t))
  {
    hide Input.Document, TreeOf, TreeEvents, At, SyntaxText;
    TextIsRead(input, a, s, b);
    TextIsRead(input, c, t, d);
  }

  /** With the flag to stop behind a value: a value with white space before it, and nothing of it left. */
  lemma {:induction false} StopsBehindValue(input: Input, before: Bytes, s: Syntax)
    requires Accepting(input) && input.stopWhenDone && IsSpaces(before) && IsSyntax(input, s)
    requires At(input, 0, before + SyntaxText(input, s)) && Delimited(input, s, |before|)
    ensures input.Document(0, []) == Ok(|before| + |SyntaxText(input, s)|, TreeEvents(TreeOf(input, s)))
  {
    hide Input.Val, At, SyntaxText, TreeEvents, TreeOf, Input.SkipWs, Delimited;
    FirstOfSyntax(input, s);
    SpacesThen(input, 0, before, SyntaxText(input, s));
    ReadsSyntax(input, |before|, s, []);
    assert [] + TreeEvents(TreeOf(input, s)) == TreeEvents(TreeOf(input, s));
  }
}
