# A verified model of the JSON engine, the timers and the write buffer

The server carries a header-only JSON engine (`server/external/rapidjson`) and has, of its own, a timer queue and a
chained byte buffer. This project models the algorithms of those parts in Dafny, in the form the source has them, and
proves what they promise. Classes with mutable fields are classes here, in-place algorithms work on arrays, loops are
loops; what they compute is tied to functions about which the laws are proved. `dafny verify dfyconfig.toml` checks
all of it.

| file | what it holds |
|---|---|
| `Json`, `Options` | bytes, handler events, event trees, document values |
| `ReaderSpec`, `Decimals` | the grammar as a function from text to events, end and error; decimal numbers |
| `Automaton` | the table-driven parser as a transition function, and what each transition keeps |
| `Reader` | the class with both parsers, recursive and table-driven, and the calls token by token |
| `Grammar`, `JsonTexts` | JSON texts as syntax trees with their texts and values; the reader takes exactly these texts for these values |
| `ParseErrors` | what the code and the offset of an error tell about the text |
| `Nesting`, `Document` | accepted events are those of one value; the stack machine that builds values from them |
| `Writer`, `Printing`, `RoundTrip` | the printer, replaying a value to it, and parsing what was printed |
| `Equality` | the comparison of values |
| `MemberIndex` | the index by name beside the array of members |
| `Schema`, `Validation`, `Validity` | what schemas mean, the streaming validator as a function, soundness and completeness |
| `SchemaValidator` | the validator that follows references as a tree of objects, each with the validators that run beside it |
| `Draft04` | where the validator departs from JSON Schema draft-04 and exactly when it does not |
| `Hasher` | the hash of a value from its events |
| `SchemaCompile`, `SchemaDocument` | what places of a schema document mean; the compiler that follows references |
| `SchemaGraph`, `SchemaCycles`, `SchemaKeywords` | what a graph of schemas means; where validators nest without end; the graph of a schema document |
| `KeywordMeaning` | what a place of a schema document means, keyword by keyword |
| `GraphValidation` | the streaming validator that follows references through such a graph, as a function |
| `CompiledGraph`, `DocumentValidation` | the compiled schemas are that graph; from a document to the verdict, and when it is reached |
| `JsonPointer`, `PointerAccess` | RFC 6901 pointers: parser, printer, get and create on values |
| `PointerGrammar`, `PointerFragment` | the grammar of both forms of pointers, which the parser takes exactly; fragments by the standard |
| `PointerInPlace` | create in a tree of objects, which hands out a reference into it |
| `Uri` | dot segments in place, resolution and division of URIs (RFC 3986) |
| `Encodings` | UTF-8 and UTF-16 |
| `Allocator` | the pool allocator over a list of chunks |
| `Timers` | the ordered set of timers and the log of a whole run |
| `ByteArray` | writing across the blocks of a chain; variable-length and zigzag integers |

The main results, one line each:

- The table-driven parser ends as the recursive one does on every text, flag setting and handler, with the same events.
- The reader takes exactly the texts of a grammar, that of RFC 8259 but for the points below, written down as syntax trees,
  with the events of the values that they stand for; and every error says what is missing where.
- Whatever is printed from a value without doubles is parsed back to that value, and no shorter text is.
- Streaming validation decides exactly what a schema means. What a document means is said keyword by keyword.
- Compiling a schema document terminates, cyclic references included, and, where names within
  an object differ, gives every place the schema it means.
- Compiling a document and giving a value's events to the tree of validator objects answers what the document means,
  for values of any depth and whatever its references, unless the start reaches a cycle of combining keywords. One event
  never ends exactly where schemas that all admit it lead into such a cycle.
- Pointers in the string form are read exactly as RFC 6901 has them, in the fragment form under an exact condition; they
  survive printing and parsing; create then get finds the value exactly when no "-" met an array.
- All parts of a URI share one buffer, and neither parsing nor resolving writes one over another.
- Removing dot segments in place is section 5.2.4 of RFC 3986 on every path that begins with a slash, and on relative
  paths under an exact condition on their segments.
- No round of the hash loses anything: one change anywhere in a value changes its code exactly when it changes the code of
  the part.
- UTF-8 decoding accepts exactly the grammar of RFC 3629 and inverts encoding.
- Over any run of allocations, blocks stay inside chunks and apart, and their bytes survive growing.
- Over any run of timer operations nothing fires early, a one-shot fires once, and everything due is delivered next.

Where code and documentation disagree, the model follows the code:

- The comment above the comparison of values says that an object with a repeated name never compares equal. It can
  (`Equality.RepeatedNames`): to some value exactly when the values under each name have a common one
  (`Equality.EqualsSomeExactlyWhen`), to itself exactly when they are equal among themselves
  (`Equality.SelfEqualExactlyWhen`), never from an object with distinct names (`Equality.DistinctIsNotRepeated`). When
  the comparison can be turned round is `Equality.SymmetricExactlyWhen`. Integers are compared by their 64 bits
  (`Equality.BitsAreNotValues`).
- Resetting a timer answers false when it was reset, true only when there was nothing to do.
- RFC 8259 allows an escaped surrogate that is not in a pair and numbers of any size. The reader refuses the first
  (`ParseErrors.EscapeErrorExactly`) and numbers with too large an exponent, or a double that overflows
  (`Grammar.ReadsNumeral`); without encoding validation it takes strings that are not UTF-8, and it takes a NUL for the end.
- The two parsers name one error differently: a text that begins with `]`, `}`, `,` or `:` is an empty document for
  the automaton and an invalid value for the recursive parser. Called token by token, the automaton also differs on a
  text of nothing but whitespace. Where a handler refused an event, the recursive parser reports an opening bracket, and
  a closing one that follows no comma, one byte later.
- Draft-04 requires names whatever their defaults, counts only names under `properties` as declared, and lets
  `additionalItems` apply behind an empty tuple. The validator departs from each (`Draft04`).
- URIs are divided as the documented regular expression does exactly when they do not begin with a colon
  (`Uri.ExpressionExactlyWhen`); one that does has a scheme that is only the colon (`Uri.ColonInFront`).
- Relative paths normalize as RFC 3986 says exactly when their segments keep pace (`Uri.NormalExactlyWhen`); "a/../b"
  does not. It is reachable through a reference with a scheme, such as "urn:a/../b" (`Uri.SchemeWithRelativePath`).
- A pointer in a URI fragment is decoded name by name, where the standard decodes the whole first, and fewer bytes may stand
  for themselves: "#/a:b", "#/%2F" and "#/~%30" are read otherwise (`PointerFragment.FragmentsDiffer`). They are the same
  exactly under the condition of `PointerFragment.FragmentExactlyWhen`, which printed fragments meet.
- The overflow test of pointer indices misses numbers such as 5000000000 (`JsonPointer.UnnoticedNumber`); which ones is
  `JsonPointer.IndexExactly`.
- Moving the write position does not count the offset within a block. The write block then falls behind, for good,
  and later bytes go over earlier ones: exactly when, `ByteArrays.ByteArray.HasWritten` says.

## Model

| member | source | states |
|---|---|---|
| `Reader.GenericReader.ParseHex4` | server/external/rapidjson/reader.h:906-925 | four hex digits give their number; anything else is the error for an invalid escape, at the escape |
| `Reader.GenericReader.ParseUnicodeEscape` | server/external/rapidjson/reader.h:1022-1042 | one escape or a pair gives the scalar value, and anything else the error at the first escape, as the string grammar has it: which values are `Grammar.ReadsCoded` and `Grammar.EscapeIsCoded` |
| `Reader.GenericReader.ParseStringToStream` | server/external/rapidjson/reader.h:991-1068 | the decoded bytes up to the closing quotation mark, or the error code and offset, as the string grammar gives them |
| `Reader.GenericReader.AccumulateDigits` | server/external/rapidjson/reader.h:1498-1575 | an accumulation loop keeps the exact decimal value and leaves only when one more digit would pass the limit of the type |
| `Reader.GenericReader.ParseInteger` | server/external/rapidjson/reader.h:1487-1575 | after the integer part: exact value in 32 or 64 bits, or the fact that the whole integer part does not fit 64 bits |
| `Reader.GenericReader.FinishInteger` | server/external/rapidjson/reader.h:1578-1748 | without fraction and exponent the event is Uint, Uint64, Int or Int64 by where the mathematical value lies, else a double |
| `Reader.GenericReader.ReadFastFraction` | server/external/rapidjson/reader.h:1593-1608 | fraction digits taken while the significand fits 53 bits, with the digit count and exponent of the specification; the exponent falls by at most the digits read |
| `Reader.GenericReader.ReadSlowFraction` | server/external/rapidjson/reader.h:1618-1627 | the other fraction digits: at most 17 significant ones change the exponent, all are skipped |
| `Reader.GenericReader.ReadNegativeExponent` | server/external/rapidjson/reader.h:1648-1665 | the exponent is the decimal value written, or past the largest that still matters and below that value; it and its sum with the fraction exponent fit a 32-bit int for every fraction of at most 214748055 digits |
| `Reader.GenericReader.ReadPositiveExponent` | server/external/rapidjson/reader.h:1666-1673 | too big exactly when the written exponent passes 308 less the fraction exponent, else the exponent is the decimal value written; until then no sum leaves 32 bits |
| `Reader.GenericReader.ParseNumber` | server/external/rapidjson/reader.h:1468-1748 | the outcome, event and error offset of the number grammar for every text |
| `Reader.TooBigFromPrefix` | server/external/rapidjson/reader.h:1498-1575 | a prefix of the integer part that does not fit 64 bits means that the whole part does not fit and has at least 18 digits |
| `Reader.GenericReader.ParseValue` | server/external/rapidjson/reader.h:1752-1769 | recursive descent over one value: events, end, error and error offset are those of the grammar |
| `Reader.GenericReader.ParseArray` | server/external/rapidjson/reader.h:808-853 | elements and their true count, trailing comma under its flag, each error at its place |
| `Reader.GenericReader.ParseObject` | server/external/rapidjson/reader.h:740-804 | members and their true count, trailing comma under its flag, each error at its place |
| `Reader.GenericReader.Parse` | server/external/rapidjson/reader.h:559-590 | the whole text by recursive descent: exactly one value unless the flag stops when done |
| `Automaton.TransitRefines` | server/external/rapidjson/reader.h:2011-2160 | every transition keeps the stack invariant (frames return to an array or object inside, the bottom one to the start) and what the recursive parser would still do; a refused token is the error the recursive parser reports |
| `Automaton.TransitSendsOneEvent` | server/external/rapidjson/reader.h:2011-2160 | a transition to anything but a delimiter state sends exactly one event, one to a delimiter state none |
| `Automaton.TransitMovesOn` | server/external/rapidjson/reader.h:2011-2160 | a transition takes at least one byte and never returns to the start state |
| `Automaton.EndRefines` | server/external/rapidjson/reader.h:2219-2222 | at the end of the text the error named after the state is the one the recursive parser reports there |
| `Automaton.TransitKeepsComma` | server/external/rapidjson/reader.h:2011-2160 | in every state that follows a transition, the state tells whether the last token was a comma, which is what closing brackets there depend on |
| `Automaton.RefusedEnd` | server/external/rapidjson/reader.h:2098-2150 | where a handler refuses an event, the text in front of it gives the distance between the two error offsets: one behind an opening bracket and behind a closing one that follows no comma, none otherwise |
| `Reader.GenericReader.Transit` | server/external/rapidjson/reader.h:2011-2160 | the transition method changes stream, stack, events and error as the transition function says |
| `Reader.GenericReader.IterativeParse` | server/external/rapidjson/reader.h:2192-2225 | on every text, flag setting and handler the automaton ends as the recursive parser does, with the same events. Errors have one code and offset, with two exceptions stated exactly: a text whose first token is ], }, comma or colon is an empty document for the automaton and an invalid value for the other; and a refused start or refused end that follows no comma is reported one byte later by the recursive parser |
| `Reader.GenericReader.IterativeParseNext` | server/external/rapidjson/reader.h:620-672 | a successful call sends exactly one event, moves on and leaves the rest of the parse as it was; a failing one reports the error of the recursive parser, but for the cases of IterativeParse and the code on a text of nothing but whitespace |
| `Reader.ParseByTokens` | server/external/rapidjson/reader.h:607-682 | calling token by token to the end gives as many events as successful calls and the outcome of the recursive parser, errors related as for one call |
| `Nesting.AcceptedTextIsOneValue` | server/external/rapidjson/reader.h:740-853 | the events of any accepted text are those of exactly one well-nested value, with true counts |
| `Grammar.Hex4Exactly` | server/external/rapidjson/reader.h:906-925 | four digits, upper or lower case, are read as a number exactly if they spell it, the first one the most significant |
| `Grammar.UnescapeExactly` | server/external/rapidjson/reader.h:994-1001 | the letters behind a backslash stand for the bytes that section 7 of RFC 8259 lists, and no other byte is such a letter |
| `Grammar.ReadsCoded` | server/external/rapidjson/reader.h:1022-1042 | the escapes of the UTF-16 code units of any scalar value, one unit or a high and a low surrogate, are read as that scalar value |
| `Grammar.EscapeIsCoded` | server/external/rapidjson/reader.h:1022-1042 | no other escapes are read |
| `Grammar.CodedTextIsUtf8` | server/external/rapidjson/reader.h:1022-1042 | any text of scalar values written in escapes stands for its UTF-8 bytes |
| `Grammar.ReadsPieces` | server/external/rapidjson/reader.h:991-1068 | plain bytes, short escapes and coded ones up to a quotation mark are read as the bytes that they stand for, in order |
| `Grammar.StringIsPieces` | server/external/rapidjson/reader.h:991-1068 | nothing else is read as a string |
| `Grammar.CountsDigits` | server/external/rapidjson/reader.h:1593-1630 | how many digits of a fraction move the exponent, in closed form: with an integer part all up to 18 digits together, without one all up to the 17th behind the zeros |
| `Grammar.ReadsNumeral` | server/external/rapidjson/reader.h:1468-1748 | a numeral of section 6 of RFC 8259 is read as its event, an integer by its value, or is too big: exactly if its exponent passes 308 and the digits that count, or if the double overflows |
| `Grammar.NumberIsNumeral` | server/external/rapidjson/reader.h:1468-1748 | whatever is read as a number, or is too big to be, is a numeral |
| `JsonTexts.ReadsSyntax` | server/external/rapidjson/reader.h:740-853 | a value of the grammar with any white space, wherever it stands, is read as the tree that it stands for |
| `JsonTexts.ValIsSyntax` | server/external/rapidjson/reader.h:1752-1769 | whatever is read as a value is one of the grammar and is read as what it stands for, whatever the handler |
| `JsonTexts.TextIsRead` | server/external/rapidjson/reader.h:559-590 | a text of the grammar is read to its end, with the events of the value that it stands for |
| `JsonTexts.ReadIsText` | server/external/rapidjson/reader.h:559-590 | whatever is read, by any handler, is a text of the grammar, and what is sent stands for it |
| `JsonTexts.AcceptsExactlyTexts` | server/external/rapidjson/reader.h:559-590 | a text is accepted if and only if it is one of the grammar of RFC 8259, up to its end or a NUL; with a comma behind the last element or member under its flag, no number that is too big, surrogates in pairs only, and any bytes from 0x20 on in strings |
| `JsonTexts.TextsAreUnambiguous` | server/external/rapidjson/reader.h:559-590 | no text stands for two values |
| `JsonTexts.StopsBehindValue` | server/external/rapidjson/reader.h:559-590 | with the flag to stop when done, reading ends behind the value, whatever follows that is not part of it |
| `ParseErrors.StringErrorTells` | server/external/rapidjson/reader.h:991-1068 | what stands at the offset of an error in a string: the end, a control byte, a backslash before no letter, an escape without digits, or a surrogate that is not the first of a pair |
| `ParseErrors.EscapeErrorExactly` | server/external/rapidjson/reader.h:1022-1042 | an escape is refused for its digits exactly if some are missing, and for its surrogates exactly if one is not in a pair |
| `ParseErrors.NumberErrorTells` | server/external/rapidjson/reader.h:1468-1748 | what stands at the offset of an error in a number: no digit where one is due, and behind what; or a numeral that is too big |
| `ParseErrors.ErrorsTell` | server/external/rapidjson/reader.h:740-853 | every error: its code by the events sent before (where a value, a name, a colon or a comma is due) and by the byte at its offset; a refused event by the token that it stands for |
| `Decimals.DigitsOfLargeNumber` | server/external/rapidjson/reader.h:1562-1575 | digits that stand for at least 10^17 are 18 or more: what makes the digit count of an overflowing integer part known |
| `Writer.JsonWriter.Prefix` | server/external/rapidjson/writer.h:473-491 | the separator of the place (none, comma or colon by the parity of the count) and the new count |
| `Writer.JsonWriter.WriteEscaped` | server/external/rapidjson/writer.h:431-441 | one byte of a string: itself, a two-byte escape, or a \u00 escape |
| `Writer.JsonWriter.WriteString` | server/external/rapidjson/writer.h:377-449 | quotation mark, every byte escaped in order, quotation mark |
| `Writer.JsonWriter.EndObject` | server/external/rapidjson/writer.h:231-238 | one level is popped and one bracket written |
| `Writer.JsonWriter.EndArray` | server/external/rapidjson/writer.h:246-252 | one level is popped and one bracket written |
| `Writer.WritesTreeText` | server/external/rapidjson/writer.h:182-252 | the events of any well-nested value, sent where a value may stand, print its separator and its text, whatever the levels below |
| `Printing.Print` | server/external/rapidjson/document.h:1948-1985 | replaying a value to a new writer prints exactly its text and leaves the writer complete |
| `Printing.Accept` | server/external/rapidjson/document.h:1948-1985 | replaying a value to a writer in any admissible state adds the separator and the text of the value and restores the levels |
| `RoundTrip.ReadsString` | server/external/rapidjson/reader.h:991-1068 | the string parser undoes the writer on every byte string, NUL and control bytes included |
| `RoundTrip.ReadsInteger` | server/external/rapidjson/reader.h:1483-1575 | the number parser undoes the decimal text of every 64-bit integer |
| `RoundTrip.ReadsTree` | server/external/rapidjson/reader.h:740-853 | the parser reads the text of a value wherever it stands and sends events that stand for it |
| `RoundTrip.PrintThenParse` | server/external/rapidjson/writer.h:182-252 | parsing what the writer prints for any value without doubles takes the whole text and builds exactly that value, for any strings, nesting and flags, as long as the handler accepts |
| `RoundTrip.PrintingIsInjective` | server/external/rapidjson/writer.h:182-252 | two values without doubles that print alike are equal |
| `RoundTrip.PrintedIsSyntax` | server/external/rapidjson/writer.h:182-252 | what is printed for a value is a text of the grammar without white space, and stands for that value |
| `RoundTrip.EscapeOne` | server/external/rapidjson/writer.h:377-441 | which bytes are escaped and how: only control bytes, quotation mark and backslash; in two bytes where there is a letter, else in six with capital digits |
| `RoundTrip.PrintsShortest` | server/external/rapidjson/writer.h:182-252 | no text of the grammar is shorter than what is printed for the value that it stands for |
| `Document.FlagsDependOnValueOnly` | server/external/rapidjson/document.h:792-828 | the type tests of an integer depend on its value only, whichever integer type it was made from |
| `Document.AcceptTreeStandsForValue` | server/external/rapidjson/document.h:1948-1985 | the events replayed for a value are well nested and stand for the value |
| `Document.AcceptIntExactly` | server/external/rapidjson/document.h:1977-1983 | an integer is replayed with its value as a signed 32-bit event if it can be, else as an unsigned one, else in 64 bits, unsigned only from 2^63 on |
| `Document.GenericDocument.EndObject` | server/external/rapidjson/document.h:2848-2852 | the last pairs and the object below them become one object |
| `Document.GenericDocument.EndArray` | server/external/rapidjson/document.h:2856-2860 | the last elements and the array below them become one array |
| `Document.AcceptRebuildsValue` | server/external/rapidjson/document.h:2820-2860 | replaying a value into a document handler puts the value on top of any stack, and no pop finds too few |
| `Document.ParseLeavesOneValue` | server/external/rapidjson/document.h:2642-2652 | every accepted parse leaves exactly one value on the stack |
| `Equality.IsEqual` | server/external/rapidjson/document.h:1025-1061 | the comparison with its loops and early returns decides the comparison predicate on all values; how doubles compare is a parameter |
| `Equality.EqualExactlySimilar` | server/external/rapidjson/document.h:1025-1061 | where objects have distinct names and one range of 2^64 holds all integers, values compare equal if and only if they differ in the order of members at most |
| `Equality.EqualValuesHashAlike` | server/external/rapidjson/schema.h:336-423 | values that compare equal have the same hash code |
| `Equality.BitsAreNotValues` | server/external/rapidjson/document.h:1053-1061 | integers compare equal if and only if they are equal or 2^64 apart: -1 equals 2^64 - 1 |
| `Equality.EqualIsEquivalence` | server/external/rapidjson/document.h:1025-1061 | on values without doubles whose objects have distinct names, at every depth, the comparison is reflexive, symmetric and transitive |
| `Equality.EqualsSomeExactlyWhen` | server/external/rapidjson/document.h:1018-1043 | an object, whatever its names, compares equal to some value if and only if, for each name, the values under it have one to which they all compare equal |
| `Equality.SelfEqualExactlyWhen` | server/external/rapidjson/document.h:1018-1043 | an object compares equal to itself, or to any value without doubles at all, if and only if members of one name have values that compare equal ({a:1, a:2} does not), where those values have distinct names and no doubles |
| `Equality.RepeatedFurtherIn` | server/external/rapidjson/document.h:1018-1043 | where they do not, an object can equal itself whose members of one name do not compare equal both ways |
| `Equality.DistinctIsNotRepeated` | server/external/rapidjson/document.h:1018-1043 | an object with distinct names never compares equal to one with a repeated name |
| `Equality.EqualFromTheLeft` | server/external/rapidjson/document.h:1018-1043 | as the right side, an object with repeated names is still one that some value compares equal to |
| `Equality.SymmetricExactlyWhen` | server/external/rapidjson/document.h:1018-1043 | where a first object compares equal to a second, the second does to the first if and only if members of one name in it have values that compare equal and the first has all its names (members' values with distinct names and no doubles) |
| `Equality.RepeatedNames` | server/external/rapidjson/document.h:1018-1043 | an object with a repeated name compares equal to another, which does not compare equal to it |
| `MemberIndex.LessIsTotal` | server/external/rapidjson/document.h:2124-2130 | the order of the index is total and two names are in neither order only if they are the same |
| `MemberIndex.LessIsTransitive` | server/external/rapidjson/document.h:2124-2130 | the order of the index is transitive |
| `MemberIndex.LessExactly` | server/external/rapidjson/document.h:2124-2130 | the order of the index is that of dictionaries: one name begins the other, or has the smaller byte where they first differ |
| `MemberIndex.ObjectData.DoFindMember` | server/external/rapidjson/document.h:2229-2238 | lookup by the ordered index finds a member exactly when linear search does, and the same one when names differ |
| `MemberIndex.ObjectData.Find` | server/external/rapidjson/document.h:2229-2238 | the search for the first entry that is not before a name finds an entry of that name if and only if there is one |
| `MemberIndex.ObjectData.Insert` | server/external/rapidjson/document.h:2304-2318 | an entry goes where the order wants it, and no other entry comes or goes |
| `MemberIndex.ObjectData.Erase` | server/external/rapidjson/document.h:2320-2342 | one entry goes and the others stay in order |
| `MemberIndex.ObjectData.DoFindMemberLinear` | server/external/rapidjson/document.h:2282-2288 | linear search finds the first member of a name |
| `MemberIndex.ObjectData.DoReserveMembers` | server/external/rapidjson/document.h:2191-2226 | growing moves members and iterators and keeps contents and bijection |
| `MemberIndex.ObjectData.DoAddMember` | server/external/rapidjson/document.h:2304-2318 | appends the member and an entry of its own |
| `MemberIndex.ObjectData.DoRemoveMember` | server/external/rapidjson/document.h:2320-2342 | the last member takes the place of the removed one, and so does its entry |
| `MemberIndex.SwapRemovedExactly` | server/external/rapidjson/document.h:2320-2342 | the last member stands in the place of the removed one, and all others where they were |
| `MemberIndex.ObjectData.DoEraseMembers` | server/external/rapidjson/document.h:2344-2376 | a range goes and what is behind it moves down in order, entries with it |
| `MemberIndex.ObjectData.DoClearMembers` | server/external/rapidjson/document.h:2240-2250 | no member and no entry is left |
| `Validity.AdmitsScalars` | server/external/rapidjson/schema.h:1534-1628 | the bounds tests by signedness are the mathematical comparisons for every pair of 64-bit bound and value |
| `Validity.MissingMeans` | server/external/rapidjson/schema.h:1161-1176 | the marks set at the names tell at the end which required names are missing |
| `Validity.CombineMeans` | server/external/rapidjson/schema.h:948-988 | the verdicts of the parallel validators, combined, are all of, any of, exactly one of and not |
| `Validity.JudgesValue` | server/external/rapidjson/schema.h:2800-2892 | above any stack, a value whose first event has been taken is judged by its last as its schema means, and everything below only hears its events |
| `Validity.ValidatesExactly` | server/external/rapidjson/schema.h:2800-2892 | streaming validation is sound and complete: the events of any tree leave the validator valid and ready if and only if the tree satisfies the schema |
| `SchemaValidators.StepInOrder` | server/external/rapidjson/schema.h:2800-2892 | the program's order of one event (begin, parallel validators, end) makes the step of the specification, and validators that are begun go one level less deep |
| `SchemaValidators.SchemaContext.BeginValue` | server/external/rapidjson/schema.h:871-901 | the schema chosen for the next element (list, tuple, additional or none) and the index moved on; refused where none may follow |
| `SchemaValidators.SchemaContext.Key` | server/external/rapidjson/schema.h:1108-1159 | the schema chosen for a name and the mark for a required one; refused where the name is not allowed |
| `SchemaValidators.SchemaContext.FindPropertyIndex` | server/external/rapidjson/schema.h:1513-1523 | the loop over the properties finds the first of a name |
| `SchemaValidators.SchemaContext.EndObject` | server/external/rapidjson/schema.h:1161-1183 | required names seen or excused, and the number of members within its limits |
| `SchemaValidators.SchemaContext.EndArray` | server/external/rapidjson/schema.h:1222-1237 | the number of elements within its limits |
| `SchemaValidators.SchemaContext.OneOf` | server/external/rapidjson/schema.h:965-983 | the loop accepts exactly one valid validator |
| `SchemaValidators.SchemaContext.EndValue` | server/external/rapidjson/schema.h:948-992 | the loops over the validators' verdicts decide all of, any of, exactly one of and not |
| `SchemaValidators.SchemaContext.CreateParallelValidator` | server/external/rapidjson/schema.h:1464-1510 | one fresh validator object for each schema that the combining keywords refer to, in order |
| `SchemaValidators.SchemaContext.Tell` | server/external/rapidjson/schema.h:2811-2815 | every parallel validator of a context takes the step of its own state and nothing else changes |
| `SchemaValidators.SchemaValidator.HandleParallel` | server/external/rapidjson/schema.h:2810-2820 | every context's validators receive the event once |
| `SchemaValidators.SchemaValidator.BeginValue` | server/external/rapidjson/schema.h:2981-3012 | a new context for the value, under the schema chosen by the context below |
| `SchemaValidators.SchemaValidator.HandleEnd` | server/external/rapidjson/schema.h:3014-3055 | the context of a finished value is popped if its schema accepts it |
| `SchemaValidators.SchemaValidator.Handle` | server/external/rapidjson/schema.h:2800-2892 | one event on the tree of validator objects, which follow references, is exactly one step of the specification, at every depth, where that step ends |
| `SchemaValidators.SchemaValidator.Validate` | server/external/rapidjson/schema.h:2800-2892 | on any graph of schemas the validator object is valid after the events of a value if and only if the value is what the schema means, where no validators that can be reached nest deeper than a bound |
| `SchemaValidators.SchemaValidator.Reset` | server/external/rapidjson/schema.h:2519-2532 | back to the state before any event |
| `Schema.CodePointsExactly` | server/external/rapidjson/schema.h:1064-1075 | the length of a string is the number of scalar values of which it is the UTF-8 encoding, and there is one if and only if it is such an encoding |
| `Draft04.ScalarIsStandard` | server/external/rapidjson/schema.h:995-1083 | for every value that is no array or object, type, bounds and length are those of sections 5.1, 5.2 and 5.5.2, the length of a string being the number of scalar values that it encodes |
| `Draft04.MeaningIsStandard` | server/external/rapidjson/schema.h:871-1237 | where the conditions below hold at every level, what the validator decides is what draft-04 says, written down anew section by section |
| `Draft04.RequiredExactlyWhen` | server/external/rapidjson/schema.h:1161-1176 | the required test is that of the specification on all objects if and only if no required name has a default that is a non-empty string |
| `Draft04.MembersExactlyWhen` | server/external/rapidjson/schema.h:1108-1155 | the choice of a member's schema is that of the specification for all names if and only if additional members are allowed or every required name is declared as a property |
| `Draft04.ItemsExactlyWhen` | server/external/rapidjson/schema.h:874-896 | the choice of an element's schema is that of the specification at all positions if and only if additional elements are allowed or the tuple is not empty |
| `Draft04.ValidatesToStandard` | server/external/rapidjson/schema.h:871-1237 | where these conditions hold at every level, streaming validation decides what draft-04 says |
| `Draft04.ExcusedByDefault` | server/external/rapidjson/schema.h:1164-1170 | a schema and an object on which a default excuses a missing required name |
| `Draft04.RequiredCountsAsDeclared` | server/external/rapidjson/schema.h:713-721 | a schema and an object on which a name that is only required passes as declared |
| `Draft04.EmptyTupleIsNone` | server/external/rapidjson/schema.h:765-771 | a schema and an array on which an empty tuple passes for no tuple |
| `Hashing.Hasher.WriteBuffer` | server/external/rapidjson/schema.h:408-416 | the code of a scalar, one round for its kind and one for each byte in order; that no round loses anything is `Hashing.RoundKeepsAll` |
| `Hashing.Hasher.EndObject` | server/external/rapidjson/schema.h:368-375 | the codes of the members are popped and combined into one |
| `Hashing.Hasher.EndArray` | server/external/rapidjson/schema.h:378-385 | the codes of the elements are popped and combined in order |
| `Hashing.Hasher.HashValue` | server/external/rapidjson/schema.h:336-395 | the events of a value leave exactly one code, the one its structure has, and no event pops too much |
| `Hashing.OneCodePerValue` | server/external/rapidjson/schema.h:342-395 | above any stack, a finished value is one code and everything below is untouched |
| `Hashing.OrderDoesNotMatter` | server/external/rapidjson/schema.h:368-375 | values that differ only in the order of members, at any depth, have the same code |
| `Hashing.RoundKeepsAll` | server/external/rapidjson/schema.h:418-423 | a round of the hash is injective, in the code before it for any data and in the data for any code |
| `Hashing.BufferShowsByte` | server/external/rapidjson/schema.h:408-416 | strings and numbers that differ in one byte have different codes |
| `Hashing.BufferShowsKind` | server/external/rapidjson/schema.h:408-416 | the same bytes have different codes as values of different kinds |
| `Hashing.ArrayShowsElement` | server/external/rapidjson/schema.h:378-385 | exchanging one element changes the code of the array if and only if the code of the element changes |
| `Hashing.ObjectShowsMember` | server/external/rapidjson/schema.h:368-375 | exchanging one member changes the code of the object if and only if the code of the member changes |
| `Hashing.ChangeShows` | server/external/rapidjson/schema.h:342-395 | one change anywhere in a value, at any depth: the code of the whole changes if and only if that of the part does |
| `Hashing.NameShows` | server/external/rapidjson/schema.h:368-375 | so for the name of a member |
| `Hashing.ScalarsShow` | server/external/rapidjson/schema.h:342-366 | null, true and false have three codes, and strings that differ in one byte have two |
| `Hashing.CodesInNumbers` | server/external/rapidjson/schema.h:408-423 | the codes of null, false, true, "a", [null] and {"a": null}, in numbers |
| `Hashing.TwiceIsNever` | server/external/rapidjson/schema.h:368-375 | the price of the exclusive or: a member that is there twice does not show in the code |
| `SchemaCompile.Doc.InPlayIsFinite` | server/external/rapidjson/schema.h:2164-2204 | the places where the compiler can come are words over the tokens of the document, no longer than it is deep: finitely many |
| `SchemaCompile.Doc.MeaningOfCycle` | server/external/rapidjson/schema.h:2374-2379 | all references of a chain that leads back into itself mean the schema that accepts everything |
| `SchemaCompile.Doc.MeaningOfNext` | server/external/rapidjson/schema.h:2206-2319 | a reference means what its target means |
| `SchemaDocument.GenericSchemaDocument.IsCyclicRef` | server/external/rapidjson/schema.h:2374-2379 | whether a place is among those that wait |
| `SchemaDocument.GenericSchemaDocument.GetSchema` | server/external/rapidjson/schema.h:2381-2388 | the schema of a place if it is mapped |
| `SchemaDocument.GenericSchemaDocument.AddSchemaRefs` | server/external/rapidjson/schema.h:2364-2371 | all that waits is mapped to one schema and nothing waits any more |
| `SchemaDocument.GenericSchemaDocument.HandleRefSchema` | server/external/rapidjson/schema.h:2206-2319 | a reference waits while its target is compiled, ends typeless where it is invalid, unknown or cyclic, and, in a tidy document (the names within an object differ), means its target otherwise; it terminates because a place is mapped or one more waits |
| `SchemaDocument.GenericSchemaDocument.CreateSchema` | server/external/rapidjson/schema.h:2177-2204 | the schema for a place of a tidy document is the one it means, nothing waits on return, and mapped places stay mapped |
| `SchemaDocument.GenericSchemaDocument.NewSchema` | server/external/rapidjson/schema.h:585-594 | a schema is mapped before its sub-schemas are compiled, and ends with links to what they mean in a tidy document |
| `SchemaDocument.GenericSchemaDocument.CreateSchemaRecursive` | server/external/rapidjson/schema.h:2164-2175 | every object inside the value is mapped |
| `SchemaDocument.GenericSchemaDocument.constructor` | server/external/rapidjson/schema.h:1867-1893 | compilation terminates on every document, cyclic references or not; nothing waits then, every link leads to a schema that was built, and in a tidy document the start, every mapped place and every link has its meaning |
| `SchemaCycles.RankExactlyWhen` | server/external/rapidjson/schema.h:1464-1510 | ranks that fall along allOf, anyOf, oneOf and not exist, on what a schema reaches through keywords of all kinds, if and only if validators nest without end from nothing that it reaches |
| `SchemaCycles.CircleNests` | server/external/rapidjson/schema.h:1464-1510 | from every place on a cycle of combining keywords, or on the way into one, validators nest to every depth |
| `SchemaCycles.NestsForeverExactlyWhen` | server/external/rapidjson/schema.h:1464-1510 | among finitely many places validators nest without end if and only if combining keywords lead into a cycle; to nest deeper than there are places is enough |
| `SchemaCycles.AllEndExactlyWhen` | server/external/rapidjson/schema.h:1464-1510 | nothing that is reached nests without end if and only if no cycle of combining keywords is reached |
| `SchemaCycles.MeaningIsOne` | server/external/rapidjson/schema.h:2800-2892 | the meaning of a schema depends neither on the ranks by which it is defined nor on what it does not reach |
| `SchemaCycles.MeansFromSame` | server/external/rapidjson/schema.h:2800-2892 | graphs that agree on a closed set of places give every schema in it one meaning |
| `SchemaGraph.UnrolledMeans` | server/external/rapidjson/schema.h:2800-2892 | on a tree of a given depth a guarded graph means what the finite schema means that is the graph down to that depth |
| `SchemaGraph.ValidatesGraph` | server/external/rapidjson/schema.h:2800-2892 | streaming validation with that finite schema decides what the graph means |
| `SchemaKeywords.RefsAreLinks` | server/external/rapidjson/schema.h:598-815 | every schema that the keywords of a place refer to is one of the links the compiler makes there |
| `SchemaKeywords.GraphOfIsOk` | server/external/rapidjson/schema.h:598-815 | in a document whose integers fit 64 bits every schema has bounds of 64 bits and one property for each name |
| `KeywordMeaning.MeaningByKeywords` | server/external/rapidjson/schema.h:598-815 | what a place of a schema document means, keyword by keyword: it accepts a value if and only if type, bounds, limits, combinations, items and properties do, in terms of what the places below accept |
| `KeywordMeaning.MeaningOfReference` | server/external/rapidjson/schema.h:2206-2319 | a reference accepts what its target does; one that leads nowhere, and what is no object, accepts everything |
| `KeywordMeaning.TypeMeans` | server/external/rapidjson/schema.h:610-613 | {"type": name} for each of the seven names |
| `KeywordMeaning.TypesMean` | server/external/rapidjson/schema.h:610-617 | {"type": [..]}: one of the types |
| `KeywordMeaning.MinItemsMeans` | server/external/rapidjson/schema.h:773 | {"minItems": n}: an array has at least n elements |
| `KeywordMeaning.MaxItemsMeans` | server/external/rapidjson/schema.h:774 | {"maxItems": n}: an array has at most n elements |
| `KeywordMeaning.MinPropertiesMeans` | server/external/rapidjson/schema.h:757 | {"minProperties": n}: an object has at least n members |
| `KeywordMeaning.MaxPropertiesMeans` | server/external/rapidjson/schema.h:758 | {"maxProperties": n}: an object has at most n members |
| `KeywordMeaning.MinLengthMeans` | server/external/rapidjson/schema.h:788 | {"minLength": n}: a string encodes at least n scalar values |
| `KeywordMeaning.MaxLengthMeans` | server/external/rapidjson/schema.h:789 | {"maxLength": n}: a string encodes at most n scalar values |
| `KeywordMeaning.MinimumMeans` | server/external/rapidjson/schema.h:795-797 | {"minimum": b}: an integer is b or more |
| `KeywordMeaning.MaximumMeans` | server/external/rapidjson/schema.h:799-801 | {"maximum": b}: an integer is b or less |
| `KeywordMeaning.ExclusiveMinimumAlone` | server/external/rapidjson/schema.h:803 | {"exclusiveMinimum": ..} without a bound means nothing |
| `KeywordMeaning.ExclusiveMaximumAlone` | server/external/rapidjson/schema.h:804 | {"exclusiveMaximum": ..} without a bound means nothing |
| `GraphValidation.StepSeen` | server/external/rapidjson/schema.h:2800-2892 | one event for a validator that follows references, where it ends, is one step of the validator on the graph unrolled at least as deep as its contexts may still go |
| `GraphValidation.BeginEndsExactlyWhen` | server/external/rapidjson/schema.h:2981-3012 | one event begins validators deeper than a bound if and only if schemas that all admit the event nest that deep |
| `GraphValidation.NeverBeginsExactlyWhen` | server/external/rapidjson/schema.h:2981-3012 | an event never ends if and only if they nest without end |
| `GraphValidation.StepSame` | server/external/rapidjson/schema.h:2800-2892 | an event comes to the same, or ends in neither, on two graphs that agree where the validator can come, and keeps it there |
| `GraphValidation.ValidatesAlongReferences` | server/external/rapidjson/schema.h:2800-2892 | streaming validation over any graph is sound and complete for trees of any depth, where no validators that can be reached nest deeper than a bound |
| `CompiledGraph.ShapeLinkedMeans` | server/external/rapidjson/schema.h:637-815 | a schema with the links in the order in which its constructor asks for them is the schema that the keywords say |
| `CompiledGraph.CompiledAgrees` | server/external/rapidjson/schema.h:2164-2204 | the graph that the compiler leaves is that of the document wherever a schema was built, and leads nowhere else |
| `DocumentValidation.NestingExactlyWhen` | server/external/rapidjson/schema.h:1464-1510 | validators for a document nest without end if and only if the start reaches a cycle of combining keywords; if they end they nest no deeper than the document has places |
| `DocumentValidation.EventEndsExactlyWhen` | server/external/rapidjson/schema.h:2981-3012 | one event for the schema of any place never ends if and only if schemas that all admit it lead into a cycle of combining keywords |
| `DocumentValidation.ValidatesDocument` | server/external/rapidjson/schema.h:2800-2892 | where the start reaches no cycle of combining keywords, validation of any tree ends and leaves the validator valid if and only if the tree is what the document means |
| `DocumentValidation.Validate` | server/external/rapidjson/schema.h:2457-2484 | from the document to the verdict: compiling it, giving the schemas to a validator object and that the events of a value answers what a tidy document means, where no cycle of combining keywords is reached |
| `DocumentValidation.CombinedNeverEnds` | server/external/rapidjson/schema.h:2981-3012 | {"allOf": [{"$ref": "#"}]}: validation of no value at all ends, at any bound |
| `DocumentValidation.AdmittingNothingEnds` | server/external/rapidjson/schema.h:2981-3012 | the same with an empty list of types: a cycle is reached, and yet every validation ends |
| `DocumentValidation.ContainingEnds` | server/external/rapidjson/schema.h:2206-2319 | {"properties": {"a": {"$ref": "#"}}}: a cycle through members, and none of combining keywords |
| `DocumentValidation.UnreachedCycle` | server/external/rapidjson/schema.h:2164-2175 | {"default": {"allOf": [{"$ref": "#/default"}]}}: a cycle of combining keywords that the start does not reach |
| `JsonPointer.GenericPointer.Parse` | server/external/rapidjson/pointer.h:918-1048 | the parser with its name buffer yields the tokens, or the code and offset of the error, of the grammar, and never writes behind the length of the source |
| `JsonPointer.GenericPointer.ParsePercent` | server/external/rapidjson/pointer.h:960-978 | percent-encoded UTF-8 is decoded into the name; what is malformed is an error there |
| `JsonPointer.GenericPointer.ConvertIndex` | server/external/rapidjson/pointer.h:1011-1033 | the loop over the digits of a number computes the index of its name |
| `JsonPointer.IndexExactly` | server/external/rapidjson/pointer.h:1005-1033 | a canonical decimal below 2^32 has its value as index, a name of any other form none, and a larger number its value modulo 2^32 unless some digit makes the wrapped number smaller |
| `JsonPointer.NoticedExactlyWhen` | server/external/rapidjson/pointer.h:1019-1029 | of the numbers from 2^32 up to ten times that, the wrap test notices exactly those whose value modulo 2^32 is less than a tenth of them |
| `JsonPointer.UnnoticedNumber` | server/external/rapidjson/pointer.h:1019-1029 | 4294967296 is noticed, 5000000000 passes as 705032704 |
| `JsonPointer.PutPointer` | server/external/rapidjson/pointer.h:1057-1088 | the printer's loops give the string or fragment form, or fail where there is none |
| `JsonPointer.PutName` | server/external/rapidjson/pointer.h:1065-1085 | escapes of a name, and failure exactly at a byte that is not UTF-8 |
| `JsonPointer.ParseUndoesStringify` | server/external/rapidjson/pointer.h:1057-1088 | parsing what is printed gives the pointer back, in both forms |
| `JsonPointer.ReparseIsIdentity` | server/external/rapidjson/pointer.h:918-1088 | for every parsed pointer, printing and parsing again is the identity in the string form, and in the fragment form whenever that exists |
| `JsonPointer.StringFormExists` | server/external/rapidjson/pointer.h:1057-1088 | every pointer has a string form |
| `JsonPointer.FragmentFormExists` | server/external/rapidjson/pointer.h:1075-1082 | a name has a fragment form if and only if it is well-formed UTF-8 |
| `JsonPointer.ParsedIndicesMatch` | server/external/rapidjson/pointer.h:1011-1033 | the index of every parsed token is that of its name |
| `PointerGrammar.PointerIsRead` | server/external/rapidjson/pointer.h:918-1048 | a text of the grammar is read as the tokens of the names that it stands for: in the string form that of RFC 6901, in the fragment form names of unreserved bytes, escapes and percent-encoded scalar values |
| `PointerGrammar.ParsesExactlyTexts` | server/external/rapidjson/pointer.h:918-1048 | nothing else is read as a pointer, in either form |
| `PointerGrammar.PointerErrorsTell` | server/external/rapidjson/pointer.h:918-1048 | every error says what stands at its offset: no solidus, a tilde before it without 0 or 1, no percent-encoded scalar value, or a byte that must be percent-encoded |
| `PointerGrammar.PrintsShortest` | server/external/rapidjson/pointer.h:1057-1088 | no text is shorter than the one printed for the name that it stands for, in either form |
| `PointerGrammar.PercentExactly` | server/external/rapidjson/pointer.h:1145-1150 | a byte is percent-encoded with two capital digits |
| `PointerGrammar.PointerExamples` | server/external/rapidjson/pointer.h:918-1048 | the names a/b, m~n and c%d of the examples of RFC 6901 |
| `PointerFragment.ReadIsStandard` | server/external/rapidjson/pointer.h:937-1048 | a fragment that is read is a pointer by section 6 of RFC 6901 too |
| `PointerFragment.FragmentExactlyWhen` | server/external/rapidjson/pointer.h:955-1003 | where a fragment is a pointer by the standard, which decodes it as a whole, the same pointer is read if and only if only unreserved bytes and solidi stand there for themselves, no solidus is percent-encoded, and no 0 or 1 behind a tilde is |
| `PointerFragment.FragmentsDiffer` | server/external/rapidjson/pointer.h:955-1003 | #/a:b, #/%2F and #/~%30, on which they part |
| `PointerFragment.PrintedIsStandard` | server/external/rapidjson/pointer.h:1057-1088 | a fragment that is printed means the same pointer by the standard |
| `PointerAccess.ChildExactly` | server/external/rapidjson/pointer.h:595-623 | a name leads to the first member of that name and an index to the element of that number; nothing else leads anywhere |
| `PointerAccess.Resolve` | server/external/rapidjson/pointer.h:595-623 | the loop over the tokens finds the value the pointer leads to, or the first token that does not resolve |
| `PointerAccess.CreateThenGet` | server/external/rapidjson/pointer.h:452-499 | after creation the pointer leads to the created value if and only if no "-" token stood where an array was |
| `PointerAccess.ExistsExactly` | server/external/rapidjson/pointer.h:452-499 | the value is reported to exist if and only if the pointer resolved before, and then nothing has changed |
| `PointerAccess.OffPathUntouched` | server/external/rapidjson/pointer.h:452-499 | values off the path, under containers that keep their type, are untouched |
| `PointerAccess.CreateOne` | server/external/rapidjson/pointer.h:452-499 | creation at one token, in full: nulls up to the index in an array or where there was no container, one null member otherwise, an object in place of an array that cannot have the token, a null behind an array for "-" |
| `PointerAccess.CreateMore` | server/external/rapidjson/pointer.h:452-499 | creation along more tokens goes on in what the first one has made and changes nothing else there |
| `PointerInPlace.Node.MakeRoom` | server/external/rapidjson/pointer.h:456-493 | one token: the container becomes what creation at that token makes of it (`PointerAccess.CreateOne`) where it stands; the place of the child and whether it was there |
| `PointerInPlace.Node.Create` | server/external/rapidjson/pointer.h:452-499 | in a tree of objects: the tree becomes that of the specification, the object handed out holds the created value, and the pointer leads to that very object unless a "-" met an array |
| `Uri.RemoveDotSegments` | server/external/rapidjson/uri.h:411-458 | in the path's place in the buffer: the result is the normal form and still ends with a NUL; the write position never passes the read position, and nothing in front of the path or behind it changes |
| `Uri.PlaceSegment` | server/external/rapidjson/uri.h:425-453 | one segment is dropped, drops the one before it or is moved down, and what is not read yet stays |
| `Uri.MoveBytes` | server/external/rapidjson/uri.h:446 | an overlapping move down copies the bytes and touches no others |
| `Uri.NormalIsStandard` | server/external/rapidjson/uri.h:411-458 | on every path that begins with a slash the result is that of section 5.2.4 of RFC 3986 |
| `Uri.NormalExactlyWhen` | server/external/rapidjson/uri.h:411-458 | for every path, relative ones included: section 5.2.4 gives the same result if and only if the segments keep pace (what follows the last ".." that removes a first segment, if one does), and otherwise one slash more in front |
| `Uri.NormalIsStandardIfFirstStays` | server/external/rapidjson/uri.h:411-458 | the results are the same on every path of which no ".." removes a non-empty first segment |
| `Uri.RelativePathsDiffer` | server/external/rapidjson/uri.h:411-458 | a/../b, on which they are not |
| `Uri.NormalHasNoDots` | server/external/rapidjson/uri.h:411-458 | the result has no segment "." or ".." |
| `Uri.NormalIsIdempotent` | server/external/rapidjson/uri.h:411-458 | doing it again changes nothing |
| `Uri.NormalByStack` | server/external/rapidjson/uri.h:411-458 | on any list of segments, each behind a slash, "." drops out and ".." takes the last kept one away; at the end both leave a slash |
| `Uri.RemovesAsStack` | server/external/rapidjson/uri.h:411-458 | the steps of section 5.2.4 do the same |
| `Uri.RelativeExample` | server/external/rapidjson/uri.h:411-458 | a worked example of section 5.2.4, a/b/../c, for any bytes |
| `Uri.ResolveExactlyWhen` | server/external/rapidjson/uri.h:156-226 | for every reference and base, resolution is the transformation of section 5.2.2 of RFC 3986 if and only if the path from which dot segments are removed keeps pace |
| `Uri.ResolveIsStandard` | server/external/rapidjson/uri.h:156-226 | it is, for a base with an authority and an empty or absolute path, unless the reference has a scheme and a rootless path |
| `Uri.RelativeByStack` | server/external/rapidjson/uri.h:156-226 | a relative path takes the place of the last segment of the base and is reduced with it as a stack of segments; scheme and authority are those of the base |
| `Uri.OtherReferences` | server/external/rapidjson/uri.h:156-226 | every other kind of reference: which parts are its own and which are those of the base |
| `Uri.SchemeWithRelativePath` | server/external/rapidjson/uri.h:156-226 | urn:a/../b resolves to the path b, where the standard has /b |
| `Uri.GenericUri.Resolve` | server/external/rapidjson/uri.h:156-226 | the new URI holds the parts of the resolved reference, the URI without fragment and the whole, all in one buffer of three times the two lengths: no part is written over, though the path is cleaned where it lies |
| `Uri.GenericUri.CopyPart` | server/external/rapidjson/uri.h:398-406 | a part is copied behind those that are there, which stay |
| `Uri.GenericUri.SetBaseAndUri` | server/external/rapidjson/uri.h:374-396 | the URI without fragment and the whole are put together behind the parts |
| `Uri.GenericUri.Parse` | server/external/rapidjson/uri.h:277-371 | scheme, authority, path, query and fragment are divided at the delimiters, an absolute path being normalized, and all seven texts lie in one buffer of three times the length |
| `Uri.DividesOnce` | server/external/rapidjson/uri.h:277-371 | there is one way to divide a text |
| `Uri.PartsMakeUpText` | server/external/rapidjson/uri.h:374-406 | the parts with their delimiters make up the text again |
| `Uri.BaseAndWhole` | server/external/rapidjson/uri.h:374-396 | the whole is the five parts in order, and the base is the whole without the fragment |
| `Uri.DividedPathExactly` | server/external/rapidjson/uri.h:332-337 | an absolute path loses its dot segments when a URI is read, any other path stays |
| `Uri.ExpressionExactlyWhen` | server/external/rapidjson/uri.h:274-371 | the division is that of the documented regular expression, for all five parts, if and only if the text does not begin with a colon |
| `Uri.ColonInFront` | server/external/rapidjson/uri.h:274-371 | a text that begins with a colon: the division has a scheme, the expression has none |
| `Encodings.MaskTests` | server/external/rapidjson/encodings.h:204-220 | the class masks are the byte ranges of the UTF-8 grammar |
| `Encodings.MasksAreArithmetic` | server/external/rapidjson/encodings.h:102-121 | the masks and shifts with which the program encodes are the arithmetic by which encoding is defined here |
| `Encodings.DecodeAcceptsExactly` | server/external/rapidjson/encodings.h:146-177 | decoding succeeds exactly on the sequences of section 4 of RFC 3629, with a scalar value that encodes back to the bytes taken: no overlong form, surrogate or value above 0x10FFFF |
| `Encodings.DecodeInvertsEncode` | server/external/rapidjson/encodings.h:102-121 | decoding inverts encoding on every scalar value, whatever follows |
| `Encodings.EncodeIsInjective` | server/external/rapidjson/encodings.h:102-121 | no two scalar values are encoded alike |
| `Encodings.ValidateAgreesWithDecode` | server/external/rapidjson/encodings.h:179-202 | validation succeeds when decoding does and then copies exactly the bytes decoding takes |
| `Encodings.Utf16RoundTrips` | server/external/rapidjson/encodings.h:307-322 | exactly lone non-surrogates and high-low pairs decode, to a scalar value that encodes back to the units taken |
| `Encodings.DecodeUtf16InvertsEncode` | server/external/rapidjson/encodings.h:276-305 | decoding inverts encoding on every scalar value |
| `Encodings.PairsAreInOrder` | server/external/rapidjson/encodings.h:276-305 | values above 0xFFFF go through the surrogate pairs in order, from the first to the last |
| `Encodings.EncodedExamples` | server/external/rapidjson/encodings.h:102-121 | examples of RFC 3629 and RFC 2781, one for each length |
| `Encodings.TranscodingIsLossless` | server/external/rapidjson/encodings.h:658-667 | any run of scalar values goes from UTF-8 to UTF-16 and back unchanged |
| `Allocator.MemoryPoolAllocator.Malloc` | server/external/rapidjson/allocators.h:321-334 | the whole new state: none for no bytes; the next bytes of the head if it has room; otherwise a new head of the larger of the chunk capacity and the aligned size, if the underlying allocator answers; used bytes, blocks and chunks otherwise as they were |
| `Allocator.MemoryPoolAllocator.Realloc` | server/external/rapidjson/allocators.h:337-369 | a block keeps its place if it need not grow or ends the head and the rest fits; otherwise its bytes are copied to a new block and no other byte changes |
| `Allocator.MemoryPoolAllocator.OnlyLastBlockEndsHead` | server/external/rapidjson/allocators.h:352-359 | the test for growing in place succeeds only for the last block of the head |
| `Allocator.MemoryPoolAllocator.AddChunk` | server/external/rapidjson/allocators.h:390-402 | a new head in front of the list, or nothing changed |
| `Allocator.MemoryPoolAllocator.Clear` | server/external/rapidjson/allocators.h:277-288 | only the oldest chunk is left, unused, and no block is |
| `Allocator.MemoryPoolAllocator.Capacity` | server/external/rapidjson/allocators.h:293-299 | the sum of the capacities of all chunks |
| `Allocator.MemoryPoolAllocator.Size` | server/external/rapidjson/allocators.h:304-310 | the sum of the sizes of all blocks handed out |
| `Allocator.BlockAdded` | server/external/rapidjson/allocators.h:331-333 | taking the next bytes of a chunk keeps all blocks in used parts and apart, and the used bytes those of the blocks |
| `Allocator.BlockGrown` | server/external/rapidjson/allocators.h:352-359 | so does letting the last block of a chunk take the next bytes |
| `Timers.TimerFunc.Cancel` | server/library/TimerFunc.cpp:16-30 | the timer loses callback and place, nothing else leaves the set, and nothing of it is delivered from then on |
| `Timers.TimerFunc.Refresh` | server/library/TimerFunc.cpp:32-47 | out of the set, a new deadline one cycle from now, back into its place; false and unchanged without a callback |
| `Timers.TimerFunc.Reset` | server/library/TimerFunc.cpp:49-70 | a new cycle from now or from where the last began; false even when it was done, true only when there was nothing to do |
| `Timers.TimerManager.Find` | server/library/TimerFunc.cpp:72-84 | search by the order finds a timer exactly when it is in the set |
| `Timers.TimerManager.AddTimer` | server/library/TimerFunc.cpp:94-100 | a new timer in the set, its deadline one cycle from now |
| `Timers.TimerManager.Queue` | server/library/TimerFunc.cpp:136-142 | the timer is in the set, in order, and nothing else has changed there; it is reported if it stands first, there is a callback for that and the manager was not tickled |
| `Timers.TimerManager.SetOnTimerInsertedAtFront` | server/library/TimerFunc.cpp:131-134 | whether there is a callback for a timer that comes to stand first |
| `Timers.TimerManager.HasTimer` | server/library/TimerFunc.cpp:119-123 | whether there is a timer in the set |
| `Timers.TimerManager.GetNextTimer` | server/library/TimerFunc.cpp:107-117 | exactly the time until the earliest deadline of all, none if that has passed or there is no timer |
| `Timers.TimerManager.Fire` | server/library/TimerFunc.cpp:163-176 | one delivery is logged with its deadline; a one-shot loses its callback, another goes back with a deadline one cycle on; over all runs no firing is early, none of a one-shot repeated, none of a cancelled timer, and those of one timer a cycle apart |
| `Timers.TimerManager.ListExpiredCb` | server/library/TimerFunc.cpp:144-178 | all timers that are due, and no others, are delivered once, in the order of their deadlines; the set is in order again |
| `ByteArrays.ByteArray.AddCapacityIfNotEnough` | server/library/ByteArray.cpp:523-545 | capacity stays blocks times base size, the free space suffices, old blocks stay in place and the walk never leaves the chain |
| `ByteArrays.BlocksToAdd` | server/library/ByteArray.cpp:528-530 | the number of blocks added is the least that covers one and a half times what is missing |
| `ByteArrays.ByteArray.Write` | server/library/ByteArray.cpp:432-471 | stores exactly the bytes, across blocks, from the offset of the write position in the write block on, and changes no other byte |
| `ByteArrays.ByteArray.TargetIsWritePosExactlyWhen` | server/library/ByteArray.cpp:437-443 | that place is the write position if and only if the write block holds the write position; it is never behind it |
| `ByteArrays.ByteArray.HasWritten` | server/library/ByteArray.cpp:678-692 | after any move the write block holds the new write position if and only if it held the old one, the bytes do not fill whole blocks, and what is left of them ends in front of the end of a block |
| `ByteArrays.ByteArray.SetMsg` | server/library/network/socket/Buffer.cpp:8-13 | a message is stored whole and the position is behind it; refused when empty |
| `ByteArrays.ByteArray.SecondMessageReplacesFirst` | server/library/network/socket/Buffer.cpp:8-13 | two messages of one byte in a buffer with blocks of one byte: the second replaces the first |
| `ByteArrays.ByteArray.GetWriteBuffers` | server/library/ByteArray.cpp:620-660 | the pieces, each in one block, lie end to end from that same place on and make up the requested length |
| `ByteArrays.ByteArray.WriteVarint` | server/library/ByteArray.cpp:162-189 | the groups of a 32- or 64-bit number are stored there and nothing else is |
| `ByteArrays.VarintStandsForValue` | server/library/ByteArray.cpp:162-189 | the groups have the value of the number, and the last is the only byte below 0x80 |
| `ByteArrays.VarintLength` | server/library/ByteArray.cpp:164-181 | at most five bytes for 32 bits and ten for 64 |
| `ByteArrays.VarintIsPrefixFree` | server/library/ByteArray.cpp:162-189 | no encoding is the beginning of another |
| `ByteArrays.ZigzagRoundTrips` | server/library/ByteArray.cpp:57-83 | decoding inverts encoding on all 32- and 64-bit values |
| `ByteArrays.ZigzagIsOnto` | server/library/ByteArray.cpp:57-83 | every number of the width is the code of a value |
| `ByteArrays.ZigzagGoesByMagnitude` | server/library/ByteArray.cpp:57-83 | codes go by magnitude from zero on, a negative value right in front of the positive one |
| `ByteArrays.IntegersInBytes` | server/library/ByteArray.cpp:57-189 | 300 is AC 02; the codes of 1, -2 and the least value of 32 bits |
| `ByteArrays.XorIsComplement` | server/library/ByteArray.cpp:75-83 | the exclusive or of the decoder is the complement or nothing |

## Left out

Across the project:

- Doubles: their conversion from and to text, their bounds in schemas and their bytes in the hash are parameters; a
  double event carries the text it was read from. How doubles compare is a parameter too.
- Streams, allocators of the original, move semantics and templates: texts are sequences of bytes, the encodings of
  source and target are UTF-8, memory is unbounded except in the pool allocator.
- 32-bit counts and sizes are unbounded here, except the index of a pointer token and the integers of JSON texts.
- `internal/stack.h` and `internal/itoa.h` are not part of this model: a plain stack and canonical decimal text stand
  for them.
- Comments, NaN and infinity, numbers as strings, single-quote escapes, in-situ parsing, SIMD and encoding validation
  in the reader and writer.
- Sockets, threads, hooks, coroutines, logging, configuration and HTTP.

By member:

- Reader.GenericReader.ParseString: keeps the decoded bytes in a local instead of on the parser's stack.
- Reader.GenericReader.Send: the handler is a list of the events it received and a function that says which it refuses.
- JsonTexts.AcceptsExactlyTexts: which doubles overflow is a parameter.
- Document.GenericDocument.EndObject: stack values are immutable, so the raw copy of members into the object is not
  modelled.
- MemberIndex.ObjectData.DoFindMember: the ordered multimap is a sequence in the order of names, searched from its
  beginning; the balanced tree under it is not part of this model.
- Equality.SelfEqualExactlyWhen: for members whose own values have distinct names and no doubles; otherwise the values
  under a name need only compare equal to the first of them (`Equality.RepeatedFurtherIn`).
- Equality.SymmetricExactlyWhen: likewise.
- PointerInPlace.Node.Create: goes down by calling itself where the program moves a cursor in a loop; elsewhere in the
  project documents are values.
- Schema.Holds: covers type, integer bounds, lengths, items, properties, required, counts and the combining keywords;
  patterns, formats, enum, uniqueItems, multipleOf, patternProperties, dependencies and read or write flags are not there.
- SchemaValidators.SchemaValidator.Handle: an event that names or closes where nothing is open makes it invalid, where
  the program relies on well-nested events; the path kept for error messages and continuing after errors are left out.
- SchemaDocument.GenericSchemaDocument.CreateSchema: a schema is known by its place; references by id and to other
  documents are left out.
- SchemaDocument.GenericSchemaDocument.HandleRefSchema: how the text of a local reference becomes a pointer is a
  parameter.
- SchemaDocument.GenericSchemaDocument.NewSchema: builds the links of a schema; its other keywords are read in
  `SchemaKeywords`, from the document.
- KeywordMeaning.MeaningByKeywords: the keywords are those of `Schema.Holds`; for places that reach no cycle of combining keywords, where
  meaning is defined. Of doubles it says only when they are compared.
- DocumentValidation.ValidatesDocument: the keywords are those of `Schema.Holds`; documents with the others are read
  as if those were not there. Which numbers satisfy a bound that is a double is a parameter, for integers too. That no
  cycle of combining keywords is reached is enough for validation to end; it need not be so
  (`DocumentValidation.AdmittingNothingEnds`). Exact is `DocumentValidation.EventEndsExactlyWhen`, for one event.
- GraphValidation.StepAt: where a value is refused the validators of its context are given the event all the same, which
  the program does not do; this can only make a step end less often.
- Uri.GenericUri.Parse: takes texts without NUL; reads the text from a sequence.
- Uri.ResolveIsStandard: the exact condition is `Uri.ResolveExactlyWhen`.
- Encodings.DecodeUtf8: a function from the rest of the stream to the code point and the bytes taken, in place of a
  stream that is advanced.
- Allocator.MemoryPoolAllocator.Malloc: the answer of the underlying allocator is a parameter; the size does not wrap
  when it is rounded up; sharing and user buffers are left out.
- Timers.TimerManager.ListExpiredCb: every locked method is one step and time a parameter that does not decrease;
  milliseconds do not wrap; callbacks are numbers, and neither null nor with the manager gone; condition timers are
  left out.
- ByteArrays.ByteArray.Write: the write block is a node of the chain that does not begin behind the write position, as
  it is after every write and move. The read half is left out because with the program's offsets it does not act on
  the flat range; reset and clear are left out too.
- ByteArrays.BlocksToAdd: exact arithmetic, where the program rounds through a double.
- ByteArrays.EncodeZigzag: negates without overflow at the least value, where the program relies on wrap-around.
