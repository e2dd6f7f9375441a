# RapidJSON and the Livox point pipeline, modelled and proved

This project models the code of the Livox ROS driver that is hard to get right, and proves what it is for:

* **The regular expressions of RapidJSON** (`RegexLanguage`, `RegexPattern`, `RegexGraph`, `RegexFragments`,
  `RegexCompiler`, `RegexSimulation`, `RegexSearch`, `RegexSyntax`, `RegexMatch`, `RegexMeaning`, `RegexAccepted`): a
  shunting-yard reader, an NFA whose dangling exits are threaded through the `out` fields of its states, cloning for
  quantifiers, and the set simulation. From pattern text to answer, `Match` decides what the pattern means, and the texts
  that are accepted are the patterns.
* **Reading JSON** (`JsonEvents`, `JsonReader`, `JsonGrammar`, `JsonLexer`, `JsonNumber`, `JsonSyntax`, `JsonHandler`):
  recursive descent and the table-driven parser emit the same events, accept exactly the well-formed texts of RFC 8259,
  and stop exactly at the first event a handler refuses.
* **Writing and building JSON** (`JsonWriter`, `JsonLayout`, `IntegerText`, `JsonDocument`, `JsonRoundTrip`): both
  writers with the layout of their texts, the DOM builder, and the round trip through all of them.
* **Strings and encodings** (`Encodings`, `JsonStrings`, `JsonSpelling`): UTF-8 and UTF-16 as encoded, decoded and
  validated, and the string writer and reader with an ASCII target and with validation; what is written is the shortest
  spelling there is.
* **JSON Pointer** (`JsonPointer`, `PointerSyntax`, `PointerAccess`, `PointerRoundTrip`): the pointers of RFC 6901 are
  what is parsed, every other text fails with its fault, parsing and printing undo each other in both forms, and Create
  and Get belong together, also from text to text.
* **Exact numbers** (`Powers`, `RealPowers`, `Decimals`, `DiyFloat`, `PowerTable`, `CachedPower`, `DigitGeneration`,
  `Grisu`, `Limbs`, `BigInteger`, `Strtod`, `DoubleDigits`): the digits of a double, for every double, with the table of
  cached powers; digit generation that is shortest and nearest; multi-word arithmetic; the test within half a unit; and
  both as statements on bits and real numbers.
* **The pool allocator** (`PoolAllocator`): blocks over every run of Malloc and Realloc.
* **The driver** (`LidarDataQueue`, `PointCloudPipeline`, `PipelineHistory`, `PubHandler`, `CacheIndex`): the ring with wrapping
  indices, producer and consumer as interleaved atomic steps with their wake-up protocol and the fate of every packet, frame assembly, and slot allocation.

Code that updates state in place is modelled by classes and loops proved against functions of the state; the theorems
are about those functions. `dafny verify dfyconfig.toml` checks everything.

Where the code does less than its own description promises, the model follows the code, shows an input, and proves
exactly when the promise holds:

* `BigInteger::Difference` loses a borrow into an all-ones word, and rounding with it goes wrong
  (`Strtod.MisroundedExample`; `Strtod.TestIsRight`, `Strtod.RoundsToNearest`).
* The last digit of a double is the largest instead of the nearest one beyond eight digits behind the point
  (`DigitGeneration.NotNearestExample`, `DigitGeneration.GeneratedIsNearest`).
* `Double::IsNormal` holds of zero, and rounding next to zero goes wrong (`Strtod.TieAtZero`, `Strtod.ZeroIsMisread`).
* The unanchored search forgets empty matches (`RegexSearch.StarMissesEmptyMatch`, `RegexSearch.UnanchoredMisses`).
* The overflow tests for pointer indices and for the numbers of quantifiers let some overflows through
  (`JsonPointers.WrappedIndexExample` and `JsonPointers.IndexIsValue`; `RegexSyntax.WrappedNumeralExample`,
  `RegexSyntax.ReadUnsigned` and `RegexAccepted.NumeralIs`).
* A quantifier first in an alternative or a group applies to an operand before it (`RegexAccepted.MisplacedStarExample`,
  `RegexAccepted.AcceptedIsPattern`).
* A validating reader keeps a lone trail surrogate (`JsonStrings.LoneTrailExample`, `JsonStrings.ValidatedIsWellFormed`).
* The allocator's 64-bit sums may wrap (`PoolAllocators.WrappedMallocExample` and `PoolAllocators.MallocIsSound`;
  `PoolAllocators.WrappedReallocExample` and `PoolAllocators.ReallocIsSound`).
* Interleaved calls of `GetFreeIndex` leak a slot (`CacheIndexes.RaceLeaks`, `CacheIndexes.CallersLeak`).

The capacity of `BigInteger` is the 416 words that dividing its bit count by a byte count gives.

## Model

| member | source | states |
|---|---|---|
| RegexMatch.MatchPattern | ros_ws/src/livox_ros_driver2/3rdparty/rapidjson/internal/regex.h:643-697 | From the text of a pattern to the answer: Match says yes exactly for the words of the language the pattern denotes (no nullable operand under `*`, `+`, `{n,}`) |
| RegexMatch.SearchPattern | ros_ws/src/livox_ros_driver2/3rdparty/rapidjson/internal/regex.h:652-697 | The same for Search with the pattern's own `^` and `$` |
| RegexSyntax.ReadBack | ros_ws/src/livox_ros_driver2/3rdparty/rapidjson/internal/regex.h:196-316 | Every well-formed pattern text, with groups, classes, escapes and quantifiers, is read as the tree it was written from, with its anchors |
| RegexSyntax.ReadChoice | ros_ws/src/livox_ros_driver2/3rdparty/rapidjson/internal/regex.h:215-222 | Reading a pattern with several alternatives leaves one evaluated operand per finished alternative and the factors of the last one |
| RegexSyntax.ReadGroup | ros_ws/src/livox_ros_driver2/3rdparty/rapidjson/internal/regex.h:224-238 | A parenthesised pattern becomes one factor of what stands around it |
| RegexSyntax.ReadQuantifier | ros_ws/src/livox_ros_driver2/3rdparty/rapidjson/internal/regex.h:240-267 | A quantifier, `{n,m}` included, applies to the operand on top and to nothing else |
| RegexSyntax.ReadClass | ros_ws/src/livox_ros_driver2/3rdparty/rapidjson/internal/regex.h:486-552 | A bracket class is read as its negation flag and its ranges, with a trailing `-` as a character |
| RegexSyntax.ReadUnsigned | ros_ws/src/livox_ros_driver2/3rdparty/rapidjson/internal/regex.h:474-484 | A numeral is read as its value exactly when that value is below 2^32 |
| RegexSyntax.WrappedNumeralExample | ros_ws/src/livox_ros_driver2/3rdparty/rapidjson/internal/regex.h:479 | 42949672950 passes the overflow test and is read as 4294967286 |
| RegexCompiler.GenericRegex.constructor | ros_ws/src/livox_ros_driver2/3rdparty/rapidjson/internal/regex.h:196-316 | A pattern compiles exactly when the reader of trees accepts it, and then the state graph accepts the language of that tree and its splits end exactly when no nullable operand is looped |
| RegexCompiler.GenericRegex.Parse | ros_ws/src/livox_ros_driver2/3rdparty/rapidjson/internal/regex.h:196-316 | The loop over the three stacks computes the tree reader's outcome, failed assertions included, while the states stay a valid graph |
| RegexCompiler.GenericRegex.Append | ros_ws/src/livox_ros_driver2/3rdparty/rapidjson/internal/regex.h:339-344 | Exactly one `out` field changes: the last one of the list |
| RegexCompiler.GenericRegex.Patch | ros_ws/src/livox_ros_driver2/3rdparty/rapidjson/internal/regex.h:346-351 | Exactly the `out` fields on the list change, all to the given state |
| RegexCompiler.GenericRegex.Eval | ros_ws/src/livox_ros_driver2/3rdparty/rapidjson/internal/regex.h:353-411 | Each operator turns the top fragments into one for the combined tree; too few operands are refused where the source refuses them |
| RegexCompiler.GenericRegex.EvalQuantifier | ros_ws/src/livox_ros_driver2/3rdparty/rapidjson/internal/regex.h:413-451 | Cloning and concatenating gives a fragment for the quantified tree, for all n <= m, `{n,}` included; `{0}` is refused |
| RegexCompiler.ExpandedMeaning | ros_ws/src/livox_ros_driver2/3rdparty/rapidjson/internal/regex.h:413-451 | The expansion into copies, optional copies and a loop denotes the quantified language, and is productive exactly when the quantified operand is |
| RegexCompiler.GenericRegex.CloneTopOperand | ros_ws/src/livox_ros_driver2/3rdparty/rapidjson/internal/regex.h:455-471 | The stack gains a second fragment for the same tree, and the others are untouched |
| RegexCompiler.GenericRegex.ParseRange | ros_ws/src/livox_ros_driver2/3rdparty/rapidjson/internal/regex.h:486-552 | The linked cells of the range table hold exactly the ranges of the class |
| RegexCompiler.GenericRegex.Link | ros_ws/src/livox_ros_driver2/3rdparty/rapidjson/internal/regex.h:297-316 | One operand left is the pattern; linked to the match state it is a closed graph |
| RegexFragments.ChainNoRepeats | ros_ws/src/livox_ros_driver2/3rdparty/rapidjson/internal/regex.h:339-351 | A list through the `out` fields that ends meets no state twice |
| RegexFragments.ThenOk | ros_ws/src/livox_ros_driver2/3rdparty/rapidjson/internal/regex.h:355-364 | Patching the exits of the first fragment to the start of the second reads the concatenation |
| RegexFragments.OrOk | ros_ws/src/livox_ros_driver2/3rdparty/rapidjson/internal/regex.h:366-375 | A split in front of two fragments whose exit lists were appended reads the union |
| RegexFragments.OptOk | ros_ws/src/livox_ros_driver2/3rdparty/rapidjson/internal/regex.h:377-385 | The split joins the dangling exits, and the fragment reads the operand or nothing |
| RegexFragments.LoopOk | ros_ws/src/livox_ros_driver2/3rdparty/rapidjson/internal/regex.h:387-405 | Exits patched to a split that re-enters the operand read any number, or any positive number, of words |
| RegexFragments.CloneOk | ros_ws/src/livox_ros_driver2/3rdparty/rapidjson/internal/regex.h:455-471 | Copied states with shifted links are a fragment for the same tree in their own index range |
| RegexFragments.FinishOk | ros_ws/src/livox_ros_driver2/3rdparty/rapidjson/internal/regex.h:300-304 | Linked to the match state the graph reads exactly the tree's language, and AddState's recursion ends everywhere exactly when no loop body is nullable |
| RegexGraph.PatchedLanguage | ros_ws/src/livox_ros_driver2/3rdparty/rapidjson/internal/regex.h:346-351 | Words read from inside a patched region are words of the region followed by words read at the target |
| RegexGraph.LoopLanguage | ros_ws/src/livox_ros_driver2/3rdparty/rapidjson/internal/regex.h:387-405 | The language of a loop is the star of its body, that of its entry the plus |
| RegexGraph.LoopHalting | ros_ws/src/livox_ros_driver2/3rdparty/rapidjson/internal/regex.h:702-716 | A loop makes the split edges cyclic exactly when its body accepts the empty word |
| RegexSimulation.ActiveMeaning | ros_ws/src/livox_ros_driver2/3rdparty/rapidjson/internal/regex.h:675-694 | After any prefix the active states accept exactly the continuations of matches begun earlier |
| RegexSimulation.ClosureIs | ros_ws/src/livox_ros_driver2/3rdparty/rapidjson/internal/regex.h:702-716 | The recursion over splits reaches exactly the epsilon closure, whatever depth it is given |
| RegexSearch.MaskBits | ros_ws/src/livox_ros_driver2/3rdparty/rapidjson/internal/regex.h:709-710 | The word and bit of an index tell it apart from all others |
| RegexSearch.GenericRegexSearch.Insert | ros_ws/src/livox_ros_driver2/3rdparty/rapidjson/internal/regex.h:709-712 | A state is listed once; the list never outgrows the reserved number of states |
| RegexSearch.GenericRegexSearch.AddState | ros_ws/src/livox_ros_driver2/3rdparty/rapidjson/internal/regex.h:702-716 | The list gains exactly the closure of the state, without duplicates, and the answer is whether the match state is in it |
| RegexSearch.GenericRegexSearch.MatchRange | ros_ws/src/livox_ros_driver2/3rdparty/rapidjson/internal/regex.h:718-729 | Walking the cells of a class decides membership, negated or not |
| RegexSearch.GenericRegexSearch.Advance | ros_ws/src/livox_ros_driver2/3rdparty/rapidjson/internal/regex.h:677-694 | One character takes the list to exactly the closed set of successors, and reports whether the match state was reached |
| RegexSearch.GenericRegexSearch.SearchWithAnchoring | ros_ws/src/livox_ros_driver2/3rdparty/rapidjson/internal/regex.h:667-697 | For every combination of anchors the answer is whether a reported factor of the text is in the language |
| RegexSearch.GenericRegexSearch.Match | ros_ws/src/livox_ros_driver2/3rdparty/rapidjson/internal/regex.h:643-645 | Fully anchored: exactly membership of the whole text |
| RegexSearch.UnanchoredMisses | ros_ws/src/livox_ros_driver2/3rdparty/rapidjson/internal/regex.h:667-697 | A search without both anchors differs from "occurs in the text" exactly by the empty matches in a non-empty text: the loop overwrites the answer of adding the root first, and drops the answers of adding it again |
| RegexSearch.StarMissesEmptyMatch | ros_ws/src/livox_ros_driver2/3rdparty/rapidjson/internal/regex.h:691 | `a*` occurs in "b", and the search of "b" does not report it |
| RegexSearch.AnchoredReports | ros_ws/src/livox_ros_driver2/3rdparty/rapidjson/internal/regex.h:643-645 | With both anchors nothing is missed |
| RegexMeanings.MatchMeans | ros_ws/src/livox_ros_driver2/3rdparty/rapidjson/internal/regex.h:643-697 | Match answers whether the text is one the pattern means, said on the pattern as written: a character, an escape, any of a class, one after the other, one or the other, as often as a quantifier lets it |
| RegexMeanings.SearchMeans | ros_ws/src/livox_ros_driver2/3rdparty/rapidjson/internal/regex.h:652-697 | Search answers whether a piece of the text is such a text, at its ends where the pattern has anchors, and not empty unless the text is |
| RegexMeanings.LanguageIsMeaning | ros_ws/src/livox_ros_driver2/3rdparty/rapidjson/internal/regex.h:196-316 | The language of the tree that is read holds exactly the words the written pattern means |
| RegexMeanings.WrittenIsWellFormed | ros_ws/src/livox_ros_driver2/3rdparty/rapidjson/internal/regex.h:196-316 | The patterns of RegexSyntax are those with the escapes, special characters, class rules and precedences listed there one by one |
| RegexAccepted.AcceptedIsPattern | ros_ws/src/livox_ros_driver2/3rdparty/rapidjson/internal/regex.h:196-316 | A row of well-written signs is accepted as the pattern it spells, anchors anywhere, and where every quantifier is in place nothing else is: empty alternatives and groups, unmatched parentheses and `{0}` are refused; a quantifier first in its alternative or group, where it is accepted, spells no pattern |
| RegexAccepted.AcceptedIsLexed | ros_ws/src/livox_ros_driver2/3rdparty/rapidjson/internal/regex.h:196-316 | Whatever is accepted is a row of well-written signs: escapes, classes and quantifiers with the syntax listed there |
| RegexAccepted.MisplacedStarExample | ros_ws/src/livox_ros_driver2/3rdparty/rapidjson/internal/regex.h:244-246 | `a\|*b` is accepted, as `a*\|b` |
| RegexAccepted.NumeralIs | ros_ws/src/livox_ros_driver2/3rdparty/rapidjson/internal/regex.h:474-484 | Every numeral is refused exactly at a digit above 5 that would overflow 32 bits, and otherwise read as its value modulo 2^32 |
| JsonReaders.ParseBothWays | ros_ws/src/livox_ros_driver2/3rdparty/rapidjson/reader.h:615-646 | On every text, with every handler and all flags, recursive descent and the table-driven parser accept alike, emit the same events and stop at the same place |
| JsonReaders.GenericReader.Parse | ros_ws/src/livox_ros_driver2/3rdparty/rapidjson/reader.h:615-646 | Recursive descent computes the document function |
| JsonReaders.GenericReader.ParseObject | ros_ws/src/livox_ros_driver2/3rdparty/rapidjson/reader.h:798-865 | Members, colons, commas, trailing commas and the member count, as the document function has them |
| JsonReaders.GenericReader.ParseArray | ros_ws/src/livox_ros_driver2/3rdparty/rapidjson/reader.h:869-913 | Elements, commas, trailing commas and the element count |
| JsonReaders.GenericReader.IterativeParse | ros_ws/src/livox_ros_driver2/3rdparty/rapidjson/reader.h:2401-2433 | The loop over Predict and Transit with an explicit stack computes the same document function |
| JsonReaders.GenericReader.Transit | ros_ws/src/livox_ros_driver2/3rdparty/rapidjson/reader.h:2192-2350 | A transition leaves exactly what recursive descent would still do, with the new state and stack |
| JsonReaders.Opens | ros_ws/src/livox_ros_driver2/3rdparty/rapidjson/reader.h:2203-2230 | Opening a container pushes the state to return to, and what remains is that container and then the old rest |
| JsonReaders.CloseEntry | ros_ws/src/livox_ros_driver2/3rdparty/rapidjson/reader.h:2269-2325 | The end event carries the number of direct children, and the popped frame says where to go on |
| JsonReaders.ErrorEntry | ros_ws/src/livox_ros_driver2/3rdparty/rapidjson/reader.h:2013-2189 | Where the table has an error, recursive descent fails without another event |
| JsonReaders.AtEnd | ros_ws/src/livox_ros_driver2/3rdparty/rapidjson/reader.h:2401-2433 | At the end of the text only a finished document is accepted |
| JsonSyntaxes.AcceptedIsSyntax | ros_ws/src/livox_ros_driver2/3rdparty/rapidjson/reader.h:615-646 | A text is accepted exactly when it is well formed up to where it ends, token by token as sections 2 to 7 of RFC 8259 and the flags for comments and trailing commas have it, and then it is reported as the events of what it means; numbers beyond 64-bit integers refused |
| JsonSyntaxes.SyntaxAccepted | ros_ws/src/livox_ros_driver2/3rdparty/rapidjson/reader.h:615-646 | Whatever white space, comments, escapes of either case and trailing commas it is written with, a value without doubles is accepted with its events, for every scanner of doubles |
| JsonHandlers.RefusalStops | ros_ws/src/livox_ros_driver2/3rdparty/rapidjson/reader.h:1872-1896 | With any handler the parse reports what it would report to one that takes everything, up to and with the first event the handler refuses; it fails there, and nothing else is changed |
| JsonSyntaxes.GapFound | ros_ws/src/livox_ros_driver2/3rdparty/rapidjson/reader.h:764-797 | What is skipped is a run of blanks, tabs, line feeds and carriage returns, and comments where they are on, up to the first byte that is neither |
| JsonGrammar.AcceptedIsSpelled | ros_ws/src/livox_ros_driver2/3rdparty/rapidjson/reader.h:615-646 | For any sound scanners of tokens and white space: a text is accepted exactly when it spells a JSON value up to there, and the events are those of that value, each end event with its number of children |
| JsonGrammar.SpelledIsParsed | ros_ws/src/livox_ros_driver2/3rdparty/rapidjson/reader.h:1872-1896 | A spelling of a value is parsed to its end and reported as the value's events |
| JsonGrammar.ParsedIsSpelled | ros_ws/src/livox_ros_driver2/3rdparty/rapidjson/reader.h:1872-1896 | Whatever is parsed is the spelling of some value whose events were reported |
| JsonLexer.LexerIsSound | ros_ws/src/livox_ros_driver2/3rdparty/rapidjson/reader.h:770-795 | The byte scanners meet what the theorems for any scanners ask; JsonSyntaxes.AcceptedIsSyntax says what they accept |
| JsonNumbers.ParseInteger | ros_ws/src/livox_ros_driver2/3rdparty/rapidjson/reader.h:1598-1701 | Integers of any length: the event type and exact value from the 32-bit and 64-bit accumulators, and none exactly outside [-2^63, 2^64) |
| JsonNumbers.Accumulate | ros_ws/src/livox_ros_driver2/3rdparty/rapidjson/reader.h:1606-1701 | The overflow guards stop exactly before the first digit that would exceed the limit, and nothing wraps |
| JsonNumbers.SmallestFits | ros_ws/src/livox_ros_driver2/3rdparty/rapidjson/reader.h:1853-1862 | Int, Uint, Int64 and Uint64 each get exactly the values of their range |
| Encodings.GrammarIsEncoding | ros_ws/src/livox_ros_driver2/3rdparty/rapidjson/encodings.h:108-125 | The byte grammar of section 4 of RFC 3629 describes exactly the encoded scalar values, and the bits it carries are the value |
| Encodings.Decode | ros_ws/src/livox_ros_driver2/3rdparty/rapidjson/encodings.h:148-207 | UTF8::Decode accepts exactly the encodings of scalar values and returns the value and its end; the masks of its macros are the grammar |
| Encodings.Validate | ros_ws/src/livox_ros_driver2/3rdparty/rapidjson/encodings.h:214-267 | UTF8::Validate decides the same and copies what it takes |
| Encodings.Masks | ros_ws/src/livox_ros_driver2/3rdparty/rapidjson/encodings.h:269-298 | The three tail bits of the type table and the five masks are the ranges of second bytes |
| Encodings.DecodeIsEncode | ros_ws/src/livox_ros_driver2/3rdparty/rapidjson/encodings.h:148-207 | Decoding a whole text gives exactly the scalar values it encodes, and nothing else decodes |
| Encodings.WellFormedConcat | ros_ws/src/livox_ros_driver2/3rdparty/rapidjson/encodings.h:148-207 | Behind well-formed text, text is well-formed exactly when it is on its own |
| Encodings.Decode16 | ros_ws/src/livox_ros_driver2/3rdparty/rapidjson/encodings.h:388-402 | UTF16::Decode accepts exactly the encodings of scalar values, surrogate pairs included |
| JsonStrings.ParseStringToStream | ros_ws/src/livox_ros_driver2/3rdparty/rapidjson/reader.h:1058-1129 | The loop computes the string function, with and without kParseValidateEncodingFlag; without it, that is the scanner the parsers take |
| JsonStrings.ReadHex4 | ros_ws/src/livox_ros_driver2/3rdparty/rapidjson/reader.h:967-987 | Four hexadecimal digits in either case, and nothing else |
| JsonStrings.ReadUnicode | ros_ws/src/livox_ros_driver2/3rdparty/rapidjson/reader.h:1089-1106 | One unit, or a lead surrogate with the trail surrogate that must follow it |
| JsonStrings.ReadEscape | ros_ws/src/livox_ros_driver2/3rdparty/rapidjson/reader.h:1082-1111 | A whole escape: the bytes it stands for and where it ends, as the scanner of strings has them |
| JsonStrings.StringWriter.WriteString | ros_ws/src/livox_ros_driver2/3rdparty/rapidjson/writer.h:437-520 | The loop writes the quoted text for an ASCII or a UTF-8 target, and fails exactly where the text function does |
| JsonStrings.WritesWellFormed | ros_ws/src/livox_ros_driver2/3rdparty/rapidjson/writer.h:465-517 | Nothing but a string that is not UTF-8 stops the writer, and that only where it decodes or validates |
| JsonStrings.StringTextBack | ros_ws/src/livox_ros_driver2/3rdparty/rapidjson/writer.h:437-520 | ParseStringToStream undoes WriteString for every target; with the ASCII target the text is ASCII and every UTF-8 string survives the \uXXXX and surrogate-pair form |
| JsonSpellings.ShortestSpelling | ros_ws/src/livox_ros_driver2/3rdparty/rapidjson/writer.h:437-520 | Of all the ways to spell the string that JSON has (in ASCII, where that is the target), the writer takes the shortest, and the only one that short with upper-case hexadecimal digits |
| JsonSpellings.WrittenIsSpelled | ros_ws/src/livox_ros_driver2/3rdparty/rapidjson/writer.h:437-520 | What it writes is such a spelling of the string |
| JsonStrings.AsciiCharBack | ros_ws/src/livox_ros_driver2/3rdparty/rapidjson/writer.h:467-496 | Every scalar value comes back from its escape |
| JsonStrings.ValidatingRead | ros_ws/src/livox_ros_driver2/3rdparty/rapidjson/reader.h:1120-1127 | A validating reader takes back what was written exactly when the string is UTF-8 |
| JsonStrings.ValidatedIsWellFormed | ros_ws/src/livox_ros_driver2/3rdparty/rapidjson/reader.h:1089-1127 | The string a validating reader reports is UTF-8 exactly when no escape names a trail surrogate on its own |
| JsonStrings.LoneTrailExample | ros_ws/src/livox_ros_driver2/3rdparty/rapidjson/reader.h:1093-1106 | "\uDC00" passes a validating reader and gives bytes that are not UTF-8 |
| JsonWriters.StringBack | ros_ws/src/livox_ros_driver2/3rdparty/rapidjson/writer.h:437-520 | With the UTF-8 target every byte string comes back, UTF-8 or not |
| JsonWriters.IntegerBack | ros_ws/src/livox_ros_driver2/3rdparty/rapidjson/writer.h:367-401 | A printed 64-bit integer is read back as the same value |
| JsonWriters.EventsPrint | ros_ws/src/livox_ros_driver2/3rdparty/rapidjson/writer.h:255-296 | Writing the events of a value appends its text, white space of the pretty format included, and counts one value in the container around it |
| JsonWriters.PrintIsSpelled | ros_ws/src/livox_ros_driver2/3rdparty/rapidjson/prettywriter.h:163-311 | What either writer prints is a spelling of the value |
| JsonWriters.WriteThenRead | ros_ws/src/livox_ros_driver2/3rdparty/rapidjson/writer.h:255-296 | Write then read is the identity, for Writer and PrettyWriter, every indentation and every flag of the reader |
| JsonWriters.GapsAreSpaces | ros_ws/src/livox_ros_driver2/3rdparty/rapidjson/prettywriter.h:263-311 | What the pretty format adds between values is white space only |
| JsonLayouts.WrittenText | ros_ws/src/livox_ros_driver2/3rdparty/rapidjson/prettywriter.h:163-311 | The text of the compact writer has no white space; that of the pretty writer is a list of lines built from the tree: a name, an element or a closing bracket begins a line behind exactly its open containers times the indentation, a colon and a blank stand behind a name, and with kFormatSingleLineArray a comma and a blank between elements |
| JsonLayouts.PrettyText | ros_ws/src/livox_ros_driver2/3rdparty/rapidjson/prettywriter.h:163-311 | The same for a value inside any number of containers |
| JsonWriters.Writer.PutPrefix | ros_ws/src/livox_ros_driver2/3rdparty/rapidjson/writer.h:560-579 | Comma, colon and the white space of PrettyPrefix, and the count of the innermost level |
| JsonWriters.Writer.PutGap | ros_ws/src/livox_ros_driver2/3rdparty/rapidjson/prettywriter.h:263-303 | The four cases of white space |
| JsonWriters.Writer.WriteIndent | ros_ws/src/livox_ros_driver2/3rdparty/rapidjson/prettywriter.h:305-311 | As many indentation characters as levels times the count |
| JsonWriters.Writer.WriteString | ros_ws/src/livox_ros_driver2/3rdparty/rapidjson/writer.h:437-520 | The escape table, for the default flags and the UTF-8 target |
| JsonWriters.Writer.Start | ros_ws/src/livox_ros_driver2/3rdparty/rapidjson/writer.h:255-289 | A new level with no values |
| JsonWriters.Writer.Finish | ros_ws/src/livox_ros_driver2/3rdparty/rapidjson/writer.h:271-296 | The level goes, and an empty container or a one-line array gets no line break |
| JsonWriters.Writer.Integer | ros_ws/src/livox_ros_driver2/3rdparty/rapidjson/writer.h:208-223 | The digits of i64toa and u64toa behind the prefix |
| JsonWriters.Writer.Accept | ros_ws/src/livox_ros_driver2/3rdparty/rapidjson/document.h:2286-2331 | Accept drives the writer to append exactly the text of the value |
| JsonRoundTrip.WriteReadBuild | ros_ws/src/livox_ros_driver2/3rdparty/rapidjson/document.h:2286-2331 | Writing a value, reading the text with either parser and building the document gives the same value |
| JsonDocuments.ReplayBuilds | ros_ws/src/livox_ros_driver2/3rdparty/rapidjson/document.h:2926-3000 | Replaying the events of any value leaves exactly that value on top of the stack |
| JsonDocuments.StackInTheMiddle | ros_ws/src/livox_ros_driver2/3rdparty/rapidjson/document.h:2926-3000 | After any event prefix the stack holds each open container followed by exactly its finished children, keys and values in pairs |
| JsonDocuments.GenericDocument.Handle | ros_ws/src/livox_ros_driver2/3rdparty/rapidjson/document.h:2926-3000 | The handler methods on the stack |
| JsonDocuments.GenericDocument.Populate | ros_ws/src/livox_ros_driver2/3rdparty/rapidjson/document.h:2716-2724 | The events of a value leave that value as the document and an empty stack |
| IntegerText.DecimalTextIsUnique | ros_ws/src/livox_ros_driver2/3rdparty/rapidjson/internal/itoa.h:46-111 | The decimal text of a number is the only text of digits, without a leading zero but one digit for zero, whose value is the number |
| IntegerText.DecimalTextLength | ros_ws/src/livox_ros_driver2/3rdparty/rapidjson/internal/itoa.h:46-111 | It has as many digits as the magnitude of the number asks for |
| IntegerText.U32toa | ros_ws/src/livox_ros_driver2/3rdparty/rapidjson/internal/itoa.h:46-111 | All branches write exactly that decimal |
| IntegerText.I32toa | ros_ws/src/livox_ros_driver2/3rdparty/rapidjson/internal/itoa.h:113-122 | The sign and the decimal of the magnitude, also for -2^31 |
| IntegerText.U64toa | ros_ws/src/livox_ros_driver2/3rdparty/rapidjson/internal/itoa.h:124-272 | All branches, up to twenty digits |
| IntegerText.I64toa | ros_ws/src/livox_ros_driver2/3rdparty/rapidjson/internal/itoa.h:274-283 | The sign and the decimal of the magnitude, also for -2^63 |
| JsonPointers.PrintThenParse | ros_ws/src/livox_ros_driver2/3rdparty/rapidjson/pointer.h:1013-1179 | Parse(Stringify(names)) gives the same names, each with the index of its name, as a string and as a URI fragment (sections 3 and 6 of RFC 6901) |
| JsonPointers.PointerPrints | ros_ws/src/livox_ros_driver2/3rdparty/rapidjson/pointer.h:1151-1179 | Stringify succeeds always as a string, and as a URI fragment exactly for UTF-8 names |
| JsonPointers.ParseThenPrint | ros_ws/src/livox_ros_driver2/3rdparty/rapidjson/pointer.h:1013-1179 | What was parsed can be printed, and parsing that gives the same tokens |
| PointerSyntaxes.AcceptedIsPointer | ros_ws/src/livox_ros_driver2/3rdparty/rapidjson/pointer.h:1013-1141 | A text is parsed exactly when it is a pointer as sections 3 and 6 of RFC 6901 write it: names behind solidi, `~0` and `~1`, and in a fragment the unreserved characters and the UTF-8 bytes of one character at a time in triplets of either case; the names are those it spells |
| PointerSyntaxes.RefusedIsFault | ros_ws/src/livox_ros_driver2/3rdparty/rapidjson/pointer.h:1013-1141 | It fails with an error code at an offset exactly where well-formed names lead to that fault |
| PointerSyntaxes.ShortestPointer | ros_ws/src/livox_ros_driver2/3rdparty/rapidjson/pointer.h:1151-1179 | Of all spellings of the names in the form asked for, Stringify gives the shortest, and the only one that short with upper-case digits |
| PointerSyntaxes.PrintedIsSpelled | ros_ws/src/livox_ros_driver2/3rdparty/rapidjson/pointer.h:1151-1179 | What Stringify gives is such a spelling of the names |
| PointerSyntaxes.IndexOfName | ros_ws/src/livox_ros_driver2/3rdparty/rapidjson/pointer.h:1105-1126 | A name has an index only if it is a plain decimal numeral, and below 2^32 that is its value |
| JsonPointers.ParsedFits | ros_ws/src/livox_ros_driver2/3rdparty/rapidjson/pointer.h:1021-1028 | On success there is one token per `/`, and the names with their terminators fit into `length` units |
| JsonPointers.IndexIsValue | ros_ws/src/livox_ros_driver2/3rdparty/rapidjson/pointer.h:1113-1126 | A numeral's index is its value exactly when the value has 32 bits |
| JsonPointers.WrappedIndexExample | ros_ws/src/livox_ros_driver2/3rdparty/rapidjson/pointer.h:1117-1122 | 10^10 passes the overflow test as index 1410065408 |
| JsonPointers.GenericPointer.Parse | ros_ws/src/livox_ros_driver2/3rdparty/rapidjson/pointer.h:1013-1141 | The nested loops over the two buffers compute the parse, error code and offset included, and stay inside buffers of exactly that size |
| JsonPointers.GenericPointer.Stringify | ros_ws/src/livox_ros_driver2/3rdparty/rapidjson/pointer.h:1151-1179 | The loops print the stored tokens |
| JsonPointers.ParseName | ros_ws/src/livox_ros_driver2/3rdparty/rapidjson/pointer.h:1047-1104 | One name, decoded in place; isNumber says whether all its characters are digits |
| JsonPointers.DecodePercent | ros_ws/src/livox_ros_driver2/3rdparty/rapidjson/pointer.h:1054-1072 | Triplets are taken exactly when they are one UTF-8 sequence; the writes stay inside the buffer on malformed input too |
| JsonPointers.PercentDecodeStream.Take | ros_ws/src/livox_ros_driver2/3rdparty/rapidjson/pointer.h:1199-1222 | One unit per well-formed triplet; anything else spoils the stream for good |
| JsonPointers.ToIndex | ros_ws/src/livox_ros_driver2/3rdparty/rapidjson/pointer.h:1105-1126 | The two checks for a number and the 32-bit conversion |
| JsonPointers.PrintName | ros_ws/src/livox_ros_driver2/3rdparty/rapidjson/pointer.h:1158-1176 | Tilde and slash escapes and percent-encoded UTF-8 sequences |
| PointerAccess.CreateThenGet | ros_ws/src/livox_ros_driver2/3rdparty/rapidjson/pointer.h:539-649 | After Create, Get resolves to that node and a second Create changes nothing and reports it exists: exactly when no `-` met an array |
| PointerRoundTrip.CreateThenGetByText | ros_ws/src/livox_ros_driver2/3rdparty/rapidjson/pointer.h:539-649 | From text to text: what Create makes through a parsed pointer, Get finds through the printed one, in either form, exactly when no dash met an array; and the flag of Create is what Get says before |
| PointerAccess.CreateReports | ros_ws/src/livox_ros_driver2/3rdparty/rapidjson/pointer.h:539-585 | Create reports existence exactly when Get finds the value; then nothing changes, otherwise the new value is null |
| PointerAccess.CreateMakes | ros_ws/src/livox_ros_driver2/3rdparty/rapidjson/pointer.h:539-649 | The container in which a token is looked up is an array exactly if there was one and the token is a dash or has an index, or there was a scalar and the token has an index, and else an object; an array is as long as before or long enough for the token with null in between, and an object gains at most the member of that name |
| PointerAccess.CreateLeaves | ros_ws/src/livox_ros_driver2/3rdparty/rapidjson/pointer.h:539-649 | The node found is the one that was there, or null |
| PointerAccess.OffPathKept | ros_ws/src/livox_ros_driver2/3rdparty/rapidjson/pointer.h:539-585 | Every place that resolved before still resolves with the same value, or with what Create made further along the path; pointers below an array that became an object no longer resolve |
| PointerAccess.PointerDocument.Create | ros_ws/src/livox_ros_driver2/3rdparty/rapidjson/pointer.h:539-585 | The walk that rebuilds the nodes on its way computes the value, the place and the flag |
| PointerAccess.PointerDocument.Step | ros_ws/src/livox_ros_driver2/3rdparty/rapidjson/pointer.h:545-581 | One token: `-`, change of kind, missing elements or member |
| PointerAccess.PointerDocument.Get | ros_ws/src/livox_ros_driver2/3rdparty/rapidjson/pointer.h:622-649 | The walk resolves, or gives the number of the first token it cannot follow |
| PointerAccess.FindMember | ros_ws/src/livox_ros_driver2/3rdparty/rapidjson/document.h:1519-1527 | The first member of that name, or the end |
| PoolAllocators.RunKeeps | ros_ws/src/livox_ros_driver2/3rdparty/rapidjson/allocators.h:208-281 | Over every run of Malloc and Realloc all blocks lie inside their chunks and apart from each other, sizes stay below capacities, and the used bytes are exactly those of the blocks |
| PoolAllocators.MallocIsSound | ros_ws/src/livox_ros_driver2/3rdparty/rapidjson/allocators.h:208-220 | Malloc gives a block of the size asked for inside its chunk exactly when none of its 64-bit sums overflows |
| PoolAllocators.WrappedMallocExample | ros_ws/src/livox_ros_driver2/3rdparty/rapidjson/allocators.h:208-220 | A request for 2^64 - 1 bytes is answered with an address in a chunk of 64 KiB |
| PoolAllocators.MallocAnswers | ros_ws/src/livox_ros_driver2/3rdparty/rapidjson/allocators.h:208-220 | Malloc fails exactly when the newest chunk is too small and the base allocator gives nothing; else the block is the next one of that chunk or the first of a new chunk of the right size |
| PoolAllocators.MallocKeeps | ros_ws/src/livox_ros_driver2/3rdparty/rapidjson/allocators.h:208-220 | The new block joins the others, which are where they were; without one nothing changes |
| PoolAllocators.ReallocIsSound | ros_ws/src/livox_ros_driver2/3rdparty/rapidjson/allocators.h:223-253 | Realloc gives at least the size asked for inside a chunk exactly when none of its sums overflows |
| PoolAllocators.WrappedReallocExample | ros_ws/src/livox_ros_driver2/3rdparty/rapidjson/allocators.h:223-253 | A block of 16 bytes reallocated to 2^64 - 1 bytes is returned as large enough |
| PoolAllocators.ReallocAnswers | ros_ws/src/livox_ros_driver2/3rdparty/rapidjson/allocators.h:223-253 | A block that need not grow, or that is the newest and fits, keeps its address; else the answer is that of Malloc |
| PoolAllocators.ReallocKeeps | ros_ws/src/livox_ros_driver2/3rdparty/rapidjson/allocators.h:223-253 | Shrunk, grown in place or moved, blocks stay apart; the old block is not reused |
| PoolAllocators.LastIsWhole | ros_ws/src/livox_ros_driver2/3rdparty/rapidjson/allocators.h:236-245 | The test for the last allocation holds only for the newest block with its true size |
| PoolAllocators.BlocksAligned | ros_ws/src/livox_ros_driver2/3rdparty/rapidjson/allocators.h:208-220 | Blocks are 8-aligned where the chunks are |
| PoolAllocators.ClearedIsGood | ros_ws/src/livox_ros_driver2/3rdparty/rapidjson/allocators.h:178-186 | After Clear only the user's buffer is left, unused, and blocks can be handed out again |
| PoolAllocators.MemoryPoolAllocator.WithBuffer | ros_ws/src/livox_ros_driver2/3rdparty/rapidjson/allocators.h:153-167 | The user's buffer as first chunk |
| PoolAllocators.MemoryPoolAllocator.Malloc | ros_ws/src/livox_ros_driver2/3rdparty/rapidjson/allocators.h:208-220 | The code with its wrapping sums |
| PoolAllocators.MemoryPoolAllocator.Realloc | ros_ws/src/livox_ros_driver2/3rdparty/rapidjson/allocators.h:223-253 | The code with its copy; the old contents survive, and so does every other block; without a block it is Malloc, and to no bytes it answers nothing |
| PoolAllocators.MemoryPoolAllocator.Size | ros_ws/src/livox_ros_driver2/3rdparty/rapidjson/allocators.h:201-205 | The sum over the chunk list |
| PoolAllocators.MemoryPoolAllocator.Capacity | ros_ws/src/livox_ros_driver2/3rdparty/rapidjson/allocators.h:191-196 | The sum over the chunk list |
| PoolAllocators.MemoryPoolAllocator.Clear | ros_ws/src/livox_ros_driver2/3rdparty/rapidjson/allocators.h:178-186 | Chunks go until the user's buffer, which is emptied |
| DiyFloat.ProductsAgree | ros_ws/src/livox_ros_driver2/3rdparty/rapidjson/internal/diyfp.h:73-103 | The portable product, the 128-bit one and the exact product rounded to nearest are the same, and no partial sum wraps |
| DiyFloat.RoundingError | ros_ws/src/livox_ros_driver2/3rdparty/rapidjson/internal/diyfp.h:90-102 | Rounding to the upper half errs by at most half a unit |
| DiyFloat.Normalize | ros_ws/src/livox_ros_driver2/3rdparty/rapidjson/internal/diyfp.h:105-108 | The same number with its top bit set |
| DiyFloat.OneNormalForm | ros_ws/src/livox_ros_driver2/3rdparty/rapidjson/internal/diyfp.h:105-108 | There is only one such shift |
| DiyFloat.NormalizeBoundary | ros_ws/src/livox_ros_driver2/3rdparty/rapidjson/internal/diyfp.h:110-119 | The loop up to bit 53 and the last shift give the same number with its top bit set |
| DiyFloat.NormalizedBoundaries | ros_ws/src/livox_ros_driver2/3rdparty/rapidjson/internal/diyfp.h:121-129 | Exactly the two halfway points, on one exponent, also at a power of two |
| DigitGeneration.GrisuRound | ros_ws/src/livox_ros_driver2/3rdparty/rapidjson/internal/dtoa.h:40-48 | The last digit is lowered to the candidate nearest the target that stays inside, and stays a digit |
| DigitGeneration.CountDecimalDigit32 | ros_ws/src/livox_ros_driver2/3rdparty/rapidjson/internal/dtoa.h:50-65 | The number of decimal digits below 10^9 |
| DigitGeneration.IntegerDigits | ros_ws/src/livox_ros_driver2/3rdparty/rapidjson/internal/dtoa.h:79-131 | The loop over the integer part stops at the first exponent that has a number in the interval |
| DigitGeneration.FractionDigits | ros_ws/src/livox_ros_driver2/3rdparty/rapidjson/internal/dtoa.h:133-148 | The loop over the fraction ends before the buffer and the tables do, and nothing wraps |
| DigitGeneration.DigitGen | ros_ws/src/livox_ros_driver2/3rdparty/rapidjson/internal/dtoa.h:67-148 | The digits denote a number inside [Mp - delta, Mp], with as few digits as possible, and nearest to W when fewer than nine digits stand behind the point (else the largest) |
| DigitGeneration.GeneratedIsNearest | ros_ws/src/livox_ros_driver2/3rdparty/rapidjson/internal/dtoa.h:133-148 | The number is nearest to W if and only if fewer than nine digits stand behind the point, or the target is not more than half a unit below the largest number, or the next smaller one is outside |
| DigitGeneration.NotNearestExample | ros_ws/src/livox_ros_driver2/3rdparty/rapidjson/internal/dtoa.h:133-148 | For 0.1 + 0.2 every result is 30000000000000007 * 10^-17, although 30000000000000004 * 10^-17 is in the interval and nearer |
| Grisu.SumIsScaled | ros_ws/src/livox_ros_driver2/3rdparty/rapidjson/internal/dtoa.h:150-160 | The interval of that example is the one of the double 0.1 + 0.2 under its cached power |
| Grisu.StrictlyWithin | ros_ws/src/livox_ros_driver2/3rdparty/rapidjson/internal/dtoa.h:150-162 | One unit beside the rounded product is strictly beside the exact one, in both directions |
| Grisu.Scaled | ros_ws/src/livox_ros_driver2/3rdparty/rapidjson/internal/dtoa.h:152-160 | The scaled value and boundaries keep their order, one unit further in |
| CachedPowers.TableIsRounded | ros_ws/src/livox_ros_driver2/3rdparty/rapidjson/internal/diyfp.h:169-270 | Each of the 87 cached powers is 10^(8i - 348) rounded to nearest in 64 bits with its exponent |
| CachedPowers.GetCachedPower | ros_ws/src/livox_ros_driver2/3rdparty/rapidjson/internal/diyfp.h:272-284 | For every exponent with a row in the table, and however the two floating-point operations round within a millionth, the chosen power brings the product exponent between -60 and -34 and its integer part below 8 * 10^8 |
| Grisu.Grisu2 | ros_ws/src/livox_ros_driver2/3rdparty/rapidjson/internal/dtoa.h:150-162 | For every positive finite double, digits * 10^K lies strictly between the halfway points to its two neighbours, so reading it back gives the double |
| DoubleDigits.DigitsOf | ros_ws/src/livox_ros_driver2/3rdparty/rapidjson/internal/dtoa.h:150-162 | From the bits: for every positive finite double the decimal is nearer to it than half way to the double on either side |
| DoubleDigits.BitsAreNumber | ros_ws/src/livox_ros_driver2/3rdparty/rapidjson/internal/diyfp.h:53-70 | The bits are decoded to the number they stand for, as the other decoder has it for all but zero |
| DoubleDigits.PrintedIsRead | ros_ws/src/livox_ros_driver2/3rdparty/rapidjson/internal/dtoa.h:150-162 | Whoever reads such a decimal with rounding to nearest gets the same bits back |
| Grisu.BetweenIsWithin | ros_ws/src/livox_ros_driver2/3rdparty/rapidjson/internal/dtoa.h:150-162 | The comparison of the scaled integers is the comparison of digits * 10^K with the halfway points themselves |
| Limbs.MulAdd64Exact | ros_ws/src/livox_ros_driver2/3rdparty/rapidjson/internal/biginteger.h:254-282 | The portable multiply-add gives low and high word of a*b+k |
| Limbs.MulAdd32Exact | ros_ws/src/livox_ros_driver2/3rdparty/rapidjson/internal/biginteger.h:103-123 | The two half products give word and carry of a*u+k |
| Limbs.LosingNext | ros_ws/src/livox_ros_driver2/3rdparty/rapidjson/internal/biginteger.h:199-206 | Since the last lost borrow the borrow compares the words so far, and a borrow is lost exactly where an all-ones word of the subtrahend meets it |
| Limbs.LostBorrow | ros_ws/src/livox_ros_driver2/3rdparty/rapidjson/internal/biginteger.h:200-204 | What is lost is 0 exactly when no borrow meets an all-ones word, and else at least 2^128 |
| Limbs.LosingEnd | ros_ws/src/livox_ros_driver2/3rdparty/rapidjson/internal/biginteger.h:184-209 | What the whole loop loses is the amount defined on the two values: a unit of the word after the first all-ones word that meets a borrow, and again above it |
| BigIntegers.BigInteger.Increase | ros_ws/src/livox_ros_driver2/3rdparty/rapidjson/internal/biginteger.h:71-84 | Addition with the carry through all words, normalised |
| BigIntegers.BigInteger.Multiply | ros_ws/src/livox_ros_driver2/3rdparty/rapidjson/internal/biginteger.h:86-101 | Exact product with a 64-bit factor, normalised |
| BigIntegers.BigInteger.MultiplySmall | ros_ws/src/livox_ros_driver2/3rdparty/rapidjson/internal/biginteger.h:103-123 | Exact product with a 32-bit factor |
| BigIntegers.BigInteger.ShiftLeft | ros_ws/src/livox_ros_driver2/3rdparty/rapidjson/internal/biginteger.h:125-148 | Exact product with a power of two, in place, normalised |
| BigIntegers.BigInteger.MultiplyPow5 | ros_ws/src/livox_ros_driver2/3rdparty/rapidjson/internal/biginteger.h:159-181 | Exact product with a power of five |
| BigIntegers.BigInteger.Compare | ros_ws/src/livox_ros_driver2/3rdparty/rapidjson/internal/biginteger.h:211-219 | The order of the values |
| BigIntegers.BigInteger.Difference | ros_ws/src/livox_ros_driver2/3rdparty/rapidjson/internal/biginteger.h:184-209 | The sign, and the absolute difference plus the lost amount; so it is exact exactly when no borrow meets an all-ones word of the smaller number, and otherwise too large by at least 2^128 |
| BigIntegers.BigInteger.AppendDecimal64 | ros_ws/src/livox_ros_driver2/3rdparty/rapidjson/internal/biginteger.h:229-237 | value * 10^n plus the chunk, by fives and a shift |
| BigIntegers.ParseUint64 | ros_ws/src/livox_ros_driver2/3rdparty/rapidjson/internal/biginteger.h:244-252 | The value of at most nineteen digits |
| BigIntegers.BigInteger.FromDecimals | ros_ws/src/livox_ros_driver2/3rdparty/rapidjson/internal/biginteger.h:42-55 | The value of the whole digit string, with at most one word per nineteen digits |
| BigIntegers.ChunksFit | ros_ws/src/livox_ros_driver2/3rdparty/rapidjson/internal/biginteger.h:42-55 | k chunks of nineteen digits fit k words |
| Strtod.ScalingIsExact | ros_ws/src/livox_ros_driver2/3rdparty/rapidjson/internal/strtod.h:59-103 | Taking the common factors out changes neither the sign nor the equality |
| Strtod.Exponents | ros_ws/src/livox_ros_driver2/3rdparty/rapidjson/internal/strtod.h:63-101 | The bookkeeping of exponents comes out as the two shifts |
| Strtod.CheckWithinHalfULP | ros_ws/src/livox_ros_driver2/3rdparty/rapidjson/internal/strtod.h:59-117 | The sign of the distance of d*10^dExp from b, plus what the subtraction loses, less half a unit of b, for all inputs: exact unless a borrow is lost, and a negative answer is always right |
| Strtod.TestIsRight | ros_ws/src/livox_ros_driver2/3rdparty/rapidjson/internal/strtod.h:113-117 | The answer has the exact sign if and only if nothing is lost, the distance exceeds half a unit anyway, or distance and loss together stay below it |
| Strtod.Verdict | ros_ws/src/livox_ros_driver2/3rdparty/rapidjson/internal/strtod.h:113-117 | What the computed difference says about the exact one |
| Strtod.MisroundedExample | ros_ws/src/livox_ros_driver2/3rdparty/rapidjson/internal/strtod.h:222-237 | A decimal of 149 digits, less than half a unit above a double, for which the lost borrow makes the answer the next double |
| Strtod.MisledExample | ros_ws/src/livox_ros_driver2/3rdparty/rapidjson/internal/biginteger.h:200-204 | The shortest case of the test itself: d = 2^128 - 1 and b = 2^128 are within half a unit, yet the borrow is lost and the test answers 1 |
| Strtod.StrtodBigInteger | ros_ws/src/livox_ros_driver2/3rdparty/rapidjson/internal/strtod.h:222-237 | The double itself or the next one by the sign of the test, the even one in the middle, up to the largest finite double |
| Strtod.RoundsToNearest | ros_ws/src/livox_ros_driver2/3rdparty/rapidjson/internal/strtod.h:222-237 | For every decimal between a positive double and the next one, infinity included, the answer is the nearest of the two, ties to even, if and only if the loss does not carry the distance over half a unit or onto it with the wrong parity |
| DoubleDigits.ReadsNearest | ros_ws/src/livox_ros_driver2/3rdparty/rapidjson/internal/strtod.h:222-237 | The same in real numbers: for every decimal from a positive double up to the next one the answer is the one nearest to it, the even one of two as near, if and only if that condition on the loss holds |
| DoubleDigits.NearestIsReal | ros_ws/src/livox_ros_driver2/3rdparty/rapidjson/internal/strtod.h:59-103 | The integers compared are the distances between the decimal and the two doubles as real numbers, all times one factor |
| Strtod.NextDouble | ros_ws/src/livox_ros_driver2/3rdparty/rapidjson/internal/ieee754.h:36-39 | The next bit pattern is one unit in the last place away, also across a power of two |
| Strtod.NearestOfTwo | ros_ws/src/livox_ros_driver2/3rdparty/rapidjson/internal/strtod.h:222-237 | Between the double and the next one the exact sign compares the two distances |
| Strtod.ZeroIsMisread | ros_ws/src/livox_ros_driver2/3rdparty/rapidjson/internal/ieee754.h:55-65 | Zero is decoded as 2^-1023, because IsNormal also holds of it: every decimal up to the least double is answered with that double, which is nearest, ties to even, if and only if the decimal exceeds 2^-1075 |
| Strtod.TieAtZero | ros_ws/src/livox_ros_driver2/3rdparty/rapidjson/internal/ieee754.h:55-65 | The tie 2^-1075 = 5^1075 * 10^-1075 has at most 768 digits and is rounded to the odd neighbour |
| LidarQueues.PowersPassTheTest | ros_ws/src/livox_ros_driver2/src/comm/ldq.h:35-37 | The bit test holds exactly for the powers of two |
| LidarQueues.RoundupPowerOf2 | ros_ws/src/livox_ros_driver2/src/comm/ldq.h:39-49 | The least power of two not below the size, up to 2^31; 2^31 beyond that |
| LidarQueues.MaskIsRemainder | ros_ws/src/livox_ros_driver2/src/comm/ldq.cpp:97 | Masking with a power of two less one is the remainder |
| LidarQueues.WrappedDifference | ros_ws/src/livox_ros_driver2/src/comm/ldq.cpp:120-134 | Differences of wrapped 32-bit indices are the true differences below 2^32 |
| LidarQueues.LidarDataQueue.constructor | ros_ws/src/livox_ros_driver2/src/comm/ldq.cpp:33-61 | An empty ring of the size asked for, or of the next power of two |
| LidarQueues.LidarDataQueue.QueuePushAny | ros_ws/src/livox_ros_driver2/src/comm/ldq.cpp:136-148 | One packet more at the end |
| LidarQueues.LidarDataQueue.QueuePrePop | ros_ws/src/livox_ros_driver2/src/comm/ldq.cpp:86-105 | The oldest packet, and the ring as it was |
| LidarQueues.LidarDataQueue.QueuePop | ros_ws/src/livox_ros_driver2/src/comm/ldq.cpp:111-118 | The oldest packet goes |
| LidarQueues.LidarDataQueue.QueueIsFull | ros_ws/src/livox_ros_driver2/src/comm/ldq.cpp:128-130 | Exactly when as many packets wait as there are slots |
| LidarQueues.LidarDataQueue.QueueUsedSize | ros_ws/src/livox_ros_driver2/src/comm/ldq.cpp:120-122 | The number of packets that wait |
| PointCloudPipeline.ReachableInv | ros_ws/src/livox_ros_driver2/src/lds.cpp:170-196 | The invariant of queues, threads and wake-up holds in every state two threads can reach in any interleaving of their atomic steps, the four writes of InitQueue among them |
| PipelineHistories.EveryPacket | ros_ws/src/livox_ros_driver2/src/lds.cpp:170-196 | Over every run: the packets that arrived are, in order, those that came to the test and the one before it; what was pushed, with the one being written, is exactly those at whose test fewer than 2^bits packets were waiting |
| PipelineHistories.NothingDropped | ros_ws/src/livox_ros_driver2/src/lds.cpp:170-196 | Where a ring never held 2^bits packets at a test, everything that arrived is pushed or in hand |
| PipelineHistories.PushEnds | ros_ws/src/livox_ros_driver2/src/lds.cpp:170-196 | A call left alone returns, and has pushed its packet exactly if fewer than 2^bits were waiting |
| PipelineHistories.AllPublished | ros_ws/src/livox_ros_driver2/src/lddc.cpp:118-177 | With both threads at rest, everything that arrived and found room has been published, in order |
| PointCloudPipeline.BoundedFifo | ros_ws/src/livox_ros_driver2/src/comm/ldq.cpp:86-148 | What is popped is a prefix of what was pushed, never more than a ring behind, and published is all of it but empty packets |
| PointCloudPipeline.WritesApart | ros_ws/src/livox_ros_driver2/src/comm/ldq.cpp:136-148 | The slot being written is none of those the consumer may read |
| PointCloudPipeline.CopiesWhole | ros_ws/src/livox_ros_driver2/src/comm/ldq.cpp:97-103 | The packet being copied is the oldest one pushed, whole |
| PointCloudPipeline.BinarySemaphore | ros_ws/src/livox_ros_driver2/src/comm/semaphore.cpp:29-39 | The count stays 0 or 1 |
| PointCloudPipeline.SleepsOnlyWhenEmpty | ros_ws/src/livox_ros_driver2/src/lddc.cpp:118-177 | No lost wake-up: a consumer asleep without a signal, beside an idle producer, has popped and published everything |
| PointCloudPipeline.RankFalls | ros_ws/src/livox_ros_driver2/src/lddc.cpp:118-177 | Every step of the consumer alone brings it closer to sleep |
| PointCloudPipeline.Drains | ros_ws/src/livox_ros_driver2/src/lddc.cpp:118-177 | Left alone it goes to sleep after finitely many steps with every queue drained |
| PubHandlers.PubHandler.ProcessPacket | ros_ws/src/livox_ros_driver2/src/comm/pub_handler.cpp:243-253 | The packet's points are received; per lidar the published points followed by the pending ones are still all received points in order |
| PubHandlers.PubHandler.PointCloudProcess | ros_ws/src/livox_ros_driver2/src/comm/pub_handler.cpp:366-455 | All points of a packet at the end of what is pending, point i at the packet's time plus i intervals, in 64 bits |
| PubHandlers.PubHandler.CheckTimerSync | ros_ws/src/livox_ros_driver2/src/comm/pub_handler.cpp:166-194 | A due lidar's points leave in a frame of their own whose base time is the first point's, and nothing else changes; every synchronised frame ends in a millisecond that is a non-zero multiple of the interval, at least the tolerance after its first point, and what stays pending does not |
| PubHandlers.PubHandler.CheckTimerFree | ros_ws/src/livox_ros_driver2/src/comm/pub_handler.cpp:195-225 | The first call sets the time; from then on, once per interval, one frame takes all pending points of at most 32 lidars, and otherwise nothing changes |
| PubHandlers.PubHandler.GetLidarPointClouds | ros_ws/src/livox_ros_driver2/src/comm/pub_handler.cpp:288-291 | The swap hands all pending points over |
| PubHandlers.AllLeave | ros_ws/src/livox_ros_driver2/src/comm/pub_handler.cpp:208-224 | Whatever the order of the map, the frame and the emptied handlers together conserve every point |
| PubHandlers.TimeSurvives | ros_ws/src/livox_ros_driver2/src/lddc.cpp:395 | timebase + offset_time is the point's time exactly when it lies less than 2^32 ns after the base time |
| PubHandlers.FillPoints | ros_ws/src/livox_ros_driver2/src/lddc.cpp:384-399 | Every point of a message gets its distance from the base time modulo 2^32, and its time back exactly below 2^32 ns |
| CacheIndexes.CacheIndex.GetFreeIndex | ros_ws/src/livox_ros_driver2/src/comm/cache_index.cpp:35-62 | Without another caller in between: a handle keeps its slot, a new one gets a free one, slots stay one per handle, and failure means all slots are owned |
| CacheIndexes.CacheIndex.TakeFree | ros_ws/src/livox_ros_driver2/src/comm/cache_index.cpp:49-61 | The second critical section of GetFreeIndex: the first free slot, whether or not the handle has one by now; no slot leaks if and only if it has none |
| CacheIndexes.CacheIndex.LookUp | ros_ws/src/livox_ros_driver2/src/comm/cache_index.cpp:41-47 | The first critical section of GetFreeIndex: the handle's slot, if any |
| CacheIndexes.CacheIndex.Subscript | ros_ws/src/livox_ros_driver2/src/comm/cache_index.cpp:81-85 | GetIndex behind its unlocked search: the slot, or slot 0 as a new entry when the handle has gone, which keeps one slot per handle if and only if slot 0 was taken and nobody's |
| CacheIndexes.CacheIndex.Release | ros_ws/src/livox_ros_driver2/src/comm/cache_index.cpp:113-118 | ResetIndex behind its unlocked reads: slots stay one per handle if and only if no other handle has the slot by now, and none leaks if and only if the handle has no other |
| CacheIndexes.CacheIndex.ResetIndex | ros_ws/src/livox_ros_driver2/src/comm/cache_index.cpp:105-119 | Without another caller in between: the slot is free again and the handle forgotten |
| CacheIndexes.AllOwned | ros_ws/src/livox_ros_driver2/src/comm/cache_index.cpp:52-61 | One slot per handle and every slot owned: as many handles as slots |
| CacheIndexes.CallersLeak | ros_ws/src/livox_ros_driver2/src/comm/cache_index.cpp:35-62 | Over every interleaving of calls, each of a look and, after a miss, a take, a slot leaks if and only if two callers both missed one handle before either took, and the second still found a free slot |
| CacheIndexes.DifferentHandles | ros_ws/src/livox_ros_driver2/src/comm/cache_index.cpp:35-62 | Calls for different handles interleave freely: slots stay one per handle and none leaks |
| CacheIndexes.RunsLeak | ros_ws/src/livox_ros_driver2/src/comm/cache_index.cpp:49-61 | Over every run of takes and uninterrupted resets, a slot leaks if and only if a handle that has a slot takes a second one |
| CacheIndexes.RaceLeaks | ros_ws/src/livox_ros_driver2/src/comm/cache_index.cpp:41-61 | Such a run: two callers both miss one handle before either takes a slot |

## Left out

- Doubles: parsing them (StrtodDiyFp, StrtodFast and the significand path of ParseNumber) and printing them (Prettify, WriteExponent) are not modelled beyond Grisu.Grisu2 and Strtod.StrtodBigInteger; the readers take a scanner of doubles as a parameter.
- CachedPowers.DecimalExponent: stands for a product and a sum in floating point, whose error below a millionth is taken for granted; nothing else of them is used.
- Strtod.StrtodBigInteger: needs the decimal to differ from the approximation, and Strtod.CheckWithinHalfULP the two scaled numbers, because the subtraction asserts that.
- DigitGeneration.DigitGen: promises the nearest number only while fewer than nine digits stand behind the point, because the rounding weight taken from the table of ten powers is 0 beyond that; DigitGeneration.GeneratedIsNearest says when it is nearest.
- RegexSearch.GenericRegexSearch.SearchWithAnchoring: needs patterns without a nullable operand under `*`, `+` or `{n,}`, because AddState does not return on the others; RegexGraph.LoopHalting says that these are exactly those.
- Regular expressions: patterns and texts are sequences of decoded code points up to the first 0; the decoding stream is not modelled. State, range and operand counts are unbounded, and the invalid index is -1.
- RegexAccepted.AcceptedIsPattern: numbers of quantifiers are below 2^32 in it; RegexAccepted.NumeralIs has what is read of the others.
- Readers: error codes and offsets, in-situ parsing, IterativeParseNext, the NaN and Inf literals, kParseNumbersAsStrings and the SIMD scanners are not modelled. Counts of members and elements are unbounded.
- JsonWriters.Writer.WriteString: is the form for the default flags and the UTF-8 target, as the writer object uses it; JsonStrings.StringWriter.WriteString has the other target and flag.
- Writers: RawValue, RawNumber, Double and the growth of the output buffer are not modelled.
- Encodings: UTF-32, byte order marks and AutoUTF are not modelled; reading past the terminator of a truncated sequence gives 0 in the model, where the source reads whatever lies there; the verdict is the same where a terminator follows.
- Documents: GenericValue's layout, flags and short strings, and the DOM operations other than those Create and Get use, are not modelled; a value is a tree.
- PointerAccess.PointerDocument.Create: the node the walk stands at is a place in the tree and is put back into the root, where the source writes through a pointer; other pointers into the document are not modelled.
- JsonPointers.GenericPointer.Parse: array indices of user-supplied tokens are taken as given in PointerAccess.
- PoolAllocators.MemoryPoolAllocator.Malloc: what the base allocator answers is a parameter; chunks are a sequence instead of a linked list of headers, and the headers' own bytes are not part of the modelled memory.
- PoolAllocators.MemoryPoolAllocator.Size: the sum over the chunks does not wrap, where size_t would beyond the address space.
- PointCloudPipeline.ReachableInv: every access to a field the other thread writes is one atomic step in program order, the points of a slot being one field; the memory model of the machine, exit requests and lidars that stop sampling are not modelled.
- PubHandlers.PubHandler.ProcessPacket: at most 32 lidars and a registered callback; point coordinates, extrinsics and the three point formats are opaque, and the handlers of the lidars are entries of one map.
- CacheIndexes.CacheIndex.GetFreeIndex: handles stand for the text keys made of them.
- CacheIndexes.RunsLeak: a Forget is an uninterrupted ResetIndex, which nothing in the driver calls; CacheIndexes.CacheIndex.Release has the interrupted one. The searches of ResetIndex and GetIndex outside the lock read the map while others may write it; what such a read gives is not modelled.
- schema.h, the configuration parsers, ROS publishing, rosbag, the Livox SDK and its callbacks, IMU data and real clocks are not part of this model.
