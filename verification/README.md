# Proofs about a game server's JSON engine, text conversions and matchmaker

This project models three parts of the repository in Dafny 4.11 and proves what they are for. `dafny verify dfyconfig.toml`
checks all of it. Code that works by changing things is a class or a method with loops, proved equal to a function of what
was there before; what the source promises is then proved of these functions.

**The JSON engine** (`3rdparty/rapidjson`). Two parsers of one language, one recursive and one a table-driven automaton with
an explicit stack (`ReaderSpec`, `Automaton`, `Reader`), are proved to agree on every text and handler (`Equivalence`), to
accept exactly the texts of RFC 4627, described apart from any parser (`Json`, `ReadsStrings`, `ReadsNumerals`, `ReadsJson`),
to report exactly what is wrong with any other (`Faults`, `BadStrings`, `BadNumbers`, `ReadsFaults`, `RunsFaults`,
`Verdicts`), and to stop where a handler refuses (`Handlers`). The
compact and the indenting writer (`WriterSpec`, `Writer`, `Text`) are undone by both parsers into the document's flat stack
(`Dom`, `Document`, `ReadsDocument`, `RoundTrip`), with the exact condition for a value to come back (`RoundTripExact`);
how they lay a text out and spell a string is proved in `Layout` and `WritesStrings`.
Below these lie the UTF-8 codec against RFC 3629 (`Utf8`), escapes (`Quoting`, `ValidatedStrings`), integer printing and
reading with exact overflow bounds (`Itoa`, `ReadNumber`, `Numbers`), decimals (`ReadDecimal`), equality of trees
(`Equality`), the integer half of Grisu2 (`DiyFps`, `Grisu`, `Prettify`) and the pool allocator (`PoolLayout`,
`PoolWaste`, `Allocator`).

**Text conversion in place** (`server/include`). The resumable UTF-8 and UTF-16 converters (`Conversions`, `ConvertUtf`,
`UtfTrips`, `UtfStops`) and the multi-line values of INI files, whose loader compacts its own buffer (`MultiLine`).

**The matchmaker** (`server/IntegretedServer`). A state machine over four maps (`MatchServer`), with what holds over every run
of its steps (`MatchSafety`, `MatchRegistry`) and what it tells users and servers (`MatchAnswers`).

## What the model takes as given

- A stream is the bytes left of it; Peek and Take give 0 past its end.
- A handler is any function that decides from the events sent so far whether parsing goes on, so every theorem about events
  holds for every handler.
- Doubles are known by their 64 bits only, and the floating-point operations of the number parser are arbitrary functions:
  theorems hold for any choice of them.
- Integers are unbounded in Dafny; the widths of the source are subset types, and every wrap-around is written out.
- A machine word of size_t and of pointers has 64 bits. Bit masks and shifts are written as arithmetic.
- Where a session is connected, the id the clock gives a game, and the order std::sort leaves equal priorities in are inputs
  of the steps. Timers are steps that may come at any time.

## Where the code does less than it says

- `operator==` is documented to be false for objects with a repeated name (document.h:666). It is not: such an object equals
  itself unless two members share a name but not a value, and equality is not symmetric (`Equality.RepeatedNames`,
  `Equality.OrderCounts`).
- `operator==` compares integers by their raw 64 bits, so -1 equals 18446744073709551615 (`Equality.NotPlain`).
- The flag that validates the encoding of strings does not look at escapes: a low surrogate without a high one before it is
  accepted and makes an ill-formed string (`ValidatedStrings.LoneLowIsAccepted`).
- The error for an empty document is what the iterative parser also reports for a text that begins with a closing bracket, a
  comma or a colon (`Verdicts.ErrorsAreExact`). A bad hex digit does not end a string, and its error gives way to any later
  one (`BadStrings.StringErrorIsExact`).
- `sourceExhausted` is also returned for bytes that nothing can complete, as only the first of them is looked at
  (`UtfStops.MoreMayHelp`, `UtfStops.ExhaustedForNothing`).
- The alignment macro masks a 64-bit size with a 32-bit constant. From 4 GiB - 3 on, it returns less than it is given
  (`PoolLayout.AlignRoundsUp`).
- `DigitGen` indexes a table of ten powers with the number of digits of the fraction, which can exceed nine
  (`Grisu.DigitGen`, `Grisu.LongEnough`).
- `isLegalUTF8` sets no lower bound for the byte after ED or F4, so some sequences that are not UTF-8 are accepted and come
  back changed (`UtfTrips.LegalIs`, `UtfTrips.RestoredIfWellFormed`).
- The loader of multi-line values finds no LF to put the terminator on when the tag is the first line, and the value runs on
  through the tag (`MultiLine.LoadedUndoesOutput`). With an empty tag and an empty first line it reports no value, and a
  newline of the data has become a terminator (`MultiLine.LoadMultiLineText`).
- The exponent of a number is accumulated in an int that nothing bounds after a minus sign; it overflows from 2147483648
  on (`ReadDecimal.StaysIntIs`, `ReadDecimal.TinyIsReadAsOne`).
- A cancelled session leaves its entry in `session2matchkey`, and a later cancel through it removes another session's wait
  (`MatchSafety.StaleEntryDropsAnother`). A game under an id already pending is not recorded (`MatchSafety.StepBalance`).

## Model

| member | source | states |
|---|---|---|
| Equivalence.ParsersAgree | 3rdparty/rapidjson/reader.h:382-411 | for every text, handler and choice of flags, the recursive parser and the automaton send the same events with the same counts, stop at the same place on success, and report the same error, but where a value is missing and the automaton has no move for what is there instead |
| Equivalence.RunValue | 3rdparty/rapidjson/reader.h:1162-1302 | from any state that expects a value, the automaton does with one value what ParseValue does, and then goes on in the state the bracket around it resumes in |
| Equivalence.RunArray | 3rdparty/rapidjson/reader.h:507-541 | the automaton runs through an array, its stack back where it was, as ParseArray does |
| Equivalence.RunElements | 3rdparty/rapidjson/reader.h:507-541 | with the commas seen so far in the top frame, the automaton runs through the rest of an array as the loop of ParseArray does |
| Equivalence.RunObject | 3rdparty/rapidjson/reader.h:456-504 | the automaton runs through an object, its stack back where it was, as ParseObject does |
| Equivalence.RunMembers | 3rdparty/rapidjson/reader.h:456-504 | with the commas seen so far in the top frame, the automaton runs through the rest of an object as the loop of ParseObject does |
| Equivalence.AfterItem | 3rdparty/rapidjson/reader.h:1162-1302 | after an element or member value: a comma counts in the top frame and goes on, the closing bracket pops the frame and sends the count, anything else is an error without an event |
| Automaton.Transit | 3rdparty/rapidjson/reader.h:1162-1302 | a move that is not an error keeps the frames fitting the state (every frame resumes in a state of the bracket below it, the lowest at the start) and reads something |
| Automaton.HandleError | 3rdparty/rapidjson/reader.h:1304-1320 | an error stays an error, and no event is sent |
| Reader.GenericReader.Parse | 3rdparty/rapidjson/reader.h:382-411 | the method over the stream and the handler ends in the state of the recursive description, its stack empty |
| Reader.GenericReader.IterativeParse | 3rdparty/rapidjson/reader.h:1323-1353 | the loop over a flat stack of states and counts ends in the state of the run of the automaton, its stack empty |
| Reader.GenericReader.Transit | 3rdparty/rapidjson/reader.h:1162-1302 | one move on the flat stack is one move on the list of frames |
| Reader.GenericReader.CloseBracket | 3rdparty/rapidjson/reader.h:1239-1287 | the count and the state come off the flat stack in the order they were pushed |
| Reader.GenericReader.ParseObject | 3rdparty/rapidjson/reader.h:456-504 | the loop over members and its description |
| Reader.GenericReader.ParseArray | 3rdparty/rapidjson/reader.h:507-541 | the loop over elements and its description |
| Reader.GenericReader.ParseNumber | 3rdparty/rapidjson/reader.h:721-904 | the accumulating loops and the choice of event, against their description |
| Reader.GenericReader.ParseStringToStream | 3rdparty/rapidjson/reader.h:650-706 | the unescaping loop, which goes on after a bad hex digit, against its description |
| Reader.GenericReader.ParseHex4 | 3rdparty/rapidjson/reader.h:583-601 | the loop over four digits and its description |
| Reader.SkipWhitespace | 3rdparty/rapidjson/reader.h:236-242 | skips exactly the leading whitespace |
| ReaderSpec.Accumulate | 3rdparty/rapidjson/reader.h:732-793 | the accumulator never passes its limit, and reading stops early only at a digit that would take it past |
| ReaderSpec.ScanString | 3rdparty/rapidjson/reader.h:650-706 | once an error is recorded the result stays an error; on success the whole quoted string was read |
| ReaderSpec.ParseValue | 3rdparty/rapidjson/reader.h:908-918 | a value that is read without error takes something off the stream, and events are only ever appended |
| ReaderSpec.NegateInt32 | 3rdparty/rapidjson/reader.h:894-900 | conversion to int and negation, both wrapping as two's complement does, make the unsigned magnitude the negative int, down to the least one |
| ReaderSpec.NegateInt64 | 3rdparty/rapidjson/reader.h:889-893 | the same for 64 bits |
| ReadNumber.AccumulateDigits | 3rdparty/rapidjson/reader.h:732-793 | a run of digits is read whole exactly when its value fits, and otherwise up to the digit that does not, with the value read so far |
| ReadNumber.ParseIntegerDigits | 3rdparty/rapidjson/reader.h:725-802 | the integer part ends in i, i64 or a double, in each case exactly when the value calls for it |
| ReadNumber.NarrowestType | 3rdparty/rapidjson/reader.h:725-901 | a number without fraction or exponent is reported exactly, as the narrowest of Uint and Uint64 or Int and Int64, and becomes a double or is refused exactly when it fits neither |
| ReadDecimal.ReadsFraction | 3rdparty/rapidjson/reader.h:803-838 | the digits of a fraction go into the 64-bit significand as long as it has room, one power of ten each |
| ReadDecimal.DecimalIsRead | 3rdparty/rapidjson/reader.h:803-887 | a number with a fraction or an exponent, whose digits fit 64 bits, becomes the double of exactly these digits, scaled by its exponent and the count of its fraction as two ints hold them after wrapping; it is too big exactly when its exponent is above 308, and misses its fraction when the count has wrapped to 0 |
| ReadDecimal.PowerIsExact | 3rdparty/rapidjson/reader.h:843-884 | these two ints and their wrapped sum scale by the number's own power of ten exactly when that is at least -2^31 and the fraction has at most 2^31 digits |
| ReadDecimal.ReadsPower | 3rdparty/rapidjson/reader.h:859-872 | an exponent is read as its value, wrapped to an int, or as too big |
| ReadDecimal.StaysIntIs | 3rdparty/rapidjson/reader.h:860-865 | the int that accumulates an exponent never overflows exactly when the exponent is at most 2147483647 |
| ReadDecimal.TinyIsReadAsOne | 3rdparty/rapidjson/reader.h:859-884 | where ints wrap, 1e-4294967296 is read as the double of 1, scaled by 10^0 |
| ReadDecimal.LongIsRead | 3rdparty/rapidjson/reader.h:725-847 | an integer of 19 to 21 digits that leaves 64 bits no room is read as its leading digits, with the zeros behind them appended to the double one by one |
| ReadDecimal.PrettyIsRead | 3rdparty/rapidjson/internal/dtoa.h:352-391 | in every layout, the text Prettify makes of up to 17 digits times 10^k is read by ParseNumber as a 64-bit significand, appended zeros and a power of ten that make up the same number |
| ReadsJson.ParsesExactlyJson | 3rdparty/rapidjson/reader.h:382-411 | both parsers succeed exactly on the JSON texts of section 2 of RFC 4627, given as trees and their spellings: whitespace, one value and, without kParseStopWhenDoneFlag, nothing behind it but whitespace up to the end or a NUL |
| ReadsJson.TellsWhatItSays | 3rdparty/rapidjson/reader.h:382-411 | of a value at the front of a text both parsers tell the handler exactly what it says, and they succeed exactly if nothing follows it or they need not look |
| ReadsJson.ReadsValue | 3rdparty/rapidjson/reader.h:456-541 | every value of the grammar, before anything that ends it, is read as what it says |
| ReadsJson.TellsValue | 3rdparty/rapidjson/reader.h:456-541 | whatever is read as a value without an error is a value of the grammar and ends there |
| ReadsStrings.ReadsUnit | 3rdparty/rapidjson/reader.h:583-601 | four hex digits in either case are read as the code unit they spell |
| ReadsStrings.UnitIsExact | 3rdparty/rapidjson/reader.h:583-601 | and no other four bytes are |
| ReadsStrings.LetterIs | 3rdparty/rapidjson/reader.h:655-663 | the escape table holds exactly the letters of section 2.5 of RFC 4627, each with what it stands for |
| ReadsStrings.StringIsExact | 3rdparty/rapidjson/reader.h:650-706 | ParseStringToStream succeeds exactly on the strings of section 2.5 of RFC 4627 and reads what they say: bytes or characters that stand for themselves, escape letters, code units and surrogate pairs |
| ReadsNumerals.ReadsNumeral | 3rdparty/rapidjson/reader.h:721-904 | every number of section 2.4 of RFC 4627 is read as the integer or double it says, or refused as too big or for a count of fraction digits that wraps to none |
| ReadsNumerals.TellsNumeral | 3rdparty/rapidjson/reader.h:721-904 | whatever is read as a number without an error is such a number and ends there |
| Handlers.RefusalEndsTheParse | 3rdparty/rapidjson/reader.h:456-582 | a handler that refuses is sent what any other is sent, up to and with the first event it refuses, and the parse ends there with kParseErrorTermination; one that refuses nothing makes no difference |
| Verdicts.EveryTextIsOne | 3rdparty/rapidjson/reader.h:382-541 | every text is empty, or begins with a JSON value with or without something behind it, or goes wrong at one place in one of the ways the faults list |
| Verdicts.ParsersSay | 3rdparty/rapidjson/error/error.h:63-87 | whichever it is, both parsers tell the handler exactly what was sound and report exactly what is wrong |
| Verdicts.ErrorsAreExact | 3rdparty/rapidjson/error/error.h:63-87 | each error code is reported exactly for the texts that have what it stands for |
| ReadsFaults.ReadsFault | 3rdparty/rapidjson/reader.h:456-541 | for a value that goes wrong at any depth, ParseValue sends the events before that place and reports what is wrong there |
| RunsFaults.RunFault | 3rdparty/rapidjson/reader.h:1162-1320 | so does the automaton, with the errors of its table |
| BadStrings.EveryText | 3rdparty/rapidjson/reader.h:650-706 | every text behind a quotation mark is a string, sound or with a fault |
| BadStrings.StringErrorIsExact | 3rdparty/rapidjson/reader.h:583-706 | ParseStringToStream reports an error exactly if it is the one for what is wrong; a bad hex digit is reported only if nothing else is wrong behind it |
| BadNumbers.EveryNumber | 3rdparty/rapidjson/reader.h:721-904 | every text that begins like a number is one, or has one of four faults |
| BadNumbers.NumberFails | 3rdparty/rapidjson/reader.h:721-904 | of a number ParseNumber reports the first thing wrong: a missing digit, too many digits, an empty fraction, an empty exponent, a power too big |
| Utf8.TableIsRfc | 3rdparty/rapidjson/encodings.h:183-199 | the range table and masks accept exactly the UTF8-char production of section 4 of RFC 3629 |
| Utf8.DecodeIsExact | 3rdparty/rapidjson/encodings.h:128-155 | Decode succeeds exactly when the text begins with such a character, and then gives its number and stops behind it |
| Utf8.EncodeThenDecode | 3rdparty/rapidjson/encodings.h:107-155 | every scalar value is encoded as one character with that number |
| Utf8.DecodeThenEncode | 3rdparty/rapidjson/encodings.h:107-155 | every accepted character is the encoding of its number, which is a scalar value |
| Utf8.ValidateIsDecode | 3rdparty/rapidjson/encodings.h:157-181 | Validate accepts what Decode accepts, stops where it does and copies what it read |
| Utf8.DecodeAllThenEncodeAll | 3rdparty/rapidjson/encodings.h:107-155 | decoding and encoding a whole well-formed text restores it |
| Utf8.EncodeAllThenDecodeAll | 3rdparty/rapidjson/encodings.h:107-155 | encoding and decoding a list of scalar values restores it |
| Utf8.Decode | 3rdparty/rapidjson/encodings.h:128-155 | the method over the stream does what its description says |
| Utf8.Validate | 3rdparty/rapidjson/encodings.h:157-181 | the method over both streams does what its description says |
| Utf8.EncodeTo | 3rdparty/rapidjson/encodings.h:107-126 | the method puts the encoding of the character |
| Quoting.HexReadsBack | 3rdparty/rapidjson/reader.h:583-601 | ParseHex4 undoes the four hex digits of an escape |
| Quoting.UnicodeReadsBack | 3rdparty/rapidjson/writer.h:256-287 | a character written as one escape or as a surrogate pair is read back as that character |
| Quoting.OneTurn | 3rdparty/rapidjson/writer.h:238-304 | one character of a string is written as a piece that the reader turns back into it |
| Quoting.StringReadsBack | 3rdparty/rapidjson/writer.h:238-304 | what is written for a string, with a quote behind it, is read as that string |
| Quoting.IllFormedIsRefused | 3rdparty/rapidjson/reader.h:650-706 | a validating reader refuses every ill-formed string a UTF-8 writer copied |
| Quoting.AsciiTakesWellFormed | 3rdparty/rapidjson/writer.h:256-287 | a writer with an ASCII target accepts exactly the well-formed strings |
| Quoting.StringRoundTrip | 3rdparty/rapidjson/writer.h:238-304 | WriteString then ParseStringToStream is the identity on every byte string, but for the ill-formed ones: an ASCII writer refuses exactly these, and so does a validating reader |
| WritesStrings.SpelledCanonically | 3rdparty/rapidjson/writer.h:238-304 | a string that is written is spelled in one way: an escape letter where there is one but not for the slash, otherwise upper-case hex digits for control characters and, for an ASCII target, for everything above ASCII, in pairs above 0xFFFF; all else as it is |
| Itoa.U32ToA | 3rdparty/rapidjson/internal/itoa.h:43-115 | writes the canonical decimal text within 10 bytes |
| Itoa.I32ToA | 3rdparty/rapidjson/internal/itoa.h:117-124 | writes the canonical decimal text within 11 bytes, of the least int too |
| Itoa.U64ToA | 3rdparty/rapidjson/internal/itoa.h:126-292 | writes the canonical decimal text within 20 bytes |
| Itoa.I64ToA | 3rdparty/rapidjson/internal/itoa.h:294-301 | writes the canonical decimal text within 21 bytes, of the least int64 too |
| Itoa.Magnitude32 | 3rdparty/rapidjson/internal/itoa.h:120 | the negation of a negative int, wrapped as two's complement does, is its magnitude as an unsigned word |
| Itoa.Magnitude64 | 3rdparty/rapidjson/internal/itoa.h:297 | the same for 64 bits |
| RoundTrip.ReadsNumber | 3rdparty/rapidjson/internal/itoa.h:43-301 | the decimal text of an integer value is read back as the event of that value |
| Dom.AcceptSendsEvents | 3rdparty/rapidjson/document.h:1378-1417 | Accept sends exactly the events of the value, in order, and stops where the handler refuses |
| Document.ArrayCloses | 3rdparty/rapidjson/document.h:1805-1809 | EndArray pops exactly the elements pushed since the bracket opened, and puts them into the array below them |
| Document.EndObjectPops | 3rdparty/rapidjson/document.h:1797-1801 | EndObject pops exactly the names and values pushed since the bracket opened |
| Document.EventsPushValue | 3rdparty/rapidjson/document.h:1777-1809 | the events of any value leave any stack as it was, plus an equal value |
| Document.DeepCopyIsEqual | 3rdparty/rapidjson/document.h:1838-1843 | the deep-copy constructor yields an equal tree |
| Document.GenericDocument.Handle | 3rdparty/rapidjson/document.h:1777-1809 | each handler call on the stack field does what its description says |
| ReadsDocument.ValuePushes | 3rdparty/rapidjson/document.h:1777-1809 | whatever either parser reads as a value leaves exactly one value on the document's stack |
| ReadsDocument.OneRoot | 3rdparty/rapidjson/document.h:1641-1651 | for every text shorter than 2^32 bytes no assertion on the document's stack fails, and a parse without error leaves exactly one value |
| ReadsDocument.ParseStream | 3rdparty/rapidjson/document.h:1641-1651 | the document gets the root and an empty stack, or the error and a null root, from either parser |
| Equality.FindMember | 3rdparty/rapidjson/document.h:896-904 | the first member of the name, or none |
| Equality.Find | 3rdparty/rapidjson/document.h:896-904 | the loop finds it |
| Equality.Equals | 3rdparty/rapidjson/document.h:669-706 | the loops of operator== compute the recursive description |
| Equality.EqualIsAlike | 3rdparty/rapidjson/document.h:669-706 | on trees with unique names, operator== holds exactly when each member of one tree has its like in the other, in any order; numbers are alike when they differ by a multiple of 2^64 or, if one is a double, when the doubles compare equal |
| Equality.SameNames | 3rdparty/rapidjson/document.h:676-685 | equally many unique names, all found on the right, leave no other name there |
| Equality.Equivalence | 3rdparty/rapidjson/document.h:669-706 | on such trees without doubles operator== is reflexive, symmetric and transitive |
| Equality.BitsTellApart | 3rdparty/rapidjson/document.h:701 | comparing the raw 64 bits tells two integers apart exactly when they are not 2^64 apart |
| Equality.RepeatedNames | 3rdparty/rapidjson/document.h:665-685 | an object of plain values equals nothing without doubles exactly if two of its members share a name and have values that are not alike; otherwise it equals itself |
| Equality.OrderCounts | 3rdparty/rapidjson/document.h:669-685 | when one such object equals another, the other does not equal it back exactly if it has a name the first lacks, or two members that share a name but not a value |
| Equality.DoublesBlur | 3rdparty/rapidjson/document.h:697-701 | with a double on the right that equals two integers, members that share a name can both be found equal |
| Equality.NotPlain | 3rdparty/rapidjson/document.h:665-706 | witnesses: -1 equals 2^64-1, and an object with a repeated name equals another that does not equal it |
| Writer.JsonWriter.Prefix | 3rdparty/rapidjson/writer.h:311-329 | the separator and the counters, against their description |
| Writer.JsonWriter.PrettyPrefix | 3rdparty/rapidjson/prettywriter.h:144-183 | the separator, the indentation and the counters, against their description |
| Writer.JsonWriter.WriteString | 3rdparty/rapidjson/writer.h:238-304 | the escaping loop puts the text of the string, or reports an ill-formed one, having put the text of what comes before the first character that does not decode |
| Writer.JsonWriter.EndBracket | 3rdparty/rapidjson/prettywriter.h:93-131 | the closing bracket, on a line of its own unless nothing is in it |
| Writer.JsonWriter.Int | 3rdparty/rapidjson/writer.h:198-204 | puts the decimal text by way of the buffer |
| Writer.JsonWriter.Int64 | 3rdparty/rapidjson/writer.h:214-220 | puts the decimal text by way of the buffer |
| Layout.PrettyIsLaidOut | 3rdparty/rapidjson/prettywriter.h:85-188 | the compact writer puts no whitespace outside of strings, and the pretty writer puts exactly this more: behind an opening bracket and a comma a newline and the indentation, as many times as brackets are open; the same before a closing bracket, which counts itself closed; nothing inside an empty bracket; and a space behind a colon |
| WriterSpec.WritesText | 3rdparty/rapidjson/writer.h:108-153 | at any depth, the events of a value make the writer append the text of that value |
| RoundTrip.PrintsText | 3rdparty/rapidjson/prettywriter.h:71-131 | Accept into a fresh writer or pretty writer gives the text of the value |
| RoundTrip.ReadsValue | 3rdparty/rapidjson/reader.h:456-540 | the text of a value, at any depth and before anything that can end a number, is read as the events of that value |
| RoundTrip.ParseOfPrint | 3rdparty/rapidjson/writer.h:238-329 | both parsers read what either writer wrote as exactly the events of the value, to the end |
| RoundTrip.DocumentRoundTrip | 3rdparty/rapidjson/prettywriter.h:85-188 | for every value without doubles, writing it compactly or with any indent and parsing the text, with either parser, builds the same value with the same member order and number flags in exactly one stack slot |
| RoundTripExact.ComesBackExactly | 3rdparty/rapidjson/writer.h:238-329 | a value without doubles comes back from the writer and either parser exactly if its strings are well-formed or neither an ASCII target nor a validating parser looks at them |
| RoundTripExact.AcceptedAreGood | 3rdparty/rapidjson/writer.h:256-287 | a run of events an ASCII writer accepts carries no ill-formed string |
| RoundTripExact.RefusesValue | 3rdparty/rapidjson/reader.h:456-540 | a validating parser refuses the text of every value with an ill-formed string anywhere in it |
| ValidatedStrings.WellFormedUnlessLoneLow | 3rdparty/rapidjson/reader.h:670-703 | a string a validating parser accepts is well-formed exactly if no escape in it is a low surrogate without a high one before it |
| ValidatedStrings.LoneLowIsAccepted | 3rdparty/rapidjson/reader.h:674-687 | every such escape is accepted, and gives an ill-formed string |
| PoolLayout.AlignRoundsUp | 3rdparty/rapidjson/rapidjson.h:172-174 | on 64-bit sizes the alignment macro does not lose bytes exactly up to 0xFFFFFFFC |
| PoolLayout.MallocIsSound | 3rdparty/rapidjson/allocators.h:171-179 | a Malloc gives an aligned block that fits in the used part and overlaps no other exactly when the macro does not cut its size short |
| PoolLayout.ReallocIsSound | 3rdparty/rapidjson/allocators.h:182-204 | so does a Realloc exactly when the macro does not cut short what it asks for: nothing if it shrinks, the increment if it grows in place, the new size if it adds a chunk or copies |
| PoolLayout.ClearIsSound | 3rdparty/rapidjson/allocators.h:142-148 | after Clear the blocks in the user's buffer are still apart |
| PoolLayout.RunIsSound | 3rdparty/rapidjson/allocators.h:171-204 | over a run no chunk is ever overfull, every live block always lies in the used part of its chunk at a multiple of 4, and no two non-empty ones overlap, exactly when the macro cuts none of its requests short |
| PoolLayout.MallocIsCounted | 3rdparty/rapidjson/allocators.h:163-179 | Size grows by exactly the aligned request |
| PoolLayout.UsedWithinCapacity | 3rdparty/rapidjson/allocators.h:153-168 | Size never exceeds Capacity |
| PoolWaste.MallocIsPacked | 3rdparty/rapidjson/allocators.h:171-179 | a Malloc leaves a chunk only for a request it had no room for, and adds one of the usual capacity or exactly as large as the request |
| PoolWaste.RunIsPacked | 3rdparty/rapidjson/allocators.h:142-204 | over every run two neighbouring chunks hold more than the older one has room for |
| PoolWaste.WasteIsBounded | 3rdparty/rapidjson/allocators.h:142-204 | so over every run of a pool without a user buffer, Capacity is at most twice Size and the newest chunk |
| PoolWaste.ReallocIsCounted | 3rdparty/rapidjson/allocators.h:182-204 | a Realloc costs nothing for a block that shrinks, the aligned increment for the newest block if its chunk has room, and otherwise the aligned new size |
| Allocator.MemoryPoolAllocator.NewChunk | 3rdparty/rapidjson/allocators.h:218-224 | the new chunk is linked in front of the others, which stay as they are |
| Allocator.MemoryPoolAllocator.Malloc | 3rdparty/rapidjson/allocators.h:171-179 | the layout changes as described, and no byte of an older chunk does |
| Allocator.MemoryPoolAllocator.Realloc | 3rdparty/rapidjson/allocators.h:182-204 | the layout changes as described, the block keeps its contents, and so does everything else that was handed out; the new block is as large as asked for exactly when the macro does not cut the request short |
| Allocator.MemoryPoolAllocator.Size | 3rdparty/rapidjson/allocators.h:163-168 | the loop over the links adds up what is used |
| Allocator.MemoryPoolAllocator.Capacity | 3rdparty/rapidjson/allocators.h:153-158 | the loop over the links adds up the capacities |
| Allocator.MemoryPoolAllocator.Clear | 3rdparty/rapidjson/allocators.h:142-148 | only the user's buffer is left in the list |
| DiyFps.MulWide | 3rdparty/rapidjson/internal/dtoa.h:79-85 | the 128-bit branch gives the product divided by 2^64, rounded to the nearest |
| DiyFps.MulHalves | 3rdparty/rapidjson/internal/dtoa.h:86-99 | the 32-bit branch gives the same, and none of its 64-bit steps overflows |
| DiyFps.ProductIsNearest | 3rdparty/rapidjson/internal/dtoa.h:72-100 | the result is within half a unit of the exact product |
| Grisu.CountDecimalDigit32 | 3rdparty/rapidjson/internal/dtoa.h:241-253 | n has exactly that many decimal digits |
| Grisu.GrisuRound | 3rdparty/rapidjson/internal/dtoa.h:232-239 | the last digit is lowered to the rest closest to wp_w that stays within delta, and never below zero |
| Grisu.RoundedIsBest | 3rdparty/rapidjson/internal/dtoa.h:232-239 | of all numbers with as many digits in the interval, the rounded one is closest to W |
| Grisu.IntegerDigits | 3rdparty/rapidjson/internal/dtoa.h:264-295 | the first loop either spells the whole integer part or stops with such a number |
| Grisu.FractionDigits | 3rdparty/rapidjson/internal/dtoa.h:297-311 | the second loop ends at the first digit that falls into the interval, indexes the table with the number of digits, past its end exactly from the tenth on, and otherwise leaves such a number; none of its 64-bit steps overflows |
| Grisu.IntegerNeeded | 3rdparty/rapidjson/internal/dtoa.h:264-295 | as long as the rest is beyond delta, no number with so few digits lies in the interval |
| Grisu.HitIsNeeded | 3rdparty/rapidjson/internal/dtoa.h:297-311 | nor does one with fewer digits of the fraction than the second loop makes |
| Grisu.DigitGen | 3rdparty/rapidjson/internal/dtoa.h:255-312 | for every W, Mp and delta in range: at most 19 decimal digits, the first not zero, of the number in [Mp - delta, Mp] closest to W, K grown by its exponent, exactly when the digits fall into the interval by the ninth of the fraction, and then no number with fewer digits lies in it above its lower end; otherwise an index past the table, or, for delta 0, no end |
| Grisu.InTableIs | 3rdparty/rapidjson/internal/dtoa.h:297-311 | the digits fall into the interval by the ninth of the fraction exactly if they do at the ninth, as they never leave it again |
| Grisu.LongEnough | 3rdparty/rapidjson/internal/dtoa.h:256-311 | no normalised Mp makes the loop index past the table exactly if delta * 10^9 > one - 512 |
| Grisu.NarrowRunsPastTheTable | 3rdparty/rapidjson/internal/dtoa.h:297-311 | for Mp just below 9, the loop indexes past the table exactly for the deltas with (delta + 1) * 10^9 <= one |
| Prettify.WriteExponent | 3rdparty/rapidjson/internal/dtoa.h:328-350 | writes the canonical decimal text of an exponent below 1000 in magnitude |
| Prettify.ShortDecimal | 3rdparty/rapidjson/internal/dtoa.h:334-347 | the three branches are the canonical decimal text |
| Prettify.PrettyKeepsValue | 3rdparty/rapidjson/internal/dtoa.h:352-391 | in all five layouts the text, read as a JSON number, is the digits times 10^k |
| Prettify.PrettyForm | 3rdparty/rapidjson/internal/dtoa.h:352-391 | an exponent is written exactly from 10^21 up and below 10^-6; any other number has one point with digits on both sides and no zero more than it needs |
| Prettify.MakePointed | 3rdparty/rapidjson/internal/dtoa.h:363-368 | the overlapping move opens a gap for the point |
| Prettify.MakeSmall | 3rdparty/rapidjson/internal/dtoa.h:369-378 | the overlapping move makes room for the zeros in front |
| Prettify.InPlace | 3rdparty/rapidjson/internal/dtoa.h:352-391 | Prettify lays the digits out in place, within 24 bytes for up to 17 digits |
| ConvertUtf.Value | server/include/ConvertUTF.c:479-520 | no legal sequence gives a surrogate or a number above 0x10FFFF, so strict and lenient mode do not differ |
| ConvertUtf.ConvertUTF8toUTF16 | server/include/ConvertUTF.c:459-528 | the loop with its two cursors writes, reads and returns what its description says, and nothing outside the target changes |
| ConvertUtf.ConvertUTF16toUTF8 | server/include/ConvertUTF.c:221-287 | the loop with its two cursors, writing each character from its last byte, does what its description says |
| Conversions.Resume | server/include/ConvertUTF.c:489-492 | a call that stopped with targetExhausted and the next one from its cursors do what one call with both rooms does |
| Conversions.MoreRoom | server/include/ConvertUTF.c:459-528 | a call that did not run out of target has the same outcome in any larger one |
| Conversions.CallsAreOne | server/include/ConvertUTF.c:459-528 | calls resumed in targets of any sizes make one conversion |
| UtfTrips.CutUnits | server/include/ConvertUTF.c:459-528 | so does ConvertUTF8toUTF16 |
| UtfTrips.CutBytes | server/include/ConvertUTF.c:221-287 | so does ConvertUTF16toUTF8, strict or not |
| UtfTrips.StopsAtBoundary | server/include/ConvertUTF.c:459-528 | wherever a call stops, what it has read is whole characters, and what it has written is these |
| UtfTrips.LegalIs | server/include/ConvertUTF.c:418-441 | isLegalUTF8 accepts the characters of RFC 3629 and, after ED and F4, second bytes below 0x80; nothing else |
| UtfTrips.UnitsAcceptWellFormed | server/include/ConvertUTF.c:459-528 | with room enough, a text without such a pair is accepted exactly when it is well-formed |
| UtfTrips.BytesAcceptWellFormed | server/include/ConvertUTF.c:221-287 | with room enough, strict conversion accepts exactly the well-formed UTF-16 of section 2.2 of RFC 2781 |
| UtfTrips.RoundTrip16 | server/include/ConvertUTF.c:221-287 | every well-formed UTF-16 text goes to UTF-8 and comes back unit for unit, both calls returning conversionOK |
| UtfTrips.RoundTrip8 | server/include/ConvertUTF.c:459-528 | every well-formed UTF-8 text goes to UTF-16 and comes back byte for byte |
| UtfTrips.BytesAreWellFormed | server/include/ConvertUTF.c:221-287 | whatever a strict conversion to UTF-8 writes is well-formed |
| UtfTrips.RestoredIfWellFormed | server/include/ConvertUTF.c:418-441 | of the texts that conversion to UTF-16 accepts, the way back restores exactly the well-formed ones, which are exactly those with no byte below 80 after ED or F4 |
| UtfTrips.LowSecondIsChanged | server/include/ConvertUTF.c:431 | a witness: ED 41 80 is accepted and comes back as EC 81 80 |
| UtfTrips.UnitsFit | server/include/ConvertUTF.c:459-528 | a target of as many units as there are bytes is always large enough |
| UtfTrips.BytesFit | server/include/ConvertUTF.c:221-287 | a target of three bytes for every unit is always large enough |
| UtfStops.Continue | server/include/ConvertUTF.c:459-528 | a text in two parts: when what the first call leaves is put in front of the second part, the two calls make of it what one call on the whole does |
| UtfStops.ContinueBytes | server/include/ConvertUTF.c:459-528 | so it is with UTF-8 cut between any two bytes |
| UtfStops.ContinueUnits | server/include/ConvertUTF.c:221-287 | and with UTF-16 cut between any two units, strict or not |
| UtfStops.StrictVerdict | server/include/ConvertUTF.c:221-287 | with room enough, strict conversion returns conversionOK exactly for well-formed text, sourceExhausted exactly if it is not but some continuation makes it so, sourceIllegal exactly if none does |
| UtfStops.StrictReadsLongest | server/include/ConvertUTF.c:221-287 | what it has read is the longest well-formed beginning |
| UtfStops.LenientVerdict | server/include/ConvertUTF.c:221-287 | lenient conversion never returns sourceIllegal, and sourceExhausted exactly for a high surrogate at the end |
| UtfStops.LenientIsStrict | server/include/ConvertUTF.c:221-287 | a well-formed text is converted alike in both modes |
| UtfStops.LoneIsWritten | server/include/ConvertUTF.c:221-287 | in lenient mode a surrogate without its partner is written as three bytes that are no UTF-8 |
| UtfStops.AskedIs | server/include/ConvertUTF.c:76-85 | the table of trailing bytes counts the leading bits of the first byte, less one, up to five |
| UtfStops.BytesVerdict | server/include/ConvertUTF.c:459-528 | with room enough, sourceExhausted means exactly that fewer bytes are left than the first of them asks for, and sourceIllegal exactly that they are there and are neither a character nor one the code takes for one |
| UtfStops.MoreMayHelp | server/include/ConvertUTF.c:459-528 | after sourceIllegal no continuation makes the text well-formed; after sourceExhausted one does exactly if what was read has no low second byte and what is left begins a character |
| UtfStops.ExhaustedForNothing | server/include/ConvertUTF.c:459-528 | a witness: E0 41 is exhausted although nothing can follow |
| MultiLine.MatchesIsSame | server/include/SimpleIni.h:2632-2666 | neither text is less than the other exactly when they are the same up to the folding of the comparator |
| MultiLine.FoldIs | server/include/SimpleIni.h:2651-2653 | without regard to case, the comparator tells all characters apart but the two cases of a letter of ASCII; otherwise all |
| MultiLine.LessIs | server/include/SimpleIni.h:2632-2666 | one text is less than another exactly if, after as many characters that are the same, it ends first or has the lesser one |
| MultiLine.LessOrders | server/include/SimpleIni.h:2632-2666 | the comparators are strict orders, and being neither less nor greater is transitive |
| MultiLine.IsLess | server/include/SimpleIni.h:2632-2666 | the comparing loop and its description |
| MultiLine.CollectLines | server/include/SimpleIni.h:1757-1793 | the loop collects exactly the lines in front of the tag, or stops too early at a line that matches it |
| MultiLine.LoadedUndoesOutput | server/include/SimpleIni.h:1696-1816 | LoadMultiLineText gives back what OutputMultiLineText wrote, and the data behind the tag, exactly for texts that are not empty, hold no CR and have no line that matches the tag; the tag may be empty |
| MultiLine.TakeLine | server/include/SimpleIni.h:1757-1770 | the line is moved down without touching what was not read yet |
| MultiLine.FindTag | server/include/SimpleIni.h:1720-1793 | over the whole loop the lines collected so far stand in front of the data not seen yet, and the write cursor never passes the read cursor |
| MultiLine.LoadMultiLineText | server/include/SimpleIni.h:1696-1816 | in its own buffer the loader leaves the value with a terminator behind it, and the data that comes next, or it reports no value and leaves the terminator on the first newline |
| MultiLine.NothingIs | server/include/SimpleIni.h:1796-1799 | it reports no value exactly for an empty tag and an empty first line |
| MultiLine.OutputMultiLineText | server/include/SimpleIni.h:2496-2521 | writes every line with the newline behind it, and leaves the text as it was |
| MatchServer.AutoMatchServer.MatchRequest | server/IntegretedServer/AutomatchServer.cpp:52-130 | the four maps and the messages sent change as described |
| MatchServer.AutoMatchServer.FindServer | server/IntegretedServer/AutomatchServer.cpp:90-112 | every connected server is asked, and only the first is recorded |
| MatchServer.AutoMatchServer.MatchCancel | server/IntegretedServer/AutomatchServer.cpp:132-146 | the wait at the key the index has for the session is removed, the index entry stays |
| MatchServer.AutoMatchServer.CreateGameResponseGot | server/IntegretedServer/AutomatchServer.cpp:149-185 | both sessions of a pending game are answered and the game is forgotten; an unknown game is ignored |
| MatchServer.AutoMatchServer.ServerRegister | server/IntegretedServer/AutomatchServer.cpp:187-249 | the list is updated or extended, and then in some order a sort may leave |
| MatchServer.AutoMatchServer.ServerTimeout | server/IntegretedServer/AutomatchServer.cpp:194-216 | the first entry with the id leaves the region's list |
| MatchServer.AutoMatchServer.ServerHeartBeat | server/IntegretedServer/AutomatchServer.cpp:251-271 | the first entry with the id, in the first region that has it, takes the session over |
| MatchSafety.StepBalance | server/IntegretedServer/AutomatchServer.cpp:52-185 | a step keeps every request accounted for exactly when it does not reuse the id of a pending game and does not cancel through a stale index entry |
| MatchSafety.EveryRequestHasOnePlace | server/IntegretedServer/AutomatchServer.cpp:52-185 | over every disciplined run the requests of a session are its answers, plus its waits, pending games and withdrawals, of which there is at most one |
| MatchSafety.MatchInverse | server/IntegretedServer/AutomatchServer.cpp:52-130 | a request keeps the index the inverse of the waiting users |
| MatchSafety.CancelInverse | server/IntegretedServer/AutomatchServer.cpp:132-146 | so does a session's last cancel, which finds its own wait |
| MatchSafety.CancelRemovesOwnWait | server/IntegretedServer/AutomatchServer.cpp:132-146 | after every disciplined run a cancel removes the wait of its own session and no other |
| MatchSafety.StaleEntryDropsAnother | server/IntegretedServer/AutomatchServer.cpp:132-146 | a second cancel of a session throws out whoever waits at that map by then |
| MatchRegistry.SortKeepsIdsDistinct | server/IntegretedServer/AutomatchServer.cpp:240-242 | whatever order a sort leaves, the ids stay distinct |
| MatchRegistry.RegistryInOrder | server/IntegretedServer/AutomatchServer.cpp:187-271 | after every run each region's list has distinct ids and is in order of priority |
| MatchRegistry.FirstConnected | server/IntegretedServer/AutomatchServer.cpp:92-112 | the first connected server of an ordered list has the least priority value of the connected ones |
| MatchRegistry.BestServer | server/IntegretedServer/AutomatchServer.cpp:92-112 | after every run a request that finds an opponent records a game exactly when a server is connected, and then with one no connected server of the region comes before |
| MatchAnswers.RequestIsAnswered | server/IntegretedServer/AutomatchServer.cpp:52-130 | over every run, a request sends nothing if nobody waits at its map; otherwise both users are refused exactly if they have the same name, both are told that there is no server exactly if none of the region is connected, and otherwise exactly the connected servers are asked, once each and in order, to make the game of the two with forces 1 and 2 in order of arrival |
| MatchAnswers.ResponseIsPassedOn | server/IntegretedServer/AutomatchServer.cpp:149-185 | over every run, a response to a pending game tells both users of it the same: exactly for the value 0 that it was made, with its id, the first server of the region that was connected at the request, and both users with forces 1 and 2 in order of arrival; otherwise that it failed, with the value; a response to any other game tells nobody |
| MatchAnswers.PendingUntilResponse | server/IntegretedServer/AutomatchServer.cpp:52-185 | a game is pending from the request that proposed it to the first response |
| MatchAnswers.OthersAnswerNobody | server/IntegretedServer/AutomatchServer.cpp:132-271 | no other call sends anything but the answer to a registration |
| MatchAnswers.RegisterEnters | server/IntegretedServer/AutomatchServer.cpp:187-249 | over every run, a registration enters the server with what it says now in the place of what it said before, and no other entry or region changes |
| MatchAnswers.TimeoutRemoves | server/IntegretedServer/AutomatchServer.cpp:194-216 | over every run, one that runs out takes that server away and no other |
| MatchAnswers.HeartBeatTakesOver | server/IntegretedServer/AutomatchServer.cpp:251-271 | over every run, a heart beat hands the entry in the first region that knows it to its session, and changes nothing else |

## Left out

- Doubles as text: shortest digits, the cached powers, `StrtodFastPath` and the accumulation in floating point. Only the integer half of Grisu2 is modelled, and values with doubles are not in the round trip.
- `GetCachedPower`, `Normalize` and `NormalizedBoundaries`: `DigitGen` is proved for every W, Mp and delta in range instead of those they produce.
- Writing doubles: the model's writer refuses them, where the source writes what `Grisu2` and `Prettify` make of them.
- ReadDecimal.PrettyIsRead: assumes of the arbitrary floating-point operations that 64-bit integers with up to two zeros appended are not above DBL_MAX / 10.
- Overflow of a signed int is undefined in the source's language; the model lets it wrap as two's complement does.
- Grisu.DigitGen: says where an index past the table of powers is used, and not what is read there: the last digit is not rounded then.
- Error codes' offsets: an error is a code only.
- A second recorded error overwrites the first, as with assertions switched off.
- Parsing in place (`ParseInsitu`), the copy flag of string events, short strings and the ownership of string memory: a string is its bytes.
- The reader's shared stack during strings: decoded bytes go to a sequence of their own. How the stack grows is not modelled.
- `ParseNull`, `ParseTrue` and `ParseFalse` are one member with the letters as an argument.
- ReadsDocument.ParseStream: hands the events to the document after the parse and not during it; the document never stops a parse, so no event depends on it.
- The other encodings of `encodings.h` (UTF-16, UTF-32, AutoUTF) and the file, memory and encoded streams: buffering and byte order only.
- Assignment, swapping, removal and lookup of members other than FindMember, and the typed getters: easy members.
- Equality.Equivalence: says nothing of trees with doubles, whose comparison is an arbitrary function here and in the source not reflexive.
- Allocator.MemoryPoolAllocator.Realloc: requires that the alignment macro does not cut the new size below the size that is copied, because the copy would run past the block. Pointers are a chunk and an offset; a pointer into one chunk never equals the end of another, as a header lies between.
- `Free`, destruction and the base allocator: a new chunk is memory of its own, with any contents.
- Lenient mode of `ConvertUTF8toUTF16` is the same as strict mode (`ConvertUtf.Value`); the branches it would take cannot be reached and are not written.
- The UTF-32 converters and `isLegalUTF8Sequence`.
- Comments read by `LoadMultiLineText` without a tag, the rest of the INI parser, and the converter between encodings, which is the identity here.
- Logging, hero picking by `rand` (a force is a user and a number), sockets, timers as such and the protobuf messages beyond the fields used.
- The other servers of the repository: small maps and lists, with only easy claims.
