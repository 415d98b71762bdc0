# Verified model of common-lib-c

A Dafny model of the hard parts of a C utility library, with proofs about it: the JSON codec, the task
pool, the pointer structures (stack, list, search tree), base64, integer printing and parsing, span
searches and the reading of a proxy's answer. `dafny verify dfyconfig.toml` checks everything.

The C functions that update fields, buffers or links are methods over classes and arrays. Each is proved
against a specification function; what the library promises is then proved about those functions, for all
inputs, all call sequences and all interleavings.

## Main results

- **The tokenizer is exact.** Repeated `json_reader_next_token` ends in `json_reader_done` with certain
  tokens if and only if the buffer has a derivation in the grammar of RFC 8259 (sections 2 and 4 to 7; string
  bytes from 0x80 up unchecked) with at most 64 open containers and those tokens. Deeper texts end in a
  nesting overflow. Every other answer is characterised too: an overflow means 64 open containers, an unexpected
  end that bytes are missing, an unexpected character that no further bytes can help.
- **Writer then reader is the identity.** For every run of append calls, failed ones and spliced fragments
  included, that ends at depth 0 with a value written, reading the document yields exactly the tokens of the
  successful calls when at most 64 containers are open at once, and a nesting overflow otherwise; strings and
  names unescape to the bytes given, integers read back equal.
- **The writer refuses nothing it should accept.** Each append call succeeds exactly when some JSON text goes on so and
  the limits and the room allow it; every value within the limits is written by the calls it spells, to its
  compact text.
- **Navigation.** `skip_children`, `find_property` and `for_each_array_element` land where the derivation of
  the document says they must.
- **Text comparison.** `json_token_is_text_equal` refines unescape-then-compare. Its converse is false of the
  code: a surrogate pair with six or more bytes behind it can be cut in two by the 16-byte chunking, and an
  empty token never equals a non-NULL empty text. The exact condition and a counterexample are proved.
- **The task protocol.** In every interleaving of callers and workers over any number of slots, reference
  counts are the number of holders, a slot is reused only when nobody holds it, a status only advances, and
  every reservation tells the same story: at most one continuation accepted, completion with the right status and
  the result that its own function returned, that continuation called once, the worker gone.
- **The tree traversals** refine pre-, in-, post-order recursion and the level order; destroying a tree frees
  every node once and reads none afterwards; adding any sequence of values and traversing in in-order shows
  those values sorted, duplicates kept.
- **The list** stays a well-formed ring; `list_remove_if` leaves exactly the unmarked and the unvisited nodes.
- **Base64, decimals, proxy answers**: the encoding of RFC 4648 bit by bit, round trips with exact domains, and a
  terminator search that does not depend on how the stream is cut.

## Layout

| files | content |
|---|---|
| Common | bytes, options, result codes, laws of concatenation |
| JsonLexical, JsonGrammar | RFC 8259 as predicates and derivation trees, with the scanners of the reader |
| JsonAutomaton, JsonTokenizer | the reader as a step function; soundness and completeness |
| JsonAnswers | what the answers other than ok mean |
| BitStack, JsonReader | the packed stack and the reader object |
| JsonNavigation | skipping, finding, visiting |
| JsonStrings, JsonToken | escaping, surrogates, UTF-8; unescaping and comparing |
| Decimal | printing and parsing integers |
| JsonWriting, JsonWriter | the writer as a step function, round trip and splicing; the writer object |
| JsonComposing | which append calls succeed, and that every value can be written |
| TaskPool, TaskProtocol | the critical sections; all their interleavings |
| Memory, Stackx, List | freed memory, the growing stack, the circular list |
| BstTree, BstInsert, BstTraverse, BstLevels, Bst | tree values and orders, insertion, the loops, the functions |
| Base64, ProxyResponse, Span | encoding, the proxy's answer, searching and splitting |

## How to read the model

- `Todo` in JsonTokenizer is what remains to be read of a derivation from a given state. `Step` and `Run` are
  the reader on values; `JsonReader` refines them field by field. `Stands` in JsonNavigation says that a cursor
  is at a place of a derivation.
- `Apply` and `WriteAll` are the writer on values; `JsonWriter` refines them over an array.
- The task protocol has one step per critical section. `Use` is one reservation of a slot with the standing of
  its caller and its worker and what has happened so far; `past` keeps the reservations that are over.
- Pointers are object references. A freed node is in `Allocator.freed`; the fields of list and tree nodes are
  reached through `At`, which no freed node admits, and `Free` requires that its argument is not freed yet.
- Callbacks: a list callback answers as a function of the data it has seen; a tree callback records the
  node, and frees it in the case of destruction; an array visitor is the number of tokens it reads and its answer.
- Where code and documentation disagree the code is followed. For a token of the reader,
  `json_token_get_string` gives the result that `inc/json.h:291-294` documents if and only if its surrogate
  escapes are paired; with an unpaired one, such as the body `\uD800`, it says `insufficient_size` however
  large the buffer, and not `unexpected_char` (`ResultIsDocumented`, `LoneSurrogateMisreported`). It never
  writes the NUL terminator that `inc/json.h:287` promises when there is room: all bytes behind the text stay
  as they were (`GetString`).

## Model

| member | source | states |
|---|---|---|
| JsonTokenizer.TokenizerExact | src/json_reader.c:415-462 | reading to the end yields certain tokens if and only if some derivation of the whole buffer, at most 64 containers deep, has those tokens |
| JsonTokenizer.DeepTextOverflows | src/json_reader.c:104-115 | a grammatical text nested deeper ends in a nesting overflow, after a prefix of its tokens |
| JsonTokenizer.TextDeterminesTokens | src/json_reader.c:415-462 | any two derivations of one text, however deep, have the same tokens and the same depth: the grammar is unambiguous about them |
| JsonTokenizer.CutsAlike | src/json_reader.c:415-462 | the same of what remains to be read from any one state of the reader |
| JsonTokenizer.RunComplete | src/json_reader.c:415-462 | from any place of any derivation the reader yields the remaining tokens, or overflows if they nest too deep |
| JsonTokenizer.RunSound | src/json_reader.c:415-462 | a run that ends in done has read a derivation from wherever it stood |
| JsonTokenizer.StepComplete | src/json_reader.c:333-462 | one call reads the next token of the derivation and stands at the following place |
| JsonTokenizer.StepSound | src/json_reader.c:333-462 | any successful call can be explained by a derivation whose next token it read |
| JsonAutomaton.Step | src/json_reader.c:415-462 | every successful call consumes at least one byte |
| JsonAutomaton.StepDone | src/json_reader.c:421-446 | done is reported only at the end of the buffer, with no container open and a value read |
| JsonAnswers.CharIsFinal | src/json_reader.c:415-462 | unexpected_char is answered exactly when no bytes behind the buffer change that answer, or the buffer ends inside a number |
| JsonAnswers.EndLacksBytes | src/json_reader.c:415-462 | unexpected_end is answered only where some bytes behind the buffer give another answer |
| JsonAnswers.OverflowIsDepth | src/json_reader.c:104-115 | nesting_overflow is answered exactly when 64 containers are open and the same reader with one less would open this one |
| JsonAnswers.FourAnswers | src/json_reader.c:415-462 | a call that is not ok answers done, unexpected_end, unexpected_char or nesting_overflow |
| JsonAnswers.StepLonger | src/json_reader.c:415-462 | what a call answers before the end of the buffer does not depend on the bytes behind it |
| JsonAnswers.OverflowMeansDepth | src/json_reader.c:104-132 | a text whose reading overflows has opened 64 containers at once, all still open |
| JsonAnswers.RefusedTextHasNoContinuation | src/json_reader.c:415-462 | no JSON text begins with a text that ends in unexpected_char, unless it ends inside a number |
| JsonLexical.ScanBodyComplete | src/json_reader.c:141-203 | a string body of the grammar followed by a quote is found whole, and its escaped flag is right |
| JsonLexical.ScanBodySound | src/json_reader.c:141-203 | what is accepted up to the quote is a string body of the grammar |
| JsonLexical.ScanNumberComplete | src/json_reader.c:242-308 | every number of the grammar is read to its end, whatever delimiter or end of buffer follows |
| JsonLexical.ScanNumberSound | src/json_reader.c:242-308 | what is accepted as a number is one of the grammar |
| JsonLexical.CharacterClasses | src/json_reader.c:68-81 | white space, digits, hex digits and escape letters are the characters of RFC 8259 |
| JsonLexical.CharForms | src/json_reader.c:157-192 | a plain character, a two-byte escape or a `u` escape, by the characters of section 7 of RFC 8259 |
| JsonLexical.NumberForms | src/json_reader.c:255-279 | minus, whole part and fraction by their characters |
| JsonLexical.ExponentForms | src/json_reader.c:281-294 | the exponent by its characters, of either case and sign |
| JsonGrammar.LiteralNames | src/json_reader.c:333-344 | the three literal names |
| JsonGrammar.StructuralTexts | src/json_reader.c:333-384 | brackets, comma, colon and quotes of a text |
| BitStacks.BitStack.Push | src/json_private.h:44-49 | below 64 levels the shifted word is the old stack with the item on top |
| BitStacks.BitStack.Pop | src/json_private.h:51-60 | removes the top, and leaves an empty stack empty |
| BitStacks.BitStack.Peek | src/json_private.h:62-65 | the kind of the innermost open container |
| JsonReaders.JsonReader.NextToken | src/json_reader.c:415-462 | the reader object takes exactly the step of the automaton |
| JsonReaders.JsonReader.SkipWhitespace | src/json_reader.c:68-81 | exactly the blank bytes are skipped |
| JsonReaders.JsonReader.ProcessContainerStart | src/json_reader.c:104-115 | pushes the container, or overflows at 64 and changes nothing |
| JsonReaders.JsonReader.ProcessContainerEnd | src/json_reader.c:117-132 | closes only the innermost container, and only with its own bracket |
| JsonReaders.JsonReader.ProcessPropertyName | src/json_reader.c:205-219 | a name, blanks and a colon |
| JsonReaders.JsonReader.ProcessLiteral | src/json_reader.c:314-327 | a literal whole, or the end of the buffer told from another byte |
| JsonReaders.JsonReader.ProcessValue | src/json_reader.c:333-344 | the value its first byte announces |
| JsonReaders.JsonReader.ReadFirstToken | src/json_reader.c:346-353 | the first value, and whether the document is complex |
| JsonReaders.JsonReader.ProcessString | src/json_reader.c:141-203 | reads a string as the automaton does, position and token included |
| JsonReaders.JsonReader.FindClosingQuote | src/json_reader.c:149-196 | the byte loop agrees with the recursive scanner on every input |
| JsonReaders.JsonReader.FindNumberEnd | src/json_reader.c:242-304 | the number loops agree with the recursive scanner on every input |
| JsonReaders.JsonReader.ProcessNumber | src/json_reader.c:242-308 | reads a number and checks what follows it |
| JsonReaders.JsonReader.ProcessAfterValue | src/json_reader.c:355-384 | comma, name or close after a value, position moves included |
| JsonReaders.JsonReader.Rewind | src/json_reader.c:488-492 | the reader is as it was made |
| JsonReaders.JsonReader.SkipChildren | src/json_reader.c:464-485 | the loop does what the recursive skip does |
| JsonReaders.JsonReader.FindProperty | src/json_reader.c:494-537 | the loop finds what the recursive search finds |
| JsonReaders.JsonReader.ForEachArrayElement | src/json_reader.c:539-576 | the loop visits what the recursive tour visits; any token but an array's begin is refused |
| JsonNavigation.SkipExact | src/json_reader.c:464-485 | on the first token of a value, skipping ends on its last token, with the reader behind the value |
| JsonNavigation.SkipNameExact | src/json_reader.c:464-485 | on a property name, skipping ends on the last token of that property's value |
| JsonNavigation.SkipReads | src/json_reader.c:464-485 | on any input skipping is some number of calls of next_token, none on a token that opens nothing |
| JsonNavigation.DrainExact | src/json_reader.c:471-482 | reading until a depth is reached stops on the close of exactly that container |
| JsonNavigation.FindExact | src/json_reader.c:494-537 | on an object: the value of its first own property with an equal name, or its own end; nested names never match |
| JsonNavigation.FindFromInside | src/json_reader.c:494-537 | from a name the search goes on with that property, from the object's end it ends at once, from any other token it is refused |
| JsonNavigation.FindReads | src/json_reader.c:494-537 | on any input a search ends where some number of calls of next_token end, with their error, or at a token out of place |
| JsonNavigation.ScanExact | src/json_reader.c:508-536 | the same from any name of the object on |
| JsonNavigation.ForEachExact | src/json_reader.c:539-576 | each element visited once, in order, ending on the matching close, whatever part of each element the visitor reads; a refusal ends the tour there |
| JsonNavigation.ElementExact | src/json_reader.c:553-572 | after one visit the reader is drained to the end of that element |
| JsonNavigation.TourReads | src/json_reader.c:539-576 | on any input a tour ends at an array's end, with an error of next_token or with a visitor's answer |
| JsonNavigation.ReaderStands | src/json_reader.c:415-462 | a reader started on a document within the limit stands, after any number of its tokens, before exactly the others |
| JsonStrings.UnescapeConcat | src/json_token.c:320-393 | unescaping distributes over concatenation at a boundary between escapes |
| JsonStrings.UnescapeDefined | src/json_token.c:320-393 | on reader-accepted bodies unescaping succeeds exactly when surrogate escapes are paired |
| JsonStrings.Utf8RoundTrip | src/json_token.c:259-299 | the bytes emitted for any Unicode scalar value decode back to it, by section 3 of RFC 3629 |
| JsonStrings.SpellingUnescapes | src/json_token.c:248-393 | every escape or pair that spells a scalar value, its digits read by their places in `0123456789abcdef` in either case, unescapes to its UTF-8 |
| JsonStrings.EveryScalarIsSpelled | src/json_token.c:303-316 | every scalar value has such a spelling |
| JsonStrings.LetterEscapes | src/json_token.c:341-385 | the two-byte escapes are the eight letters of RFC 8259 with their values, the slash included, and no others |
| JsonStrings.SpelledTextRoundTrip | src/json_token.c:320-393 | a whole text of escapes unescapes to bytes that decode to the text |
| JsonStrings.EscapeInvertible | src/json_writer.c:300-344 | unescaping what was escaped gives the original bytes, and the escaped form is a string body: no raw quote or control byte |
| JsonStrings.EscapeForms | src/json_writer.c:300-344 | the writer escapes quote, backslash and controls only, with letters where there are some and six bytes with upper-case digits otherwise |
| JsonStrings.EscapeInjective | src/json_writer.c:300-344 | different strings are written differently |
| JsonTokens.UnescapeInto | src/json_token.c:320-393 | succeeds exactly when the escapes decode and the result fits; writes it there and nothing behind it |
| JsonTokens.ReadHex4 | src/json_token.c:303-316 | the value of four hexadecimal digits of either case, or none |
| JsonTokens.ReadEscape | src/json_token.c:336-387 | what one escape stands for, pairs included, and how long it is |
| JsonTokens.CompareChunk | src/json_token.c:512-521 | a chunk matches exactly when it unescapes to the head of what is left of the text |
| JsonTokens.GetString | src/json_token.c:406-442 | success exactly when the token has a meaning that fits, which is never longer than the source; the meaning is written and every byte behind it, a terminator's place included, is left as it was |
| JsonTokens.ResultIsDocumented | src/json_token.c:431-437 | the result is the documented one exactly when surrogate escapes are paired; otherwise it is insufficient_size for every capacity |
| JsonTokens.LoneSurrogateMisreported | src/json_token.c:431-437 | a token of the reader, a lone high surrogate, that is reported too big for any buffer |
| JsonTokens.FindBoundary | src/json_token.c:476-510 | the chunk ends between escapes, or within a pair with enough bytes behind it |
| JsonTokens.EscapedEqual | src/json_token.c:463-525 | the chunk loop computes the specification of the comparison |
| JsonTokens.IsTextEqual | src/json_token.c:444-526 | the comparison, escaped or not, NULL texts included |
| JsonTokens.TextEqualSound | src/json_token.c:444-526 | true implies that the unescaped token is the expected text |
| JsonTokens.TextEqualExact | src/json_token.c:444-526 | of an equal text it says true exactly when no surrogate pair has six bytes behind it and no empty token meets a non-NULL text |
| JsonTokens.EarlyPairExact | src/json_token.c:476-510 | the pairs in question are the spellings of values above FFFF that stand behind decodable text with six or more bytes behind them |
| JsonTokens.OtherTokensDiffer | src/json_token.c:446-450 | a token that is neither a string nor a name equals no text |
| JsonTokens.TextEqualIsEquality | src/json_token.c:444-526 | without surrogates and with a body it is equality with the unescaped token |
| JsonTokens.EarlyPairReportedDifferent | src/json_token.c:489-498 | every pair followed by six bytes of body is reported different from its own text |
| JsonTokens.TextEqualIncomplete | src/json_token.c:489-498 | a concrete token that differs from its own text |
| Decimal.FormatUint64 | src/json_writer.c:31-61 | writes canonical decimal text, or nothing when it does not fit |
| Decimal.ReverseDigits | src/json_writer.c:33-48 | at most twenty digits, those of the canonical text from the last |
| Decimal.CopyInt32 | src/span.c:270-330 | every int32, the least included, printed canonically with truncating division by a possibly negative mask |
| Decimal.FirstMask | src/span.c:281-303 | the mask loop stops at the power of ten of the first digit, with the sign of the value |
| Decimal.CopyDigits | src/span.c:304-317 | the digit loop writes the digits of the magnitude at fixed width, sign of the mask regardless |
| Decimal.FixedIsDecimal | src/span.c:304-317 | digits from the highest mask down are the canonical text |
| Decimal.ParseUint64Digits | src/json_token.c:48-66 | succeeds exactly when there is a digit and the value fits 64 bits: the overflow guard is exact |
| Decimal.PureInteger | src/json_token.c:69-89 | sign and magnitude of an integer text, nothing of any other |
| Decimal.GetUint64 | src/json_token.c:91-103 | ok exactly when the number is an integer within the range, with its value |
| Decimal.GetUint32 | src/json_token.c:105-113 | the same for 32 bits |
| Decimal.GetInt64 | src/json_token.c:115-137 | the same for signed 64 bits, the least value included |
| Decimal.GetInt32 | src/json_token.c:139-147 | the same for signed 32 bits |
| Decimal.GetterExact | src/json_token.c:69-147 | a getter accepts a number token exactly when it has no fraction or exponent and its value fits |
| Decimal.GetterRefuses | src/json_token.c:69-147 | invalid_state exactly for a token that is no number, otherwise unexpected_char |
| Decimal.NumberIsInteger | src/json_token.c:69-89 | a number of the grammar spells an integer exactly when it has no fraction and no exponent |
| Decimal.IntTextValue | src/span.c:270-330 | printing and then parsing any integer gives it back |
| Decimal.DigitsArePositional | src/json_token.c:48-66 | the value of a row of digits is positional to the base ten |
| Decimal.DigitValue | src/json_writer.c:33-48 | the value and the text of each single digit |
| Decimal.IntIsCanonical | src/json_writer.c:31-61 | an integer of the grammar is the printed form of its value |
| JsonWriting.WriterThenReader | src/json_writer.c:372-693 | any closed run of calls leaves a grammatical document whose tokens are those of the successful calls; the reader yields them, or overflows beyond 64 open containers |
| JsonWriting.WriterThenReaderSays | src/json_writer.c:372-611 | without fragments the read tokens mean the calls: unescaped strings and names, equal integers |
| JsonWriting.SpliceExact | src/json_writer.c:656-693 | a fragment that is valid alone contributes its own tokens wherever a value may stand, a bare number included |
| JsonWriting.SessionExact | src/json_writer.c:372-693 | from any reachable writer a closed run writes the rest of a derivation with the tokens of its calls |
| JsonWriting.CallsOnlyAdd | src/json_writer.c:372-693 | a failed call changes nothing; a successful one only adds at the end |
| JsonWriting.DocumentFits | src/json_writer.c:372-693 | the document never outgrows the destination |
| JsonWriting.DepthIsMaxOpen | src/json_reader.c:104-132 | the depth of a derivation is the greatest number of containers open in its tokens |
| JsonComposing.CallAnswer | src/json_writer.c:202-631 | every answer of every append call: invalid_argument exactly when no JSON text goes on so or a text is beyond its limit, then nesting_overflow exactly for a 65th container, then insufficient_size exactly for want of room, otherwise ok |
| JsonComposing.FragmentAnswer | src/json_writer.c:635-693 | the same for splicing, with the reader's error for a bad fragment and invalid_state for a misplaced one |
| JsonComposing.EveryValueIsWritten | src/json_writer.c:372-631 | for every value at most 64 deep and within the string limits, the calls it spells all succeed given its size and eleven bytes more, leave exactly its compact text, and read back as those calls |
| JsonWriters.EscapedLength | src/json_writer.c:260-296 | exactly the length of the escaped form, and the first byte that needs an escape |
| JsonWriters.EscapeOneByte | src/json_writer.c:300-344 | the escape of one byte, or nothing when it does not fit |
| JsonWriters.JsonWriter.StoreEscaped | src/json_writer.c:399-423 | the copied prefix and the bytes escaped after it are the escaped form |
| JsonWriters.JsonWriter.WriteQuotedString | src/json_writer.c:372-435 | comma, quotes, escapes and colon, or an error that leaves the document as it was |
| JsonWriters.JsonWriter.CanAppend | src/json_writer.c:202-220 | a value may stand here, by the innermost container and the last token |
| JsonWriters.JsonWriter.CanName | src/json_writer.c:222-233 | a name may stand here |
| JsonWriters.JsonWriter.CanEnd | src/json_writer.c:235-251 | the innermost container may be closed so |
| JsonWriters.JsonWriter.AppendStringValue | src/json_writer.c:437-444 | the call's effect as specified |
| JsonWriters.JsonWriter.AppendName | src/json_writer.c:446-453 | the call's effect as specified, empty names refused |
| JsonWriters.JsonWriter.AppendLiteral | src/json_writer.c:455-479 | comma and literal, or an error that leaves the document as it was |
| JsonWriters.JsonWriter.AppendBoolean | src/json_writer.c:481-488 | the call's effect as specified |
| JsonWriters.JsonWriter.AppendNullValue | src/json_writer.c:490-493 | the call's effect as specified |
| JsonWriters.JsonWriter.AppendInteger | src/json_writer.c:495-527 | the call's effect as specified |
| JsonWriters.JsonWriter.AppendContainerStart | src/json_writer.c:562-592 | the call's effect on document and stack as specified |
| JsonWriters.JsonWriter.AppendContainerEnd | src/json_writer.c:594-611 | a close is accepted only for the innermost container and not after a name |
| JsonWriters.JsonWriter.BeginObjectValue | src/json_writer.c:613-616 | the call's effect as specified |
| JsonWriters.JsonWriter.BeginArrayValue | src/json_writer.c:618-621 | the call's effect as specified |
| JsonWriters.JsonWriter.EndObjectValue | src/json_writer.c:623-626 | the call's effect as specified |
| JsonWriters.JsonWriter.EndArrayValue | src/json_writer.c:628-631 | the call's effect as specified |
| JsonWriters.JsonWriter.ValidateJsonText | src/json_writer.c:635-654 | ok exactly when the reader reads the fragment to its end |
| JsonWriters.JsonWriter.AppendFragment | src/json_writer.c:656-693 | the call's effect as specified |
| JsonWriters.JsonWriter.Perform | src/json_writer.c:437-693 | whichever call it is, the buffer, the stack and the result are those of the specification |
| JsonWriters.JsonWriter.PerformAll | src/json_writer.c:437-693 | a run of any calls leaves in the buffer the document of the specified run, with its results one by one |
| TaskPool.Pool.ReserveTask | src/task.c:211-238 | takes the first slot not in use, or none when all are; no other slot changes |
| TaskPool.Pool.ReleaseReservation | src/task.c:240-247 | undoes a reservation that got no thread |
| TaskPool.Pool.DecrementRef | src/task.c:28-48 | one reference less; free when none is left |
| TaskPool.Pool.StartRunning | src/task.c:57-60 | only the status changes |
| TaskPool.Pool.Publish | src/task.c:66-90 | result and terminal status together, and the continuation captured |
| TaskPool.Pool.RequestCancel | src/task.c:328-339 | only the request flag changes |
| TaskPool.Pool.ContinueWith | src/task.c:478-503 | registers the first continuation before completion, refuses every other |
| TaskPool.FirstResultWins | src/task.c:555-574 | of any number of completions the first wins, only it, and its result stays |
| TaskPool.CompletionSource.SetResult | src/task.c:555-574 | one completion attempt as specified |
| TaskProtocol.ReferencesExact | src/task.c:28-106 | in every reachable state the count is caller plus worker holding, and a slot is in use exactly while it is positive |
| TaskProtocol.ReserveIsSafe | src/task.c:211-238 | a reservation never takes a slot with a holder, and is possible whenever some slot has none |
| TaskProtocol.ReservationsTellStories | src/task.c:53-106 | every reservation, past ones included: at most one continuation accepted, refusals only after, one completion with the result that its own function returned, canceled exactly when that is cancelled or a cancel request came first and faulted exactly on another error, the accepted continuation called once after it and before the worker leaves |
| TaskProtocol.ShowsWhatWasReturned | src/task.c:62-89 | in every reachable state a slot whose worker has published shows the result its own function returned, and the status published with it; a slot whose reservation failed is idle |
| TaskProtocol.RunAdvances | src/task.c:53-106 | within a reservation the status goes pending, running, terminal; a terminal status and its result never change |
| TaskProtocol.RunInv | src/task.c:28-106 | the invariant of slots and threads holds in every interleaving |
| TaskProtocol.StepInv | src/task.c:28-106 | every critical section keeps it |
| TaskProtocol.SlotComesBack | src/task.c:96-106 | from every reachable state at most seven steps, all of that slot's own caller and worker, free it: none is lost |
| Stacks.Stack.Push | src/stackx.c:28-56 | the contents with the value on top, grown by one place when full |
| Stacks.Stack.Pop | src/stackx.c:58-73 | the top and the contents below it; nothing of an empty stack |
| Stacks.Stack.Top | src/stackx.c:75-86 | the top, if any |
| Lists.List.Add | src/list.c:33-72 | a fresh last node in a well-formed ring; data and order of the others unchanged |
| Lists.List.RemoveNode | src/list.c:74-107 | exactly that node leaves the ring and is freed, head and only node included |
| Lists.List.ForEach | src/list.c:109-136 | visits the nodes from the head until the callback stops or all are seen |
| Lists.List.RemoveIf | src/list.c:138-179 | visits each node once until the callback stops, leaves the unmarked and the unvisited in order, frees exactly the rest |
| Lists.KeptExact | src/list.c:138-179 | what is left of the visited nodes is the unmarked ones, each once and in order |
| Lists.List.Deinit | src/list.c:14-31 | every node freed once, none read afterwards |
| Lists.List.FreeFrom | src/list.c:23-29 | the loop over the broken ring frees exactly its nodes, each read before it is freed |
| BinarySearchTree.Add | src/bst_redblack.c:8-56 | the heap holds the tree with the new leaf where the search ends, parent links included; nodes stay distinct |
| BinarySearchTree.AddAll | src/bst_redblack.c:8-56 | any run of additions from the empty tree links exactly the tree grown by them, of distinct live nodes |
| BinarySearchTree.Traverse | src/bst_redblack.c:80-254 | every order shows exactly its specified sequence, and frees no older memory |
| BinarySearchTree.Destroy | src/bst_redblack.c:256-265 | frees exactly the nodes of the tree, each once |
| BinarySearchTree.InOrderSorts | src/bst_redblack.c:122-158 | wherever the tree of any additions hangs in the heap, in-order shows the added values sorted, duplicates kept |
| BinarySearchTree.AddAndShow | src/bst_redblack.c:8-158 | adding any values and traversing in in-order shows them sorted, each as often as it was added |
| BinarySearchTree.LinkedHangs | src/bst_redblack.c:8-56 | what Add builds can be traversed |
| TreeTraversal.VisitPreOrder | src/bst_redblack.c:84-121 | the stack loop emits the recursive pre-order |
| TreeTraversal.VisitInOrder | src/bst_redblack.c:122-158 | the stack loop emits the recursive in-order |
| TreeTraversal.VisitPostOrder | src/bst_redblack.c:159-209 | the loop with the last visited node emits the recursive post-order and reads no node after its callback |
| TreeTraversal.PostTop | src/bst_redblack.c:184-205 | the test on the last visited node tells whether the right subtree is done |
| TreeLevels.VisitBreadthFirst | src/bst_redblack.c:210-252 | the queue loop emits the levels in order |
| Trees.EachOnce | src/bst_redblack.c:80-254 | every order shows a node as often as it stands in the tree: once when nodes are distinct |
| Trees.OrderExact | src/bst_redblack.c:80-254 | in each of the four orders, of two places of a tree the one that the order puts first is shown first |
| Trees.NextLevel | src/bst_redblack.c:226-243 | the children of a level are the next level |
| TreeInsertion.InsertPlace | src/bst_redblack.c:19-52 | the new node takes the place before all values not smaller in in-order; the rest keep their order and the tree stays searchable |
| TreeInsertion.GrownExact | src/bst_redblack.c:8-56 | whatever is added, the tree is searchable, its values sorted and those added with every duplicate |
| TreeInsertion.GrownDistinct | src/bst_redblack.c:8-56 | different nodes added are different nodes of the tree |
| Base64.Encode | src/base64.c:8-44 | writes the encoding and nothing behind it, or nothing when it does not fit |
| Base64.Decode | src/base64.c:61-103 | writes the decoded bytes and nothing behind them, for any text of whole groups |
| Base64.RoundTrip | src/base64.c:8-103 | decoding an encoding gives the input |
| Base64.EncodedExact | src/base64.c:5-44 | character k is the one of the alphabet at the number that bits 6k to 6k + 5 of the input make, and `=` fills the last group, by section 4 of RFC 4648 |
| Base64.DecodedExact | src/base64.c:46-103 | bits 6k to 6k + 5 of the output are the place of character k in the alphabet, zero for any other byte; one byte less for either of the last two characters that is `=` |
| Base64.PlaceInAlphabet | src/base64.c:5-5 | the encoding table is the alphabet of RFC 4648, place by place |
| Base64.ValueIsPlace | src/base64.c:48-58 | the decoding of a character is its place in the alphabet, and zero for any other byte |
| Base64.CanonicalExact | src/base64.c:8-103 | encoding after decoding is the identity exactly on canonical texts |
| Base64.EncodedIsCanonical | src/base64.c:8-44 | every encoding is canonical |
| Base64.EncodedSizeExact | src/base64.c:10-10 | the 32-bit size is right exactly up to 3 * (2^30 - 1) bytes |
| Base64.EncodeShifts | src/base64.c:21-31 | the four shifts and masks of the 24-bit sum are its sextets |
| Base64.DecodeShifts | src/base64.c:87-94 | the three shifts and masks of the 24-bit sum are its bytes |
| ProxyResponse.ReadResponse | src/socket.c:1214-1283 | the loop's result, consumption and buffer are those of the outcome function, for any script of portions and failures |
| ProxyResponse.PeekMore | src/socket.c:1237-1237 | the buffer holds what it held and the bytes peeked, as many as are there and fit |
| ProxyResponse.OutcomeSound | src/socket.c:1214-1283 | success consumes exactly up to the first blank line; an error never consumes its end |
| ProxyResponse.OutcomeExact | src/socket.c:1214-1283 | while bytes keep coming the answer is found exactly when it ends within the capacity and within the bytes offered, however they are cut |
| ProxyResponse.BrokenTurnEnds | src/socket.c:1230-1275 | a timeout, a failure, a closed connection or a read that takes nothing ends the reading: nothing that comes later matters |
| ProxyResponse.FindTerminator | src/socket.c:1258-1266 | the search loop finds the first end among the bytes at hand |
| ProxyResponse.ParseStatus | src/socket.c:1286-1317 | the code of a status line, of exactly the lines accepted |
| ProxyResponse.StatusLineExact | src/socket.c:1286-1317 | the accepted lines are exactly `HTTP/1.`, a digit, a space, three digits and a space or carriage return, and the status is the value of the three digits |
| Spans.Find | src/span.c:98-129 | the first occurrence from a start on, or none, with what follows it |
| Spans.FindReverse | src/span.c:131-162 | the last occurrence that ends by a start, or none |
| Spans.MatchBack | src/span.c:145-153 | the inner loop compares from the end and runs through exactly at an occurrence |
| Spans.Iterate | src/span.c:165-197 | yields the first item, and a remainder whose items are the others |
| Spans.SplitJoins | src/span.c:165-197 | the items joined are the span, but for a delimiter at its very end; no item contains the delimiter |

## Left out

- Floating point: formatting, parsing and appending doubles.
- NULL arguments and failed allocations, apart from the NULL texts of the text comparison.
- The reader after a result other than ok: positions move before some errors are reported.
- `circular_list.c`: removing from a two-node list empties it, so the natural contracts are false there.
- Red-black balance and colours beyond the flag a new node gets; removal from the tree is a stub.
- Waiting: `task_wait_any`, timeouts and the condition variables; `task_platform_deinit`.
- Sockets, TLS, event loop, logging, regular expressions, HMAC and argument parsing, which are mostly calls into
  the operating system and other libraries.
- `span_to_uint32_t`, `span_copy_n`, case-insensitive comparison and `span_split`: single loops or branches.
- JsonReaders.JsonReader.NextToken: the buffer is a value that nobody changes while it is read, and its length is at least 16 below 2^32, where index sums would wrap.
- JsonWriters.JsonWriter.ValidateJsonText: a fragment at least 16 bytes below 2^32, as the reader that validates it needs.
- JsonWriters.JsonWriter.AppendFragment: a fragment at least 16 bytes below 2^32, as the reader that validates it needs.
- JsonWriters.JsonWriter.Perform: a fragment at least 16 bytes below 2^32, as the reader that validates it needs.
- JsonWriters.JsonWriter.PerformAll: a fragment at least 16 bytes below 2^32, as the reader that validates it needs.
- JsonNavigation.ForEachExact: a visitor that leaves its element, or keeps the reader for itself, is not modelled.
- JsonWriters.JsonWriter.WriteQuotedString: overlap of the destination with the string written is not modelled.
- JsonStrings.Utf8RoundTrip: the masks and shifts of the encoder are written as quotients and sums.
- TaskProtocol.ReservationsTellStories: handles are used only between task_run and release, as the header asks; memory ordering is that of the locks.
- TaskProtocol.SlotComesBack: says that a finishing schedule exists, not that the scheduler chooses it.
- Lists.List.RemoveIf: a callback that itself changes the list is not modelled; the data buffer of a node is freed with the node.
- BinarySearchTree.Traverse: a callback that changes links is not modelled.
- Base64.Encode: inputs for which the 32-bit size wraps, which are those EncodedSizeExact names.
- Base64.Decode: empty input, for which the source reads before the buffer.
- ProxyResponse.ReadResponse: time is a script of events; when it ends the time allowed is over.
- Spans.Find: spans of 2^31 bytes and more, for which the source's signed 32-bit positions wrap.
- Spans.FindReverse: spans of 2^31 bytes and more, for the same reason.
- Spans.MatchBack: spans of 2^31 bytes and more, for the same reason.
- Spans.Iterate: spans of 2^31 bytes and more, for the same reason.
