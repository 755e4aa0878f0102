# Verified models of the JSON reader, the hash table and the event queues

The program drives test transactions: a manager parses task requests in JSON, hands commands to worker
threads through ring buffers and wake bytes, and each worker runs batches of transactions that step through
a script. This project models three of its components in Dafny and proves what they promise.

## The JSON reader and writer (`src/jsoncpp.cpp`)

`Bytes`, `Decimal`, `Utf8`, `Quote`, `JsonValue` and `JsonOrder` hold the exact codecs, the value tree and its
order. `Reader` is the recursive-descent parser as a class over a cursor, a node stack and an error list; each
method is proved against a function of `ReaderSpec`. `FastWriter` is the printer, likewise.

The specification functions are then tied to independent definitions. The grammar and its meaning name no function
of the reader: it has its own blanks, escapes, digits, integers and lexemes. It uses three functions that are tied
down elsewhere: the UTF-8 encoding of a code point (`Utf8`), the number that decimal digits denote (`Decimal`) and
the map update of an object (`JsonValue`).

* `StringSyntax` and `Syntax` are a grammar in the shape of RFC 8259 (strings of section 7, comments allowed
  in the gaps) with the value each derivation means. `Accepts` proves that every document of the grammar is
  accepted with its meaning, `AcceptsOnly` that nothing else is: `parse` succeeds with a value **if and only if**
  the document has a derivation with that meaning, nested at most 1000 deep. `Lexing` holds the token half.
  Two productions are this reader's own, and `Leniency` shows a document for each.
* `RoundTrip` shows that what `FastWriter` prints is in the grammar, and obtains printing followed by parsing
  for **every** tree without reals, on arbitrary bytes: it succeeds exactly within the stack limit, and gives
  the tree back, integers retagged by value, exactly when every string and key is well-formed UTF-8.
* `Outcomes` says how the reader ends on every byte string, malformed ones included: with a value, at the stack
  limit, or with one error, which error and at which token. `StringSyntax` does the same for strings.
* `Reparse` shows that everything the reader yields is a fixed point of that round trip.

## The chained hash table (`src/hashtable`)

`HashTable` and `HashIterator` are the heap-linked table and the iterator that deletes while it walks, with the
chains as a ghost sequence. `HashSpec` is the table on values; `HashRuns` proves that over every run it refines
a map from keys to stacks, `HashMap` that used as documented, "remove before insert", it is an ordinary map from
its creation on; `HashGrowth` bounds what all expansions of a run cost.

## Queues, workers and transactions (`src/ringbuff.h`, `src/mptthreadpool.C`, `src/transaction.C`, `src/script.C`)

`Ring` is the ring buffer as a class; `RingSteps` has one step per shared read or write. `WorkerProtocol` and
`EventProtocol` put a producer and a consumer around those steps and prove, over all interleavings, both safety and
progress: offers are answered, events delivered and commands executed after so many steps of the thread that does it.
`EventProtocol` also proves the queue linearizable against `AtomicQueue`, and `EventRefinement` that the rounds of
`Transaction`, the step machine of `onEvent`, see what the interleaved queue lets them see. `Script` has the
compare-and-swap counters, `TaskRunner` the batch scheduler, and `Runs` carries an invariant or a measure along a
run. All interleavings are those of sequential consistency.

## Model

| member | source | states |
|---|---|---|
| Decimal.UintToString | src/jsoncpp.cpp:164-170 | a NUL and before it the canonical decimal numeral stand right-aligned in front of the old cursor, nothing else in the buffer changes, and at most 21 of the 25 bytes are used |
| Decimal.ValueToStringSigned | src/jsoncpp.cpp:4260-4274 | for every int64, the minimum included, the text is the canonical numeral with its sign and the buffer assertion holds |
| Decimal.NegativeToString | src/jsoncpp.cpp:4263-4268 | the numeral and its minus sign stand right-aligned in the buffer |
| Decimal.ValueToStringUnsigned | src/jsoncpp.cpp:4276-4282 | the same for every uint64 |
| Decimal.MagnitudeOfDigits | src/jsoncpp.cpp:164-170 | the numeral printed for n denotes n and has no leading zero |
| Decimal.DigitsOfMagnitude | src/jsoncpp.cpp:164-170 | and it is the only numeral without a leading zero that denotes n |
| Decimal.Below64Bits | src/jsoncpp.cpp:150-157 | every uint64 has at most 20 digits, so the buffer suffices |
| Decimal.DecodeNumber | src/jsoncpp.cpp:794-834 | an integer results exactly for an optional minus and digits of magnitude at most 2^63 or 2^64-1, it is that integer with the tag of its size, and the accumulator never wraps; every other token goes to `decodeDouble` |
| Decimal.NextDigit | src/jsoncpp.cpp:812-823 | one digit is added when and only when the whole magnitude can still fit |
| Decimal.DecodeOfIntText | src/jsoncpp.cpp:794-834 | decoding what was printed for any int64 or uint64 recovers the number |
| Utf8.ScanOfEncoded | src/jsoncpp.cpp:4359-4408 | `utf8ToCodepoint` undoes `codePointToUTF8` on every scalar value, whatever bytes follow |
| Utf8.EncodedOfScan | src/jsoncpp.cpp:122-148 | `codePointToUTF8` undoes `utf8ToCodepoint` on every UTF8-char of section 4 of RFC 3629 |
| Utf8.ScanIsShortest | src/jsoncpp.cpp:4359-4408 | on any bytes, a code point of Unicode other than U+FFFD is met only where its encoding has the length and the low bits of the bytes passed: no overlong form and no surrogate |
| Utf8.WellFormedDecodes | src/jsoncpp.cpp:4359-4408 | scanning a well-formed text meets scalar values only, whose encodings are the text |
| Utf8.EncodedIsWellFormed | src/jsoncpp.cpp:122-148 | encoding scalar values gives a well-formed text that scans back to them |
| Utf8.WellFormedIffEncoded | src/jsoncpp.cpp:122-148 | the well-formed texts are exactly the encodings of scalar values |
| Quote.IsAnyCharRequiredQuoting | src/jsoncpp.cpp:4347-4357 | with a signed `char` it holds of exactly the non-empty strings |
| Quote.ValueToQuotedStringN | src/jsoncpp.cpp:4439-4509 | the cursor stays within the string and the result is the quoted form whose reading back is StringSyntax.QuotedRoundTrip |
| Quote.QuoteBodyIsPlain | src/jsoncpp.cpp:4439-4509 | for arbitrary bytes the output is seven-bit text without control characters below DEL |
| Quote.QuotedIsPrintable | src/jsoncpp.cpp:4486-4494 | for arbitrary bytes the output is printable ASCII exactly when the writer's loop meets no U+007F; for well-formed text, exactly when it holds no byte DEL |
| Quote.DelIsNotEscaped | src/jsoncpp.cpp:4486-4494 | DEL is copied as it stands |
| StringSyntax.PiecesRead | src/jsoncpp.cpp:869-978 | `readString` stops at the closing quote of any sequence of grammar pieces and `decodeString` returns its meaning |
| StringSyntax.PiecesFound | src/jsoncpp.cpp:869-978 | every string the reader accepts is such a sequence and decoded to its meaning |
| StringSyntax.StringsAccepted | src/jsoncpp.cpp:678-688 | the strings accepted behind an opening quote, and their values, are exactly those of the grammar |
| StringSyntax.EscapesAgree | src/jsoncpp.cpp:880-905 | the reader's two-character escapes are the eight of section 7 of RFC 8259 |
| StringSyntax.DigitsAgree | src/jsoncpp.cpp:963-970 | its hexadecimal digits are 0-9, a-f and A-F, by value |
| StringSyntax.StringsRefused | src/jsoncpp.cpp:869-978 | a string is refused exactly when a broken escape follows pieces of the grammar, with the error and the place of that escape |
| StringSyntax.SplitIsPair | src/jsoncpp.cpp:4495-4502 | the surrogate split of the writer is undone by the pair arithmetic of the reader |
| StringSyntax.PairRead | src/jsoncpp.cpp:922-949 | a high surrogate escape and the escape behind it are read as one code point |
| StringSyntax.WrittenIsPieces | src/jsoncpp.cpp:4439-4509 | for arbitrary bytes the quoted text consists of grammar pieces that mean the code points the writer's loop meets |
| StringSyntax.WrittenIsChosen | src/jsoncpp.cpp:4439-4509 | the writer chooses among the spellings of a character: itself if it is printable or DEL, a two-character escape but for the solidus, or else lower-case `\u` escapes |
| StringSyntax.CutOff | src/jsoncpp.cpp:4359-4408 | a character cut off by the end of the text, or a byte that begins none, is written `\ufffd` |
| StringSyntax.BodyRoundTrip | src/jsoncpp.cpp:869-920 | for arbitrary bytes `readString` stops exactly at the writer's closing quote and `decodeString` accepts what lies between |
| StringSyntax.ReadBackIffWellFormed | src/jsoncpp.cpp:4359-4408 | exactly the well-formed strings are unchanged by the writer's scan and the reader's encoding |
| StringSyntax.TwiceIsWellFormed | src/jsoncpp.cpp:4359-4408 | whatever has been written and read back twice is well-formed |
| StringSyntax.QuotedRoundTrip | src/jsoncpp.cpp:4439-4509 | quoting and unquoting are inverse for exactly the well-formed strings, wherever the text stands in a document |
| JsonValue.TextLessIsBefore | src/jsoncpp.cpp:2795-2807 | the order of keys and strings is dictionary order |
| JsonValue.TextOrder | src/jsoncpp.cpp:2795-2807 | and a strict total order |
| JsonValue.PutIsMapUpdate | src/jsoncpp.cpp:3570-3587 | setting a member keeps the keys strictly sorted, gives that key that value and leaves every other key alone |
| JsonValue.PutAppends | src/jsoncpp.cpp:3570-3587 | a key above all others goes to the end |
| JsonOrder.EqualIsIdentity | src/jsoncpp.cpp:3046-3089 | on trees without reals `operator==` is identity |
| JsonOrder.LessIsPrecedes | src/jsoncpp.cpp:2993-3038 | `operator<` is the reference order: by the type as the enum lists them, integers by number, false before true, strings as in a dictionary, the smaller container first, and of two of one size by the first place where they differ |
| JsonOrder.Trichotomy | src/jsoncpp.cpp:2993-3038 | exactly one of a < b, a = b, b < a |
| JsonOrder.Transitive | src/jsoncpp.cpp:2993-3038 | `operator<` is transitive through nested arrays and objects |
| JsonOrder.StrictTotalOrder | src/jsoncpp.cpp:2985-3089 | `operator<` is a strict total order whose equality is `operator==`, and `compare` is the sign of the reference order |
| ReaderSpec.ReadValue | src/jsoncpp.cpp:394-473 | on every byte string reading ends, the cursor never passes the end, success means no error, failure exactly one, at any nesting depth |
| ReaderSpec.ReadMembers | src/jsoncpp.cpp:690-744 | the same for the rest of an object: recovery neither adds nor drops an error |
| ReaderSpec.ReadItems | src/jsoncpp.cpp:757-781 | the same for the rest of an array |
| ReaderSpec.Parse | src/jsoncpp.cpp:353-392 | `parse` returns true exactly when the error list is empty, and the list never holds more than one error |
| Reader.Reader.GetNextChar | src/jsoncpp.cpp:1012-1016 | the byte at the cursor, or NUL without moving at the end |
| Reader.Reader.SkipSpaces | src/jsoncpp.cpp:556-564 | the loop leaves the cursor where the specification says; Lexing.SpacesFound says what lies between |
| Reader.Reader.Match | src/jsoncpp.cpp:566-575 | the cursor passes the pattern exactly when the document continues with it |
| Reader.Reader.ReadCStyleComment | src/jsoncpp.cpp:631-638 | the loop computes the comment end that Lexing.BlockEnds and Lexing.BlockFound characterise |
| Reader.Reader.ReadCppStyleComment | src/jsoncpp.cpp:640-654 | the loop computes the line end that Lexing.LineEnds and Lexing.LineFound characterise |
| Reader.Reader.ReadComment | src/jsoncpp.cpp:577-598 | either kind of comment, or an error token |
| Reader.Reader.ReadNumber | src/jsoncpp.cpp:656-676 | the three loops take the token that Lexing.NumeralTaken and Lexing.NumeralFound characterise |
| Reader.Reader.ReadString | src/jsoncpp.cpp:678-688 | the loop stops where StringSyntax.StringsAccepted says |
| Reader.Reader.ReadToken | src/jsoncpp.cpp:485-554 | one token, always, with the cursor at its end |
| Reader.Reader.SkipCommentTokens | src/jsoncpp.cpp:475-483 | the first token that is no comment |
| Reader.Reader.AddError | src/jsoncpp.cpp:980-988 | one error is appended |
| Reader.Reader.RecoverFromError | src/jsoncpp.cpp:990-1001 | the loop ends behind the first closing token or at the end, and the error list is unchanged |
| Reader.Reader.AddErrorAndRecover | src/jsoncpp.cpp:1003-1008 | exactly one error is added |
| Reader.Reader.DecodeUnicodeEscapeSequence | src/jsoncpp.cpp:951-978 | four hexadecimal digits or one error |
| Reader.Reader.DecodeUnicodeCodePoint | src/jsoncpp.cpp:922-949 | one code point, from a pair behind a high surrogate, or one error |
| Reader.Reader.DecodeStringTo | src/jsoncpp.cpp:869-920 | the decoded bytes, or one error at the offending place |
| Reader.Reader.DecodeNumberTo | src/jsoncpp.cpp:784-834 | the integer, a real token, or one error |
| Reader.Reader.ReadValue | src/jsoncpp.cpp:394-473 | cursor, current value and added errors are those of the specification, and the node stack is restored; the limit is thrown when the stack holds more than 1000 |
| Reader.Reader.ReadScalar | src/jsoncpp.cpp:418-465 | the scalar cases of the switch: the current value is replaced, or kept with one error |
| Reader.Reader.ReadObject | src/jsoncpp.cpp:690-744 | the loop over members against the specification, node stack restored |
| Reader.Reader.ReadField | src/jsoncpp.cpp:696-741 | one round of that loop: comments, the name and the member, or the error that ends the object |
| Reader.Reader.ReadMember | src/jsoncpp.cpp:717-740 | the round from behind the name on, entered with a push and left with a pop |
| Reader.Reader.ReadMemberValue | src/jsoncpp.cpp:722-725 | the value behind the colon is pushed, read, popped and stored under its name |
| Reader.Reader.ReadComma | src/jsoncpp.cpp:729-740 | the rest of the round behind the value: brace, comma, comment or error |
| Reader.Reader.ReadArray | src/jsoncpp.cpp:746-782 | the loop over items against the specification, node stack restored |
| Reader.Reader.ReadItem | src/jsoncpp.cpp:758-780 | one round of that loop, entered with a push and left with a pop |
| Reader.Reader.Parse | src/jsoncpp.cpp:353-392 | the whole outcome, whatever the reader was used for before |
| Lexing.GapSkipped | src/jsoncpp.cpp:475-483 | spaces and comments of the grammar are skipped; only a gap without a comment is invisible to a plain `readToken` |
| Lexing.GapFound | src/jsoncpp.cpp:475-483 | whatever the reader skips in front of a token is a gap of the grammar |
| Lexing.NumeralTaken | src/jsoncpp.cpp:656-676 | `readNumber` takes all of a numeral that cannot go on |
| Lexing.NumeralFound | src/jsoncpp.cpp:656-676 | whatever `readNumber` takes is such a numeral |
| Lexing.NumeralDecoded | src/jsoncpp.cpp:784-834 | a numeral is stored as the integer of 64 bits it denotes, signed when it fits an `int`; a minus alone is 0; every other numeral goes to `decodeDouble` |
| Lexing.BlockUnclosed | src/jsoncpp.cpp:631-638 | a comment that is never closed runs to the end, and passes for one if the last byte is a slash |
| Lexing.LineUnclosed | src/jsoncpp.cpp:640-654 | a line comment without a line end runs to the end |
| Lexing.StrayByte | src/jsoncpp.cpp:537-553 | a byte that begins no token is one: the end of the stream if it is NUL, and otherwise an error |
| Lexing.RecoveryFound | src/jsoncpp.cpp:990-1001 | recovery passes tokens up to the first one wanted, or the end of the stream, and stops behind that |
| Accepts.TreeAccepted | src/jsoncpp.cpp:394-473 | reading a tree of the grammar yields its meaning, adds no error and stops at its end, or throws exactly when it is nested too deep |
| Accepts.ElementsAccepted | src/jsoncpp.cpp:746-782 | an array yields its elements in order |
| Accepts.FieldsAccepted | src/jsoncpp.cpp:690-744 | an object yields its fields as successive map updates: the last of equal names wins |
| Accepts.DocumentAccepted | src/jsoncpp.cpp:353-392 | `parse` accepts every document of the grammar within the stack limit, with its meaning |
| Accepts.LexemeTaken | src/jsoncpp.cpp:485-554 | every lexeme that may stand for a comma is read as one token that closes nothing |
| AcceptsOnly.TreeFound | src/jsoncpp.cpp:394-473 | every value the reader accepts is a gap and a tree of the grammar within the stack limit, and has the meaning of that tree |
| AcceptsOnly.ElementsFound | src/jsoncpp.cpp:746-782 | the same for the rest of an array |
| AcceptsOnly.FieldsFound | src/jsoncpp.cpp:690-744 | the same for the rest of an object |
| AcceptsOnly.DocumentsAccepted | src/jsoncpp.cpp:353-392 | `parse` succeeds with a value if and only if the document has a derivation of that meaning within the stack limit |
| AcceptsOnly.LexemeFound | src/jsoncpp.cpp:485-554 | every token within the document, but a closing brace or a comment, is such a lexeme |
| AcceptsOnly.Unambiguous | src/jsoncpp.cpp:353-392 | a document means one value, however it is derived |
| Outcomes.SpineEnds | src/jsoncpp.cpp:394-473 | a document that opens brackets and braces inside one another, with complete items and members before each, and comes to a place where what is due is missing, ends there with the verdict of that place, whatever follows |
| Outcomes.SpineFound | src/jsoncpp.cpp:394-473 | every reading without a value ends at such a place |
| Outcomes.EndsExactly | src/jsoncpp.cpp:353-392 | `parse` throws, or reports one error of a given kind at a given token, if and only if the document leads to a place with that verdict |
| Outcomes.ThrowsExactly | src/jsoncpp.cpp:353-398 | `parse` throws if and only if the document, malformed ones included, opens 1000 levels and then asks for one value more |
| Outcomes.ThreeOutcomes | src/jsoncpp.cpp:353-392 | every document is accepted with its meaning, or nested too deep, or reported by exactly one error, that of a place it leads to, and never two of these |
| Leniency.CommaBehindEmptyName | src/jsoncpp.cpp:702-703 | `{"":1,}` is accepted: the test for an empty object is made on the last name |
| Leniency.ColonForComma | src/jsoncpp.cpp:736-740 | `{"a":1/**/:"b":2}` is accepted: the token behind a comment is not looked at |
| FastWriter.Writer.Write | src/jsoncpp.cpp:4532-4538 | the document is the text of the root and an optional line feed |
| FastWriter.Writer.WriteValue | src/jsoncpp.cpp:4540-4592 | the text of the value, which RoundTrip.TreeWritten places in the grammar, is appended |
| FastWriter.Writer.WriteItems | src/jsoncpp.cpp:4567-4576 | the loop over items writes a comma before every item but the first |
| FastWriter.Writer.WriteMembers | src/jsoncpp.cpp:4577-4590 | the loop over members likewise |
| FastWriter.Writer.WriteMember | src/jsoncpp.cpp:4585-4587 | quoted name, colon, value |
| FastWriter.ValueIsPlain | src/jsoncpp.cpp:4540-4592 | a value without reals is printed without line feeds or other control characters, whatever bytes its strings hold |
| FastWriter.OneLine | src/jsoncpp.cpp:4532-4538 | so the writer writes one line: a line feed ends it unless that is to be left out, and there is no other |
| FastWriter.DroppedNulls | src/jsoncpp.cpp:4541-4545 | with `dropNullPlaceholders` different trees are printed alike |
| RoundTrip.TreeWritten | src/jsoncpp.cpp:4540-4592 | what is printed for any tree without reals, on arbitrary bytes, is the text of a derivation of the grammar |
| RoundTrip.DepthKept | src/jsoncpp.cpp:398 | that derivation is nested as deep as the tree |
| RoundTrip.RereadIffUtf8 | src/jsoncpp.cpp:4540-4592 | its meaning is the tree, integers retagged by numeric value, if and only if every string and key is well-formed UTF-8 |
| RoundTrip.ParseOfWritten | src/jsoncpp.cpp:353-488 | parsing what was printed consumes the whole text without an error exactly within the stack limit and throws otherwise; it gives the retagged tree back exactly when all its strings are well-formed |
| RoundTrip.RetagKeepsText | src/jsoncpp.cpp:4546-4551 | retagging the integers of a tree does not change its text |
| RoundTrip.WriteParseWrite | src/jsoncpp.cpp:4532-4592 | printing, parsing and printing again reproduces the text |
| Reparse.ReadValueCanonical | src/jsoncpp.cpp:394-473 | every value the reader yields is in range, sorted, tagged by value and within the stack limit |
| Reparse.ParseWriteParse | src/jsoncpp.cpp:353-488 | for every accepted document without reals, printing and parsing again succeeds, and yields the same value exactly when its strings are well-formed |
| HashSpec.RehashPlaced | src/hashtable/hashtable.c:82-98 | expansion puts every entry in bucket h modulo the new size |
| HashSpec.RehashKeepsEntries | src/hashtable/hashtable.c:82-98 | expansion preserves the multiset of entries |
| HashSpec.RehashReverses | src/hashtable/hashtable.c:86-95 | for each hash value expansion leaves its entries in exactly the reverse of their order |
| HashSpec.InsertInv | src/hashtable/hashtable.c:137-159 | insertion keeps placement, prime size and count, whichever allocation fails |
| HashSpec.RemoveInv | src/hashtable/hashtable.c:180-211 | removal keeps them |
| HashSpec.ExpandInv | src/hashtable/hashtable.c:70-126 | expansion keeps them |
| HashRuns.ExpandReverses | src/hashtable/hashtable.h:94-101 | an expansion reverses the stack of every key, and a failed one changes nothing |
| HashRuns.PushStacks | src/hashtable/hashtable.c:152-158 | a new entry is on top of the stack of its key and of no other |
| HashRuns.RemoveStacks | src/hashtable/hashtable.c:180-211 | removal pops the stack of its key and touches no other |
| HashRuns.SearchPeeks | src/hashtable/hashtable.c:162-177 | search returns the top of the stack, or null when it is empty |
| HashRuns.StepRefines | src/hashtable/hashtable.c:137-211 | one operation changes the stack of every key as push, pop or peek says |
| HashRuns.RunRefines | src/hashtable/hashtable.c:70-211 | over every run the table refines a map from keys to stacks of values |
| HashMap.ReplaceIsUpdate | src/hashtable/hashtable.h:97-101 | with "remove before insert", insertion is map update, whether or not the table grows; when the entry cannot be allocated the key is left removed |
| HashMap.RemoveIsDelete | src/hashtable/hashtable.c:180-211 | and removal is map deletion |
| HashMap.UniqueKeys | src/hashtable/hashtable.h:97-101 | such a table holds no two entries of equivalent keys |
| HashMap.CountIsSize | src/hashtable/hashtable.c:129-133 | `hashtable_count` is then the number of keys, and a key is found exactly when an equivalent one is stored |
| HashMap.MapRunRefines | src/hashtable/hashtable.c:70-211 | over every run of such assignments and of deletions the table keeps no repeated key and answers every key as a map does |
| HashMap.CreatedIsEmpty | src/hashtable/hashtable.c:28-53 | a created table holds nothing under any key |
| HashMap.CreatedIsMap | src/hashtable/hashtable.h:94-101 | from its creation on such a table answers what was last assigned, its count is the number of keys, and a key is found exactly when an equivalent one is stored |
| HashGrowth.StepAccounts | src/hashtable/hashtable.c:142-149 | no operation leaves a table below the last prime over its load limit when allocation succeeds |
| HashGrowth.LimitIsCeiling | src/hashtable/hashtable.c:50 | the load limit is the least count not below 0.65 of the size |
| HashGrowth.SizesDouble | src/hashtable/hashtable.c:15-23 | each size of the table is odd and nearly double the one before |
| HashGrowth.LimitSumBound | src/hashtable/hashtable.c:15-25 | the load limits of the primes up to any one add up to at most three times the last |
| HashGrowth.GrowthIsAmortised | src/hashtable/hashtable.c:70-159 | over any run from an empty table all expansions together relink at most three entries per insertion |
| HashTable.Hashtable.Create | src/hashtable/hashtable.c:28-53 | the smallest prime above minsize and an empty table; null exactly above 2^30 or when one of the two allocations fails |
| HashTable.Hashtable.constructor | src/hashtable/hashtable.c:41-52 | an empty table of that prime size |
| HashTable.Hashtable.AbsInv | src/hashtable/hashtable.c:28-53 | a well-formed heap is a table of the specification with its invariant |
| HashTable.Hashtable.Locate | src/hashtable/hashtable.c:167-176 | the chain walk finds the first entry that passes the test, and the one before it |
| HashTable.Hashtable.Search | src/hashtable/hashtable.c:162-177 | the heap walk returns what the specification returns |
| HashTable.Hashtable.Remove | src/hashtable/hashtable.c:180-211 | exactly the first hit is unlinked and its value returned |
| HashTable.Hashtable.Unlink | src/hashtable/hashtable.c:200-201 | one entry leaves its chain, every other chain and entry stays |
| HashTable.Hashtable.MoveHead | src/hashtable/hashtable.c:90-93 | the head of an old chain becomes the head of its new chain |
| HashTable.Hashtable.MoveChain | src/hashtable/hashtable.c:89-94 | a whole chain is transferred, each entry once |
| HashTable.Hashtable.MoveAll | src/hashtable/hashtable.c:88-95 | all chains are transferred, in order |
| HashTable.Hashtable.Expand | src/hashtable/hashtable.c:70-126 | the relinked heap is the rehashed table, in the same entries; a refused expansion changes nothing |
| HashTable.Hashtable.Grow | src/hashtable/hashtable.c:142-149 | the count is raised first, and the table expanded exactly when that passes the load limit |
| HashTable.Hashtable.Adopt | src/hashtable/hashtable.c:96-124 | the new array becomes the table, with the length and load limit of its prime |
| HashTable.Hashtable.Insert | src/hashtable/hashtable.c:137-159 | the heap becomes the table of the specification, whichever allocation fails |
| HashTable.Hashtable.Link | src/hashtable/hashtable.c:150-157 | one fresh entry in front of its chain |
| HashTable.Replay | src/hashtable/hashtable.c:137-211 | a whole run on the heap is the run of the specification |
| HashIterator.Iterator.constructor | src/hashtable/hashtable_itr.c:11-35 | all entries are still to be visited, chain by chain |
| HashIterator.Iterator.Advance | src/hashtable/hashtable_itr.c:41-76 | the successor in the chain, or the rest of the table behind it, also from an entry just removed |
| HashIterator.Iterator.Next | src/hashtable/hashtable_itr.c:41-76 | exactly one entry is passed |
| HashIterator.Iterator.Remove | src/hashtable/hashtable_itr.c:86-112 | the current entry and no other leaves the table, and it is the one that is passed |
| HashIterator.Iterator.Search | src/hashtable/hashtable_itr.c:115-142 | the iterator is placed on the entry a search finds, or left as it was |
| HashIterator.Iterator.Place | src/hashtable/hashtable_itr.c:73-75 | the iterator stands at the head of a chain, with that chain and all behind it still to visit |
| HashIterator.FilterDropsOne | src/hashtable/hashtable_itr.c:92-103 | dropping one entry of a filtered chain is filtering by one refusal more |
| HashIterator.Visit | src/hashtable/hashtable_itr.c:41-112 | one entry of a walk, kept or dropped: the chains are the original ones filtered by what has been decided so far |
| HashIterator.Sweep | src/hashtable/hashtable_itr.c:11-112 | for any keep-or-drop choice per entry a walk ends, visits each original entry once in order, and leaves exactly the kept entries in their chain order, with the count to match |
| Ring.Ring.constructor | src/ringbuff.h:24-33 | an empty queue |
| Ring.Ring.Enqueue | src/ringbuff.h:46-62 | an item is appended unless size - 1 items are queued |
| Ring.Ring.Dequeue | src/ringbuff.h:71-90 | the oldest item, or null exactly when the queue is empty |
| Ring.Ring.Size | src/ringbuff.h:99-105 | the exact length of the queue |
| Ring.Ring.Drain | src/ringbuff.h:34-45 | the destructor deletes every queued item, oldest first |
| RingSteps.BeginDequeueInv | src/ringbuff.h:77-82 | entering `dequeue` keeps the invariant if and only if something is queued |
| RingSteps.PublishInv | src/ringbuff.h:59-60 | the step that moves the tail appends the item just written |
| RingSteps.FinishDequeueInv | src/ringbuff.h:87-89 | the step that moves the head takes the oldest item |
| RingSteps.StepEnqueueInv | src/ringbuff.h:46-62 | every step of `enqueue` keeps the invariant whatever the consumer is doing; it refuses exactly when size - 1 items are queued |
| RingSteps.StepDequeueInv | src/ringbuff.h:71-90 | every step of `dequeue` keeps it whatever the producer is doing, and leaves with the oldest item |
| RingSteps.EnqueueAdvances | src/ringbuff.h:46-62 | each step of a running enqueue brings it one step nearer to its end, and only a full ring ends it early |
| RingSteps.DequeueAdvances | src/ringbuff.h:71-90 | each step of a running dequeue brings it one step nearer, and the last one hands over the oldest item |
| RingSteps.EnqueueCompletes | src/ringbuff.h:46-62 | an enqueue that has room has appended its item, and nothing else, once it has taken its three steps, whatever the consumer does between them, and not before |
| RingSteps.DequeueCompletes | src/ringbuff.h:71-90 | a dequeue entered with something queued has taken the oldest item, and nothing else, once it has taken its four steps, whatever the producer does between them, and not before |
| WorkerProtocol.WorldStepInv | src/mptthreadpool.C:84-142 | every step of manager or worker keeps: each queued command has exactly one wake, in the pipe, read, about to be written, or failed |
| WorkerProtocol.WorkerSafety | src/mptthreadpool.C:110-142 | over every interleaving outstanding wakes never exceed the queue, the worker never gets a null event, executed commands are a prefix of accepted ones, and `order` has answered true once for each, but for one whose wake is in progress |
| WorkerProtocol.NothingForgotten | src/mptthreadpool.C:84-102 | an idle worker with an empty pipe, while the manager is not about to write a wake, has executed everything accepted if and only if no wake write has failed |
| WorkerProtocol.OnlyForAByte | src/mptthreadpool.C:84-142 | the manager can always take a step, and the worker unless it is idle with an empty pipe |
| WorkerProtocol.WorldAdvances | src/mptthreadpool.C:84-142 | every step gets its own thread on and no thread back, and each wake byte written is read for one command |
| WorkerProtocol.OrdersReturn | src/mptthreadpool.C:84-102 | over every interleaving and from any moment on, a call of `order` has returned after four more steps of the manager, whatever the worker does |
| WorkerProtocol.WakesAreServed | src/mptthreadpool.C:110-142 | over every interleaving and from any moment on, each wake byte written by then has led to one more executed command after seven steps of the worker for each |
| WorkerProtocol.CommandsAreExecuted | src/mptthreadpool.C:84-142 | and as long as no wake write has failed and none is in progress, every command accepted by then is executed, in order |
| EventProtocol.SizeIsExact | src/ringbuff.h:99-105 | head and tail at rest give the length of the queue |
| EventProtocol.WorldStepInv | src/transaction.C:41-62 | every step of `pushEvent` or of the guarded `dequeue` keeps the invariant |
| EventProtocol.NoEventLost | src/transaction.C:41-62 | over every interleaving accepted events are those delivered, the one in hand and those queued, in order; the ring never holds more than size - 1; `pushEvent` has answered true once for each |
| EventProtocol.GuardedDequeueDelivers | src/transaction.C:54-62 | behind a positive `size()` the dequeue returns the oldest event, fully published; the guard fails exactly when the queue is empty at its second read |
| EventProtocol.RefusesOnlyWhenFull | src/transaction.C:41-46 | `pushEvent` answers false exactly when the ring is full at the moment it looks |
| EventProtocol.QueueIsAtomic | src/transaction.C:41-62 | over every interleaving the queue is linearizable: an atomic queue fed the same calls in the order they take effect answers the same, finds the same and holds the same |
| EventProtocol.NeitherWaits | src/transaction.C:41-62 | each thread can always take a step |
| EventProtocol.EventsAreAnswered | src/transaction.C:41-46 | over every interleaving and from any moment on, `pushEvent` has answered after three more steps of the producer, whatever the consumer does |
| EventProtocol.EventsAreDelivered | src/transaction.C:52-62 | over every interleaving and from any moment on, the events accepted by then are delivered, in order, once the consumer has taken eight steps for each and one more, whatever the producer does |
| AtomicQueue.OneMore | src/ringbuff.h:46-98 | what one more call at the end of such a history changes |
| EventRefinement.RoundPolls | src/transaction.C:52-81 | a round of `onEvent` polls the queue once and gives what it finds to one call |
| EventRefinement.MachineSeesQueue | src/transaction.C:41-105 | for every interleaving with a producer and whatever the steps answer, the calls of the atomic machine get the events the interleaving took from the ring, in order, and its queue holds what the ring holds; if it ends sooner, a prefix |
| Transaction.PushInv | src/transaction.C:41-46 | accepted events are those given to calls followed by those pending |
| Transaction.RoundInv | src/transaction.C:52-103 | one round keeps: the calls follow the script chain, no two in a row lack an event, each event goes to one call, and the script is left at most once |
| Transaction.OnEventInv | src/transaction.C:48-105 | so does `onEvent`, whatever is pushed between its rounds |
| Transaction.OnEventAnswers | src/transaction.C:81-102 | `onEvent` returns the answer of its last call, having left the chain or waiting for the next event; while it polls, none of its calls has asked for the next event |
| Transaction.RoundCalls | src/transaction.C:52-81 | a round leaves the log as it was exactly when nothing is pending and the last call had no event; otherwise it adds one call of the current step, with the oldest event or none |
| Transaction.CallsMade | src/transaction.C:52-103 | while `onEvent` polls, every round in which it does not wait makes a call |
| Transaction.PathIsWalk | src/transaction.C:82-95 | each call is of the step that the answers before it have moved to, one on for success and "next event", one back for a return; there is a step to call exactly while that is in the chain and no answer was an error |
| Transaction.VisitsInv | src/transaction.C:48-105 | any number of calls of `onEvent` keep the invariant, and the last one returned the answer of the last call of a step |
| Transaction.WholePathIsStraight | src/transaction.C:82-90 | with steps that only succeed or end in error, the i-th call is of the i-th step and all but the last succeeded |
| Transaction.EndedTransaction | src/transaction.C:48-105 | such a transaction, once ended, ran a prefix of the chain, all of it exactly when the last answer was success, with no two null-event calls in a row, each event given to one call, and `exit` called exactly once |
| Transaction.Completes | src/transaction.C:48-105 | a chain of n steps that all succeed has every step called and returns success exactly when there are n rounds in which it does not wait |
| Transaction.FedCompletes | src/transaction.C:48-105 | so an event at least every other round carries such a chain through in n rounds |
| Transaction.FewestEvents | src/transaction.C:64-79 | and fewer events than one for every other call do not |
| Transaction.LeftUnlessNextEvent | src/transaction.C:93-102 | over every life of a transaction, however often `onEvent` is called: at a step it has not called `exit`; past its chain it has called it exactly once, unless its last answer was "next event", and then never |
| Transaction.NeverLeaves | src/transaction.C:93-95 | a one-step script whose step answers "next event" never calls `exit` |
| Transaction.Transation.constructor | src/transaction.C:20-30 | a queue of 512, sending, at the first step, counted as using the script |
| Transaction.Transation.PushEvent | src/transaction.C:41-46 | accepted unless 511 events are pending |
| Transaction.Transation.OneRound | src/transaction.C:52-103 | one round of the loop: queue, step, send flag and counters, `exit` being called exactly when the history says so |
| Transaction.Transation.OnEvent | src/transaction.C:48-105 | the loop is the machine of the lemmas, and the script's counters move exactly when it leaves |
| Script.Script.Enter | src/script.C:214-220 | the retry loop adds one to the use counter |
| Script.Script.Exit | src/script.C:222-231 | the two retry loops take one off the use counter and add one to the used counter |
| Script.StepCounts | src/script.C:214-231 | every load or compare-and-swap of any thread keeps the counters in step with the threads |
| Script.CountersAgree | src/script.C:214-231 | over every interleaving, and modulo 2^64, the use counter has moved by the live transactions and the used counter by the finished ones |
| Script.CountersExceed | src/script.C:214-231 | while they have room they exceed their initial values by exactly those numbers |
| Script.StepUsesOne | src/script.C:214-231 | every load or compare-and-swap of an unfinished transaction uses up one of a bounded number of steps, a failed one included |
| Script.EveryoneFinishes | src/script.C:214-231 | so n transactions have all entered and left after at most 6n * n + 3n steps, whatever the interleaving |
| TaskRunner.BatchesNeeded | src/mptthreadpool.C:224-229 | full batches and a smaller last one reach the total in exactly ceil(total / tps) of them |
| TaskRunner.DurationIsExact | src/mptthreadpool.C:230-234 | in duration mode a batch is started exactly while a second is left or no duration is set; as nothing counts the seconds, always |
| TaskRunner.Worker.RunTask | src/mptthreadpool.C:220-269 | in either mode, and wherever its int arithmetic is defined: one batch of the size still allowed, or none and no change |
| TaskRunner.Worker.StartTask | src/mptthreadpool.C:193-208 | for any command: the counters are reset, the first batch started if there is one, and the timer set exactly then |
| TaskRunner.Worker.TimeCb | src/mptthreadpool.C:144-158 | in either mode: the next batch and the timer again, or no change and no timer, exactly as `runTask` answers |
| TaskRunner.Worker.TimerRound | src/mptthreadpool.C:144-158 | in total mode a timer event keeps: full batches and a smaller last one so far, and the timer until the total is reached |
| TaskRunner.Worker.Perform | src/mptthreadpool.C:144-269 | a task in total mode starts exactly `total` transactions, at most tps per round, in exactly ceil(total / tps) successful rounds, and stops |

## Left out

- JSON reals: `decodeDouble` is a parameter that says which tokens it accepts, a real is the token it was read from, and its text and order are parameters; the theorems about printing and ordering are about trees without reals.
- JSON Features other than the default (strict root, dropped nulls, numeric keys), comment collection, value offsets, the styled writers, `Path`, and `OurReader`, a near copy of `Reader`.
- `dropNullPlaceholders`: its text is printed as the code prints it, but it is no JSON and is not read back.
- Values behind the node stack: a child under construction is stored into its parent when it is popped, so the tree left in the root when the stack limit is thrown is not modelled; nor are strings or arrays of 2^30 and more.
- `decodeNumber` takes a minus sign alone as the integer 0, as the code does.
- A null string given to `valueToQuotedStringN`, which prints nothing.
- The words of the error messages: each is a constructor of ErrorKind.
- Quote.QuotedIsPrintable: the output is not always printable, because the code copies DEL (`src/jsoncpp.cpp:4489-4490`); the exact condition is stated instead.
- Transaction.LeftUnlessNextEvent: not every ended transaction has called `exit`: one that ends by "next event" never does, because the code returns before it looks at the end of the chain (`src/transaction.C:93-95`); the exact condition is stated instead.
- The bit mixing of `hash()`: hash and mixing are one function that equivalent keys share.
- That the table sizes are primes, which no operation depends on; and the rounding of the load limit: it is ceil(65 * size / 100) rather than a float product.
- The realloc branch of `hashtable_expand`, taken when memory is short: an expansion succeeds or changes nothing. Freeing of memory, `hashtable_destroy`, a null value stored under a key, and the wrap-around of the 32-bit entry count.
- `TRingbuffer` with several producers or consumers; `dequeue` on a queue that may be empty while a producer runs; the retry behind a null slot (`src/ringbuff.h:83`), which the invariant shows is never met; the unspecified content of slots never written.
- `order` for a null command or a worker that does not exist, which answers false. The capacity of the wake pipe and errors of reading it; `order` still answers true when its wake byte could not be written.
- The bodies of steps, their statistics and the sub-script links: a step answers what a parameter says, and a script is a straight chain. A script without steps.
- TaskRunner.Worker.RunTask: signed overflow of its counters is excluded, and nothing more; the call that stops a task in total mode still adds tps to a full count, and every batch adds one to the duration. In duration mode nothing counts the seconds, so a task never stops. Stop commands only set a flag that nothing reads.
- The timeout queue, connections, sockets, the database, XML and configuration, printing, and the memory model below sequential consistency.
