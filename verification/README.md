# imap-codec: a Dafny model of its Fragmentizer, sequence sets, and codec core

The model covers three connected parts of the library.

* **The Fragmentizer** splits a byte stream into lines and literals, in whatever pieces the
  bytes arrive. Classes (`Fragmentizer.dfy`) are proved against a state machine on values
  (`FragmentizerModel.dfy`), which is proved against a declaration of what the fragments of a
  whole stream are (`Fragments.dfy`, `Announcements.dfy`).
* **Sequence sets**: in-place normalization through a hash set and half-open ranges
  (`Normalizer.dfy`, `Normalizing.dfy`, `Rereading.dfy`), fast and naive iteration
  (`Iterating.dfy`), both proved against the set of numbers that a sequence set stands for
  (`SequenceSets.dfy`).
* **The codec**: a streaming parser core with four outcomes (`Nom.dfy`), and on top of it
  strings, dates, sequence sets, search keys, envelopes, body structures and commands. Each has
  a grammar that says which inputs are texts of a value, a reader that is proved to read exactly
  these, what is written for a value, which is proved to be one of them, and the round trip with
  the exact condition under which it holds. The encoder (`Contexts.dfy`, `Encoding*.dfy`) is a
  class with methods that are proved to write what the grammar reads, and its fragments are
  proved to be those the Fragmentizer finds (`Agreement.dfy`), in any number of messages and
  with the bytes it hands out (`Deliveries.dfy`), up to the commands that a server decodes
  (`CommandDelivery.dfy`).

Conventions. Bytes are a newtype below 256; input that a reader consumes is an inductive list
(`Nom.Wire`), values are sequences. `XText(x, i, rest)` says that the input `i` is a text of `x`
followed by `rest`; it is written from the documented grammar, allows every case of letters and
every form that the readers accept, and uses neither reader nor writer. `PutX(x, rest)` is what
is written for `x` followed by `rest`, `ReadX` is the reader. `XCut(a, i)` says that `i` is the
beginning of a text up to the announcement `a` of a literal. Readers written as `alt` and `opt`
catch `Error` only. Recursive readers take their limit as an argument, as in the source. `Good...` says that a
value satisfies the rules of its type and that its literals have 32-bit lengths; `Valid...`
says the former, `Fits...` the latter. The search keys without arguments, with one string,
one date, one atom and one number are grouped by their keyword; the order in which keywords
are tried is that of the source. The ghost parameter `rest` of the encoding methods stands
for what is written next.

The model is the library without its optional `quirk_*` and `ext_*` features. The default
build turns some quirks on (`imap-codec/Cargo.toml:17`, `imap-codec/Cargo.toml:25-38`). One of
them normalizes every sequence set before it is written, so that what is proved about
normalization, including where it changes a set, then applies to encoding.

Where the code does less than its documentation promises, the model follows the code and the
exact condition is proved:

* A literal of 2^32 bytes or more is written with an announcement that neither the grammar
  nor the Fragmentizer accepts (`Search.SearchKeyRoundTrip`, `BodyLegality.BodyRoundTrip`,
  `EncodingCommand.Encode`, all with "if and only if").
* Search keys nested more deeply than the limit, and body structures nested more deeply than
  theirs, are written but not read back (same lemmas, and `CommandReading.CommandRoundTrip`).
* A mailbox that is not INBOX but goes by that name, which only an unvalidated constructor can
  build, is read as INBOX (`CommandReading.CommandRoundTrip`).
* Normalizing a sequence set that contains 4294967294 can change what it stands for
  (`Normalizing.NormalFormKeepsMembers` says exactly when).
* Normalizing can change what a set stands for, and what iteration yields, once `*` is read as
  a number below one that the set writes: "7,5:*" becomes "5:*", which with `*` as 3 loses 7
  (`Rereading.NormalFormKeepsReading` and `Iterating.NormalizeKeepsIteration` say exactly when).

## Model

| member | source | states |
|---|---|---|
| `Announcements.LineMeaning` | imap-codec/src/fragmentizer.rs:333-463 | For every line: an announcement (mode, length) is reported if and only if the line, without one CR at its end, ends in an opening brace, digits with a value of at most 2^32-1, an optional plus and a closing brace; the ending is CRLF if and only if the byte before the LF is CR |
| `Announcements.AnnouncementIsUnique` | imap-codec/src/fragmentizer.rs:333-463 | No line can be read as announcing two different literals |
| `Recognizers.RecognizersAgree` | imap-codec/src/core.rs:153-180 | On a CRLF line the line automaton announces (length, mode) if and only if on some suffix of the line the grammar's literal reader stops with a literal failure carrying the same length and mode |
| `Recognizers.TagRecognizersAgree` | imap-codec/src/core.rs:293-300 | The tag looked up in an undecodable message is the one the grammar reads there with a space behind it, and there is one exactly when the grammar reads one |
| `Fragmentizers.LineParser.Parse` | imap-codec/src/fragmentizer.rs:333-463 | The byte loop stops at the first LF and accounts for the automaton over exactly the bytes consumed, resuming from any earlier stop |
| `Fragmentizers.LiteralParser.Parse` | imap-codec/src/fragmentizer.rs:505-524 | Consumes what is there or exactly what remains of the literal |
| `Fragmentizers.Fragmentizer.Progress` | imap-codec/src/fragmentizer.rs:120-160 | New state and reported fragment are those of the value-level state machine, including the start of the next message after a complete one |
| `Fragmentizers.Fragmentizer.DequeueParsedBytes` | imap-codec/src/fragmentizer.rs:284-303 | Parsed bytes leave the unparsed buffer even when they no longer fit the message buffer, whose remaining size never underflows |
| `Fragmentizers.Fragmentizer.EnqueueBytes` | imap-codec/src/fragmentizer.rs:167-169 | Only the unparsed buffer grows |
| `Fragmentizers.Fragmentizer.SkipMessage` | imap-codec/src/fragmentizer.rs:220-225 | Everything but the unparsed bytes and the limit is reset |
| `Fragmentizers.Fragmentizer.PoisonMessage` | imap-codec/src/fragmentizer.rs:234-236 | Only the poison flag changes |
| `Fragmentizers.Fragmentizer.FragmentBytes` | imap-codec/src/fragmentizer.rs:172-180 | Whatever calls, skips included, led to the current state: the bytes returned for a fragment within what was parsed of the current message are the enqueued bytes between its positions, counted from the beginning of that message, as far as the limit kept them |
| `Fragmentizers.Fragmentizer.ProgressAll` | imap-codec/src/fragmentizer.rs:114-119 | Asking for progress until nothing is reported terminates, also with empty literals, reports exactly the fragments still to come and leaves no unparsed byte |
| `Fragmentizers.ParseTag` | imap-codec/src/fragmentizer.rs:599-614 | The loop finds the bytes before the first space of the first line and accepts them only as a tag |
| `Fragments.ResidualIsFragmentsOf` | imap-codec/src/fragmentizer.rs:120-160 | A parser at the start of a message finds exactly the declared fragments: lines up to the next LF, announcing what the announcement language says, and literals exactly as long as announced |
| `Fragments.ResidualConcat` | imap-codec/src/fragmentizer.rs:333-463 | Parsing may stop after any byte and resume: nothing is lost, reordered or read again |
| `Fragments.FragmentsAreTiled` | imap-codec/src/fragmentizer.rs:142-157 | Fragments of a message start at 0, touch each other, alternate between lines and literals, each literal is as long as announced, and a line that announces nothing ends the message |
| `Fragments.EveryByteIsAccountedFor` | imap-codec/src/fragmentizer.rs:120-160 | The widths of the reported fragments plus the bytes still held by the parser are the bytes parsed |
| `Fragments.LinesEndAtLf` | imap-codec/src/fragmentizer.rs:120-160 | Every declared line of a stream begins where the fragment before it ends, ends in a line feed and contains no other |
| `FragmentizerModel.RunTakesPrefix` | imap-codec/src/fragmentizer.rs:120-169 | In any run of calls without a skip, what was reported followed by what is still to come is what the whole stream holds, however it goes on |
| `FragmentizerModel.ChunkingIndependence` | imap-codec/src/fragmentizer.rs:120-169 | The reported fragments are the declared fragments of the whole stream, whatever the cuts between enqueue calls, the progress and poison calls in between, and the limit; all of them once drained |
| `FragmentizerModel.StreamIsKept` | imap-codec/src/fragmentizer.rs:120-225 | In every run, skips included, the bytes of completed or skipped messages, those parsed for the current message and the unparsed ones are, in this order, exactly the bytes enqueued |
| `FragmentizerModel.SizeLimit` | imap-codec/src/fragmentizer.rs:284-303 | In every reachable state the message buffer is the first min(limit, n) of the n bytes parsed for the message, the exceeded flag is set if and only if n is greater than the limit, and the parser stands at n |
| `FragmentizerModel.LimitIndependence` | imap-codec/src/fragmentizer.rs:284-303 | Two Fragmentizers that differ only in what they store report the same fragments, and assign the same bytes to the same messages, in every run |
| `FragmentizerModel.ReportedBytes` | imap-codec/src/fragmentizer.rs:172-180 | In every run, skips included: the bytes stored for the fragment just reported are the enqueued bytes between its positions, counted from the beginning of its message; only the limit cuts them short |
| `FragmentizerModel.ReportedFragment` | imap-codec/src/fragmentizer.rs:172-180 | Without skips the fragment reported next is the next declared fragment of the stream, however it goes on, and its stored bytes are the stream's bytes behind those of all fragments reported before; only the limit cuts them short |
| `FragmentizerModel.DrainStep` | imap-codec/src/fragmentizer.rs:120-160 | Each reported fragment comes off the front of those to come and shrinks the measure (unparsed length, then pending literal) |
| `FragmentizerModel.CompletionIsolates` | imap-codec/src/fragmentizer.rs:120-133 | After a complete message, whatever is enqueued or poisoned before, the next progress call and all calls after it behave as on a new Fragmentizer with the same limit and the unparsed bytes |
| `FragmentizerModel.SkipIsolates` | imap-codec/src/fragmentizer.rs:220-225 | After a skip every further run is that of a new Fragmentizer with the unparsed bytes |
| `FragmentizerModel.DecodesOnlyWholeMessages` | imap-codec/src/fragmentizer.rs:253-282 | In every reachable state, whether the message is complete or not, decoding succeeds if and only if the bytes parsed so far of the message did not exceed the limit, it was not poisoned, and the decoder uses up all of these bytes |
| `FragmentizerModel.DecodeOutcomes` | imap-codec/src/fragmentizer.rs:253-282 | Every outcome has its exact condition, in every run: too long, with the first bytes up to the limit, if and only if the message exceeds the limit; poisoned, with the message, if and only if it does not and was poisoned; otherwise the decoder's failure, or a remainder that it left, or the decoded value |
| `Normalizer.SequenceSet.Normalize` | imap-types/src/sequence.rs:39-106 | The in-place normalization, whatever the order of the hash set, leaves the sequences of the set's maximal intervals in ascending order |
| `Normalizer.MergeRanges` | imap-types/src/sequence.rs:780-805 | The merged ranges are separated by gaps and cover exactly what the given ranges cover |
| `Normalizer.AbsorbSingles` | imap-types/src/sequence.rs:59-72 | Removing single numbers while moving range bounds changes neither what the ranges cover nor that every single number left has a range of its own; no single number is left |
| `Normalizing.NormalFormIsCanonical` | imap-types/src/sequence.rs:39-106 | Sets with the same numbers, reading `*` as 2^32-1, have the same normal form |
| `Normalizing.NormalFormKeepsMembers` | imap-types/src/sequence.rs:39-106 | The normal form stands for the same numbers if and only if 2^32-2 is not in the set, or 2^32-3 and 2^32-1 are both in it or both not |
| `Normalizing.NormalFormOfModestSet` | imap-types/src/sequence.rs:39-106 | In particular it does when every number written is at most 2^32-3 |
| `Normalizing.NormalFormCanChangeMeaning` | imap-types/src/sequence.rs:83-85 | A concrete set whose meaning changes: an exclusive end of 2^32-1 is written as `*` |
| `Normalizing.NormalizeIsIdempotent` | imap-types/src/sequence.rs:39-106 | Normalizing twice changes nothing more, for every set |
| `Normalizing.NormalFormIsSorted` | imap-types/src/sequence.rs:99-103 | Each sequence of a normal form ends, with a gap, before the next begins, and is itself normalized |
| `Rereading.NormalFormKeepsReading` | imap-types/src/sequence.rs:39-106 | For every set and every largest: the normal form, with `*` read as largest, stands for what the set stands for if and only if no number above largest that is written in the set lies, with its predecessor, in the interval up to `*`, and the last interval is not one that is written differently than it is read (sets with 2^32-2) |
| `Rereading.ModestReading` | imap-types/src/sequence.rs:39-106 | For sets that write no number above 2^32-3 only the first part of the condition is left |
| `Rereading.SmallNumbersKeepReading` | imap-types/src/sequence.rs:39-106 | In particular the reading is kept when no number written exceeds largest or 2^32-3 |
| `Rereading.LargeNumbersBreakReading` | imap-types/src/sequence.rs:39-106 | A concrete set whose reading changes: "7,5:*" becomes "5:*", which with largest 3 loses the number 7 |
| `Iterating.Cleanup` | imap-types/src/sequence.rs:757-778 | Sorted disjoint ranges that cover the same numbers, also where the end saturates |
| `Iterating.SequenceSetIter.Next` | imap-types/src/sequence.rs:693-713 | Yields the first of the remaining numbers, over ascending and descending ranges, and none exactly when none remain |
| `Iterating.Iter` | imap-types/src/sequence.rs:632-640 | Strictly ascending, exactly the numbers of the set, never zero, for every largest |
| `Iterating.IterNaive` | imap-types/src/sequence.rs:664-671 | The result is one run per sequence, in the order written, put together: a single number is a run of its own, and the run of a range with bounds x and y has |x-y|+1 numbers and goes from x to y step by step, upwards or downwards, so that "3:1" yields 3, 2, 1 |
| `Iterating.NaiveRunByRun` | imap-types/src/sequence.rs:715-755 | The same for the value-level iteration that the other results speak of, stated without the bounds' simplification or the visiting of ranges |
| `Iterating.FastRefinesNaive` | imap-types/src/sequence.rs:632-671 | Fast iteration is sorting and deduplicating the naive iteration, and nothing else is |
| `Iterating.NormalizeKeepsIteration` | imap-types/src/sequence.rs:632-640 | Iteration yields the same numbers before and after normalizing if and only if the condition of the reading holds |
| `Quoting.EscapeQuotedInPasses` | imap-types/src/utils.rs:112-124 | The two conditional replace passes equal a byte-by-byte escape |
| `Quoting.UnescapeQuotedInPasses` | imap-types/src/utils.rs:126-138 | On a well-formed body the two conditional replace passes equal one left-to-right pass |
| `Quoting.UnescapeIsSinglePass` | imap-types/src/utils.rs:126-138 | The two global replacements of unescaping never interfere on a well-formed quoted body |
| `Quoting.UnescapeOfEscape` | imap-types/src/utils.rs:112-138 | Unescaping inverts escaping for every text |
| `Quoting.EscapeInvertsUnescape` | imap-types/src/utils.rs:112-138 | Escaping inverts unescaping exactly on well-formed bodies |
| `Strings.NumberRoundTrip` | imap-codec/src/core.rs:38-46 | A decimal number is read back if it fits 32 bits and refused otherwise |
| `Octets.ShowNatIsShort` | imap-codec/src/codec/encode.rs:801-814 | The number formatter writes no leading zeros |
| `Strings.QuotedRoundTrip` | imap-codec/src/core.rs:89-109 | A quoted string is read back as the text, whatever follows |
| `Strings.LiteralRoundTrip` | imap-codec/src/core.rs:153-195 | A literal with anything behind it is read back, with its mode, if its length fits 32 bits, and refused otherwise |
| `Strings.LiteralStops` | imap-codec/src/core.rs:165-178 | An announcement with nothing behind it stops the reader with its length and mode |
| `Strings.NullFails` | imap-codec/src/core.rs:183-193 | A literal with a null byte is a failure, which no alternative catches, wherever a string may stand |
| `Strings.NStringRoundTrip` | imap-codec/src/core.rs:236-248 | NIL and strings are read back as what they are |
| `Strings.AStringRoundTrip` | imap-codec/src/core.rs:200-214 | Atoms, quoted strings and literals are read back in the form in which they were written |
| `Strings.StringIsGood` | imap-codec/src/core.rs:75-109 | Whatever is read as a string satisfies the string types' own rules, so building it unvalidated is safe |
| `Strings.AStringStable` | imap-codec/src/core.rs:200-214 | What was accepted or refused as an astring stays so when more bytes arrive |
| `SequenceCodec.SequenceSetRoundTrip` | imap-codec/src/sequence.rs:34-82 | A set is read back with order, range direction and the difference between `*` and 4294967295, when the byte that follows is no digit, comma or colon |
| `SequenceCodec.SequenceSetStable` | imap-codec/src/sequence.rs:34-46 | What was accepted or refused as a sequence set stays so when more bytes arrive |
| `Dates.DateRoundTrip` | imap-codec/src/datetime.rs:22-76 | Every valid date is read back from its quoted form |
| `Dates.DateGrammar` | imap-codec/src/datetime.rs:22-76 | A date is read from exactly its texts: quoted or not, one or two digits for the day, the month in any case of letters, and only days that exist |
| `Keywords.KeywordsClash` | imap-codec/src/search.rs:123-233 | No keyword of the search grammar is a prefix of another, so the order of the alternatives cannot hide one |
| `Nom.TagSpelled` | imap-codec/src/search.rs:123-233 | A word is read in every spelling that differs only in the case of letters, and from nothing else of its length |
| `Search.KeyReads` | imap-codec/src/search.rs:107-241 | On every text of a key, with keywords in any case of letters, numbers with leading zeros and strings in any form: the reader returns the key, or fails with the recursion limit, or with an error, according to the first thing in reading order that is nested too deeply or too long to be announced |
| `Search.SearchKeyRoundTrip` | imap-codec/src/search.rs:107-241 | The key is read back if and only if it is nested at most as deeply as the limit allows and all its literals have 32-bit lengths; when only the nesting is too deep the outcome is the recursion-limit failure |
| `Search.SearchKeyStable` | imap-codec/src/search.rs:107-241 | For every limit and every input: an accepted key is read the same, an error stays an error and a failure other than a request for literal data stays the same failure when more bytes arrive |
| `SearchLegality.KeyIsAccepted` | imap-codec/src/search.rs:107-241 | The limit is effective: on every input, whatever is read is a valid key of at most that many levels |
| `SearchLegality.KeyGrammar` | imap-codec/src/search.rs:107-241 | The language of search keys: a key is read, and the input behind it left, if and only if the input is a text of the key, the key is nested at most as deeply as the limit allows and its literals have 32-bit lengths |
| `SearchLegality.ReadKeysCanBeWritten` | imap-codec/src/search.rs:107-241 | Whatever was read as a key can be written and read again to the same key |
| `SearchCommands.SearchReads` | imap-codec/src/search.rs:32-57 | On every text of a SEARCH command behind its word: charset and criteria are read, or, if a criterion is nested more than nine levels deep, the recursion-limit failure is the outcome |
| `SearchCommands.SearchCommandRoundTrip` | imap-codec/src/search.rs:32-57 | A SEARCH command with its charset is read back if and only if no criterion is nested more than nine levels deep and all literals fit |
| `Envelopes.EnvelopeRoundTrip` | imap-codec/src/envelope.rs:33-205 | Every legal envelope is read back, whatever follows it |
| `Envelopes.EnvelopeIsGood` | imap-codec/src/envelope.rs:33-205 | Whatever is read as an envelope is legal |
| `Envelopes.EnvelopeGrammar` | imap-codec/src/envelope.rs:33-205 | The language of envelopes: one is read from exactly its texts |
| `BodyFields.FieldsRead` | imap-codec/src/body.rs:185-236 | Basic fields are read from every text of them, with an empty parameter list as NIL or as `()` |
| `BodyExtensions.ExtensionReads` | imap-codec/src/body.rs:416-438 | An extension value is read from every text of it if it is within the limit, and fails with the recursion limit otherwise |
| `BodyTails.OneStringReads` | imap-codec/src/body.rs:380-388 | A language that is one string without parentheses is read as the list of that string |
| `BodyTails.SingleReads` | imap-codec/src/body.rs:324-394 | The chain of optional extension data is read from every text of it, with languages in either form, or fails with the recursion limit |
| `BodyTails.MultiReads` | imap-codec/src/body.rs:487-519 | The same for multipart bodies |
| `BodyReading.BasicPartReads` | imap-codec/src/body.rs:76-109 | A basic part is read as such even when its type is literally TEXT or its type and subtype are MESSAGE and RFC822, in any case of letters |
| `BodyReading.BodyReads` | imap-codec/src/body.rs:33-160 | Every text of a body structure is read if each multipart chain is within the limit (a level costs one, a leaf needs two, an embedded message starts again at 7, extension values at 8), and fails with the recursion limit otherwise |
| `BodyLegality.BodyGrammar` | imap-codec/src/body.rs:33-160 | The language of body structures: for every structure, limit, input and rest, the structure is read with that rest if and only if the input is a text of it and it is within the limit |
| `BodyLegality.BodyRoundTrip` | imap-codec/src/body.rs:33-160 | For every body structure, limit and following bytes: it is read back if and only if it is legal and within the limit |
| `BodyLegality.BodyIsAccepted` | imap-codec/src/body.rs:33-160 | On every input, whatever is read as a body structure is legal and within the limit |
| `BodyLegality.ReadBodiesCanBeWritten` | imap-codec/src/body.rs:33-160 | Whatever was read as a body structure can be written and read again to the same body structure |
| `BodyStability.BodyStable` | imap-codec/src/body.rs:33-160 | For every limit and every input: an accepted body structure is read the same, an error stays an error and a failure other than a request for literal data stays the same failure when more bytes arrive |
| `BodyStability.EnvelopeStable` | imap-codec/src/envelope.rs:33-205 | The same for envelopes |
| `Bodies.BodiesAreMany` | imap-codec/src/body.rs:446-475 | The loop over nested bodies, whose measure is the remaining input although messages raise the counter again, is the general repetition |
| `Bodies.ReadBody` | imap-codec/src/body.rs:33-89 | Terminates on every input, with the remaining input as measure, and uses up input on success |
| `Contexts.EncodeContext.WriteAll` | imap-codec/src/codec/encode.rs:222-226 | Appends to the accumulator and leaves the fragments alone |
| `Contexts.EncodeContext.PushLine` | imap-codec/src/codec/encode.rs:179-183 | The accumulated bytes become a line and the accumulator is empty |
| `Contexts.EncodeContext.PushLiteral` | imap-codec/src/codec/encode.rs:185-190 | The accumulated bytes become a literal with its mode and the accumulator is empty |
| `Contexts.EncodeContext.IntoItems` | imap-codec/src/codec/encode.rs:192-203 | The fragments hold exactly the bytes written so far |
| `Contexts.DumpItems` | imap-codec/src/codec/encode.rs:134-145 | Dumping concatenates the fragments |
| `Encoding.EncodeLiteral` | imap-codec/src/codec/encode.rs:801-814 | Writes what the grammar reads as the literal, as a line that ends in its announcement and a fragment of its own |
| `Encoding.EncodeQuoted` | imap-codec/src/codec/encode.rs:816-820 | Writes what the grammar reads as the quoted string, and nothing the Fragmentizer could take for an announcement or line end |
| `Encoding.EncodeAString` | imap-codec/src/codec/encode.rs:769-776 | Writes what the grammar reads as the astring |
| `Encoding.EncodeSequenceSet` | imap-codec/src/codec/encode.rs:1032-1044 | Joins the sequences with commas as the grammar reads them |
| `EncodingSearch.EncodeKey` | imap-codec/src/codec/encode.rs:909-1030 | Writes what the grammar reads as the search key, keeping the fragments well-formed and tracking whether all literals can be announced |
| `EncodingSearch.EncodeKeys` | imap-codec/src/codec/encode.rs:2076-2091 | Joins the keys of a conjunction with spaces |
| `EncodingBody.EncodeBody` | imap-codec/src/codec/encode.rs:1814-1847 | Writes what the grammar reads as the body structure, keeping the fragments well-formed when it follows the rules of its types, and tracking for every body structure whether all literals can be announced |
| `BodyRules.StructureRules` | imap-codec/src/body.rs:33-160 | Legal, as the results on reading say it, means exactly: the rules of the types are followed, and all literals have 32-bit lengths |
| `EncodingBody.EncodeExtension` | imap-codec/src/codec/encode.rs:2021-2032 | Writes what the grammar reads as the extension value |
| `EncodingBody.EncodeAddresses` | imap-codec/src/codec/encode.rs:2093-2113 | Writes a list without separators, or NIL |
| `EncodingCommand.EncodeCommandBody` | imap-codec/src/codec/encode.rs:292-325 | Writes a command's body, of which `CommandReading.PutBodyIsText` says what it is a text of, keeping the fragments well-formed |
| `EncodingCommand.Encode` | imap-codec/src/codec/encode.rs:277-284 | For every valid command: the fragments are one complete message; a Fragmentizer fed with them reports exactly these fragments if and only if every literal has a 32-bit length; only the last one completes a message; decoding the bytes gives the command back if and only if, in addition, no criterion is nested more than nine levels deep and no other mailbox goes by the name INBOX |
| `CommandReading.CommandGrammar` | imap-codec/src/command.rs:70-103 | The language of commands, which names no writer: a command is read if and only if the input is a text of it (tag, space, word in any case of letters, arguments in order with spaces between them, CRLF), its literals have 32-bit lengths and its criteria are within the limit |
| `CommandReading.CommandReads` | imap-codec/src/command.rs:70-103 | Every text of a command is read as that command; one whose criteria are only nested too deeply is refused with the recursion limit |
| `CommandReading.CommandIsText` | imap-codec/src/command.rs:70-103 | Whatever is read as a command is a text of it, valid and within the limits |
| `CommandReading.LoginReads` | imap-codec/src/command.rs:473-485 | User name and password are read in this order, separated by a space |
| `CommandReading.RenameReads` | imap-codec/src/command.rs:285-297 | The old name is read first and the new one second |
| `CommandReading.SetAndMailboxReads` | imap-codec/src/command.rs:565-577 | COPY and MOVE: the set is read first and the mailbox second |
| `CommandReading.UidReads` | imap-codec/src/command.rs:782-810 | Behind UID, COPY, SEARCH and MOVE are read as what they are, with unique identifiers |
| `CommandReading.BodyDecides` | imap-codec/src/command.rs:533-563 | The word of a command decides: every other alternative, tried before it or after it, leaves the text alone, and UID EXPUNGE is not taken for UID |
| `CommandReading.OthersReject` | imap-codec/src/command.rs:150-176 | The words of the commands that the model leaves out are not found on the text of any command of the model |
| `CommandReading.MailboxReads` | imap-codec/src/mailbox.rs:53-64 | INBOX in any case of letters and any form of string is read as the one mailbox of that name, every other string as a mailbox of its own |
| `CommandReading.InboxIsSpelled` | imap-types/src/mailbox.rs:186-193 | The comparison that recognizes INBOX accepts exactly its spellings |
| `CommandReading.PutCommandIsText` | imap-codec/src/codec/encode.rs:277-325 | What is written for a valid command is a text of it: arguments in order, at their places |
| `CommandReading.CommandRoundTrip` | imap-codec/src/command.rs:70-103 | For every valid command: it is read back, whatever follows, if and only if every literal fits, no criterion is nested more than nine levels deep and no mailbox other than INBOX goes by that name |
| `CommandReading.ReadCommandsCanBeWritten` | imap-codec/src/command.rs:70-103 | Whatever was read as a command can be written and read again to the same command |
| `CommandStability.CommandStable` | imap-codec/src/command.rs:70-103 | On every input: a command that was read is read the same with more bytes behind it, an error stays an error and a failure other than a request for literal data stays the same failure |
| `CommandDelivery.PartOfCommand` | imap-codec/src/codec/decode.rs:319-345 | No proper part of a command that decodes is decoded or refused: the decoder asks for more bytes, or for literal data together with the tag of that very command |
| `SearchRequests.KeyRequests` | imap-codec/src/search.rs:107-241 | Reading a search key asks for literal data if and only if the input is a key within the limit, with whole keys before it in its conjunctions, up to an announcement where a string is expected |
| `CommandDelivery.LiteralRequests` | imap-codec/src/codec/decode.rs:330-339 | The decoder reports a literal, with tag, length and mode, if and only if the bytes are a command with that tag up to the announcement of that length and mode in place of a string: a user name, password, mailbox or a string in a search key, at any depth within the limit |
| `CommandDelivery.CommandArrives` | imap-codec/src/codec/decode.rs:319-345 | From client to server: whenever a message is complete, however the bytes arrived, decoding gives the command that was encoded if and only if the message is within the size limit and not poisoned, the criteria are within the limit and INBOX is named as such; it never gives another command |
| `Agreement.EncoderAndFragmentizerAgree` | imap-codec/src/codec/encode.rs:801-814 | For every well-formed encoding: splitting the dumped bytes gives exactly the encoder's lines and literals, with positions, modes and lengths, if and only if every literal has a 32-bit length |
| `Agreement.MessageInStream` | imap-codec/src/codec/encode.rs:801-814 | The same with any bytes behind the message, which are then split as if they stood alone |
| `Deliveries.MessagesAgree` | imap-codec/src/codec/encode.rs:801-814 | A stream of any number of encoded messages is split into the fragments of all of them, with positions that start anew in each, if and only if every literal of every message has a 32-bit length |
| `Deliveries.AnyDelivery` | imap-codec/src/fragmentizer.rs:120-169 | However much of the dumped messages has arrived, however it was cut and whenever progress was asked for, the reported fragments are a prefix of the encoder's, and all of them once everything has arrived and the Fragmentizer is drained |
| `Deliveries.DeliveredBytes` | imap-codec/src/fragmentizer.rs:172-180 | When the k-th fragment is reported it is the encoder's k-th fragment, and the bytes a Fragmentizer returns for it are that fragment's bytes; only a size limit cuts them short |
| `Deliveries.DeliveredMessage` | imap-codec/src/fragmentizer.rs:187-201 | Whenever a message is complete, its bytes are those of one message sent, namely the one whose last fragment was reported last |
| `Deliveries.DecodesWhatWasSent` | imap-codec/src/fragmentizer.rs:253-282 | A complete message decodes to a value if and only if the bytes of the message that was sent do, it did not exceed the limit and was not poisoned |
| `Deliveries.RefusesWhatWasSent` | imap-codec/src/fragmentizer.rs:253-282 | A refusal, too, is always about the message that was sent, with the same exact conditions |
| `Agreement.OneMessage` | imap-codec/src/codec/encode.rs:192-203 | All fragments but the last leave the message open and the last completes it |
| `Agreement.SameBytes` | imap-codec/src/codec/encode.rs:134-145 | In the dumped bytes, those of a fragment stand behind those of the fragments before it |

## Left out

- EncodingCommand.EncodeCommandBody: the commands without arguments, LOGIN, those with one mailbox, RENAME, UID EXPUNGE, SEARCH, COPY and MOVE; AUTHENTICATE, LIST, STATUS, APPEND, STORE, FETCH, ENABLE, SORT, THREAD, METADATA, quota and other extension commands would only add flat alternatives, or need base64 and flags.
- Recognizers.TagRecognizersAgree: the tag check of `Tag::try_from` is the character class of tags; other validation errors are not modelled.
- CommandReading.BodyDecides: the alternatives that the model leaves out are not tried; `CommandReading.OthersReject` says that they would not have been taken.
- Reading of responses around a body structure: flat alternatives without nesting.
- Error payloads of recoverable errors and the input slices stored in failures; only the kinds of failures that callers distinguish are kept.
- Agreement of encoder and Fragmentizer for continuation requests, status texts and codes, where a text that ends in braces and a number is a documented corner case.
- `HashSet` iteration order is an arbitrary choice, `Vec`, `VecDeque` and `Cow` are sequences, and messages have unbounded length; lifetimes, redaction, formatting and `serde` carry no protocol content.
- The order on sequences and their conversions from Rust integers and ranges: no part of the modelled algorithms uses them.
- chrono is not part of this model: a date is a year, month and day of the proleptic Gregorian calendar with at most four digits for the year; times and zones are left out.
- `decode_message` takes the decoder as a parameter, of which `CommandDelivery.DecodeCommand` is one; the decoders for greetings, responses and authentication data are not part of this model.
- Literal8, base64, UTF-8 quoted strings, and all `ext_*` and `quirk_*` variants.
