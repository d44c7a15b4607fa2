# Verified model of tpt-telemetry's engines and protocols

A Dafny model of the parts of tpt-telemetry that turn bytes into records and move them on:

- the incremental TCP syslog decoder (octet counting and LF framing, sections 3.4.1 and 3.4.2 of RFC 6587),
  the connection loop around it, and the shared counters and bounded ring of the server under every
  interleaving of its threads;
- the buffered line reader;
- the greedy backtracking matcher of compiled schemas, the dispatch over formats, and typed, redacted records;
- the Grok tokenizer, its twin in the schema parser, the recursive expansion of references, the compilation of
  a pattern, and the literal pre-scan;
- the lowering of a schema and the code generator, with a reader of what it writes;
- the OTLP exporter's batching and retry loop.

Each engine has a plain meaning that does not mention its algorithm (units on the wire, the split of a whole
stream on LF, values that make a pattern spell a line, pieces that print to a pattern, chains of references).
Code that changes state is modelled by classes and methods with loops, proved against specification functions or
relations; the promises are lemmas about those. `dafny verify dfyconfig.toml` checks the project.

| file | about |
|---|---|
| `Wrappers.dfy`, `Bytes.dfy` | options and results; octets, `position`, split/join, decimal numbers |
| `Framing.dfy`, `Chunking.dfy`, `Units.dfy`, `TcpDecoder.dfy` | the decoder: meaning, chunk independence, conservation and round trip, the class |
| `Connection.dfy`, `Server.dfy` | one connection from first byte to close; the server as interleaved atomic steps |
| `StreamReader.dfy` | the line reader over short, interrupted and failing reads |
| `Types.dfy`, `Spelling.dfy` | capture types, and which texts they accept as which values |
| `Matcher.dfy`, `MatchLaws.dfy`, `Dispatch.dfy`, `Record.dfy` | tilings and the search, laws of patterns, entry points, records |
| `Grok.dfy`, `Cutting.dfy`, `Tokens.dfy`, `SchemaParser.dfy` | cutting and printing patterns, what a scanner knows half-way, the engine's tokenizer and its twin in the schema parser |
| `Expand.dfy`, `Utf8.dfy`, `Prescan.dfy` | expansion and compilation, texts and their bytes, the compiled engine and its pre-scan |
| `Lowering.dfy`, `Quoting.dfy`, `Codegen.dfy`, `Templates.dfy`, `Generator.dfy` | lowering a schema, string literals, generated text and its reader, its fixed texts, the generator's loops |
| `Exporter.dfy` | batches, retries, backoff |

Conventions. `usize` and `u64` are 64 bits wide; where the source can overflow, the model wraps or checks as the
source does. A `Vec<u8>` that methods reassign is a `seq` field; the line reader's buffer, which is compacted and
grown in place, is an `array`. Lines given to the matcher are ASCII, one byte a character. Parsers that belong to
other libraries (floats, IP addresses, timestamps), the digest, `regex` and the network are parameters, and the
theorems hold for every choice of them. The matcher works on bytes; patterns, schemas and generated text are
strings of Unicode characters, so the compiled form the generator writes is a type of its own in `Lowering`. Which
characters `{:?}` shows as they are (`shown`) is a parameter too. A reader, a transport or a thread schedule is an
arbitrary finite script.

## Where the code and its documentation differ

The model follows the code.

- `framing.rs` says decoding is bounded by the frame ceiling. The buffer can grow without bound exactly when it
  holds no space in octet counting or auto-detection, or, in octet counting, a header that is not a length;
  otherwise it is bounded by the header and the ceiling (`Units.UnboundedIff`). A line that arrives with its LF is
  delivered however long it is (`Units.CeilingDependsOnCut`).
- `StreamReader` says it stops at an over-long line. It gives up exactly when a scan meets more than the ceiling
  with no LF in it (`StreamReading.StreamReader.NextLine`), so every run is the split of the stream exactly when no
  line is over the ceiling (`StreamReading.EveryRunSplitsIff`), and a `None` is final exactly when it is not that
  rejection, after which one more call returns the bytes buffered (`StreamReading.NoneIsFinalIff`).
- The mask example `192.168.1.1` to `*****1` is not what the code does (`Records.MaskedAddress`): it keeps two
  characters and writes one star for each of the others (`Records.MaskReveals`).
- A redaction hides only the first of several fields with one name (`Records.AllRedactedIff`), and capture names
  are not checked to be distinct.
- A MAC pair may start with a plus sign (`Types.MacShape`, and `Types.SignedMac` for one such address), as
  `u8::from_str_radix` allows.
- The live connection counter never goes below zero exactly when the cap is under `usize::MAX`
  (`Server.NoUnderflowIff`).
- The backoff doubles up to its cap unless the first doubling wraps below it (`Exporting.BackoffIff`).

## Model

| member | source | states |
|---|---|---|
| Bytes.DecimalParses | tpt-syslog-server/src/framing.rs:98-101 | the decimal rendering of a number parses back to it, and is refused exactly beyond the word |
| Framing.DrainAppend | tpt-syslog-server/src/framing.rs:64-165 | decoding is compositional: later bytes never change a frame already emitted, in all modes, errors included |
| Framing.DrainStops | tpt-syslog-server/src/framing.rs:78-165 | a second drain emits nothing; the mode only ever changes from auto to line framing |
| Chunking.FeedVersusWhole | tpt-syslog-server/src/framing.rs:64-165 | under any chunking the frames are the first frames of the whole stream; without an error everything equals one push of all bytes |
| Chunking.OctetChunking | tpt-syslog-server/src/framing.rs:93-134 | in octet counting frames and errors are independent of the chunking without any condition |
| Chunking.FeedSucceedsIff | tpt-syslog-server/src/framing.rs:146-159 | a chunking is accepted exactly when the whole stream is and no chunk boundary leaves a line at the ceiling without its LF |
| Chunking.ByteAtATime | tpt-syslog-server/src/framing.rs:64-67 | if one byte at a time is accepted, every chunking is, with the same outcome |
| Chunking.RejectIsFinal | tpt-syslog-server/src/framing.rs:112-127 | a rejection other than the line ceiling cannot be averted by more bytes |
| Units.Conservation | tpt-syslog-server/src/framing.rs:93-145 | the bytes taken in are the raw units decoded, in order, followed by the bytes held; every unit obeys its framing |
| Units.LineBuffer | tpt-syslog-server/src/framing.rs:146-158 | in line framing fewer bytes than the ceiling are held after an accepted push, none of them LF |
| Units.OctetFrames | tpt-syslog-server/src/framing.rs:112-133 | octet-counted frames never exceed the ceiling |
| Units.HeaderStallsIff | tpt-syslog-server/src/framing.rs:95-108 | a header stalls an octet-counting connection for good, silently, exactly when it is not a length |
| Units.NoSpaceStalls | tpt-syslog-server/src/framing.rs:93-97 | without a space octet counting and auto-detection hold whatever arrives |
| Units.UnboundedIff | tpt-syslog-server/src/framing.rs:78-165 | after an accepted push the buffer can grow without bound exactly when it is stalled; otherwise header and ceiling bound it |
| Units.FallBackIff | tpt-syslog-server/src/framing.rs:98-106 | auto-detection gives up on counts for good exactly when an all-digit header overflows |
| Units.Undecided | tpt-syslog-server/src/framing.rs:167-172 | auto-detection waits as long as there is no space |
| Units.CeilingDependsOnCut | tpt-syslog-server/src/framing.rs:136-158 | a long line is delivered with its LF and refused without it, exactly from the ceiling on |
| Units.OversizedIff | tpt-syslog-server/src/framing.rs:109-127 | a count is refused exactly over the ceiling or beyond the last address, with both numbers in the error and nothing decoded |
| Units.UnitStep | tpt-syslog-server/src/framing.rs:80-145 | a well-formed message at the front of the buffer is decoded whatever follows it |
| Units.RoundTrip | tpt-syslog-server/src/framing.rs:78-179 | a stream of well-formed messages, mixed framings in auto mode, decodes to exactly the messages sent under every chunking |
| Units.DecimalHeaderWellFormed | tpt-syslog-server/src/framing.rs:93-113 | a payload up to the ceiling behind its decimal length is well-formed |
| Units.LineWellFormed | tpt-syslog-server/src/framing.rs:135-179 | a line without LF or final CR that begins with no digit, holds a space and fits the ceiling is well-formed |
| TcpDecoding.TcpDecoder.constructor | tpt-syslog-server/src/framing.rs:47-53 | an empty decoder whose ceiling is at least one |
| TcpDecoding.TcpDecoder.Push | tpt-syslog-server/src/framing.rs:64-67 | appends the chunk and decodes as `Framing.Drain` says; an error empties the buffer |
| TcpDecoding.TcpDecoder.Flush | tpt-syslog-server/src/framing.rs:71-76 | the held bytes become one last frame, if there are any |
| TcpDecoding.TcpDecoder.Drain | tpt-syslog-server/src/framing.rs:78-165 | the loop terminates and computes `Framing.Drain` |
| TcpDecoding.TcpDecoder.TakeCounted | tpt-syslog-server/src/framing.rs:93-134 | the octet-counting arm, with its fall-back, its two rejections and its waits |
| TcpDecoding.TcpDecoder.TakeLine | tpt-syslog-server/src/framing.rs:135-160 | the LF arm, with CR stripping and the ceiling |
| Connection.ConnLoop | tpt-syslog-server/src/server.rs:280-342 | the `deliver` calls of a connection are its frames in order and, after a clean end, the bytes left |
| Connection.Tagged | tpt-syslog-server/src/server.rs:305-317 | messages carry the payloads in order, tagged as octet counting exactly when that is configured |
| Connection.ReceivedMeaning | tpt-syslog-server/src/server.rs:291-324 | timeouts are ridden out, and nothing after an end is read |
| Connection.ReceiveLoop | tpt-syslog-server/src/server.rs:292-324 | what is handed over when the receive loop ends, with the frames of a failed push still to come |
| Connection.DeliverAll | tpt-syslog-server/src/server.rs:305-317 | every frame is handed over once, in order, with the configured tag |
| Connection.FeedConservation | tpt-syslog-server/src/server.rs:292-324 | over a connection the bytes received are units, held bytes and unread bytes, in order |
| Connection.ClosePath | tpt-syslog-server/src/server.rs:292-340 | nothing decoded is lost or repeated on close, and no byte of a rejected frame is delivered |
| Server.RunKeepsInv | tpt-syslog-server/src/server.rs:249-357 | every interleaving keeps the invariants of slots, ring, counters and order |
| Server.ConnectionCap | tpt-syslog-server/src/server.rs:249-268 | running connections never exceed the cap, the live counter is exact up to the accept in flight, and a connection is refused exactly at the cap |
| Server.NoUnderflowIff | tpt-syslog-server/src/server.rs:254-267 | no `fetch_sub` takes the live counter below zero, exactly for caps under the largest word |
| Server.RingConservation | tpt-syslog-server/src/server.rs:345-357 | the ring is bounded, what entered it is consumed, discarded or queued in order, and the counters add up to the `deliver` calls |
| Server.DroppedIff | tpt-syslog-server/src/server.rs:345-357 | under every schedule a message is dropped as disconnected exactly when the receiver was gone, and as full exactly when it was there and the ring held max(ring capacity, 1) messages |
| Server.RoomDelivers | tpt-syslog-server/src/server.rs:345-352 | with room and a receiver the next message is queued last and counted as delivered |
| Server.NoRoomDrops | tpt-syslog-server/src/server.rs:350-355 | otherwise it is lost and counted as such, and the ring is unchanged |
| Server.DeliveredInOrder | tpt-syslog-server/src/server.rs:305-317 | each thread offers its messages once and in order, and those that enter are a subsequence |
| Server.SubsequenceAt | tpt-syslog-server/src/server.rs:305-317 | a subsequence is found one element after the other |
| Server.ConnectionDelivered | tpt-syslog-server/src/server.rs:280-357 | under every schedule, what a connection thread gets into the ring is, in order, a subsequence of the units the bytes it read are made of and the rest after a clean end; a finished thread has offered all of it |
| Server.PushedConn | tpt-syslog-server/src/server.rs:292-324 | a read keeps a thread's messages equal to the frames of all it has read, also when it ends the receive loop |
| Server.ClosedConn | tpt-syslog-server/src/server.rs:325-340 | the close adds exactly the bytes left over |
| Server.ConnectionServed | tpt-syslog-server/src/server.rs:249-357 | whatever a connection sends, some schedule reads it all up to a rejected frame, consumes every message, drops none, and ends the thread |
| StreamReading.Source.ReadInto | tpt-telemetry-core/src/lib.rs:171-191 | what a `Read` may do: short reads, interrupts, end of file, errors |
| StreamReading.StreamReader.WithCapacity | tpt-telemetry-core/src/lib.rs:93-103 | a fresh reader over the whole source |
| StreamReading.StreamReader.WithMaxLineLen | tpt-telemetry-core/src/lib.rs:110-113 | the ceiling is at least one and nothing else changes |
| StreamReading.StreamReader.NextLine | tpt-telemetry-core/src/lib.rs:122-197 | one call returns the next line, the raw tail, nothing at the end, or gives up, exactly when its last scan met more than the ceiling and no LF; the buffer bound holds |
| StreamReading.StreamReader.Settle | tpt-telemetry-core/src/lib.rs:123-160 | one round of the loop returns a line, the tail, the end or a rejection, or leaves the reader as it was to read on |
| StreamReading.StreamReader.TakeLine | tpt-telemetry-core/src/lib.rs:124-136 | a line complete in the buffer is the first line of all that is left |
| StreamReading.StreamReader.Unterminated | tpt-telemetry-core/src/lib.rs:138-146 | after the end the tail is returned once, raw |
| StreamReading.StreamReader.Abandon | tpt-telemetry-core/src/lib.rs:153-160 | giving up records the error, stops, and leaves the buffered bytes |
| StreamReading.StreamReader.Compact | tpt-telemetry-core/src/lib.rs:163-167 | compaction in place keeps the pending bytes |
| StreamReading.StreamReader.Grow | tpt-telemetry-core/src/lib.rs:168-170 | growth keeps the pending bytes, makes room for a non-empty read, and stays within the bound |
| StreamReading.StreamReader.ReadMore | tpt-telemetry-core/src/lib.rs:171-195 | one read moves bytes from source to buffer and loses none; errors and end of file stop reading |
| StreamReading.RunIsSplit | tpt-telemetry-core/src/lib.rs:122-197 | for every reader behaviour the calls return the split of the whole stream, then `None` for ever with the source's error on record |
| StreamReading.RunIsPrefix | tpt-telemetry-core/src/lib.rs:122-197 | with no bound on lines, what is returned before the first `None` is still the first lines |
| StreamReading.LongTailRejected | tpt-telemetry-core/src/lib.rs:153-160 | an unterminated tail over the ceiling is always rejected |
| StreamReading.TerminatedRejectedIff | tpt-telemetry-core/src/lib.rs:123-160 | a terminated line is rejected exactly when the last scan passed the ceiling before its LF, and returned otherwise |
| StreamReading.LeftoverAfterOverlong | tpt-telemetry-core/src/lib.rs:138-160 | after a rejection one call returns the leftover, and only then `None` for ever |
| StreamReading.NoneIsFinalIff | tpt-telemetry-core/src/lib.rs:138-160 | a `None` is followed only by `None` exactly when it is not a rejection |
| StreamReading.EveryRunSplitsIff | tpt-telemetry-core/src/lib.rs:122-197 | every run is the split of the stream exactly when no line is over the ceiling |
| StreamReading.ReadLines | tpt-telemetry-core/src/lib.rs:296-304 | reading to the end gives all lines, or only the first ones and a rejection; with one-byte reads it is rejected exactly when a line is over the ceiling |
| StreamReading.ReadTrickle | tpt-telemetry-core/src/lib.rs:93-197 | for every stream, first buffer and ceiling a source that trickles makes a fresh reader reject exactly when a line is over the ceiling, and return all lines exactly otherwise |
| StreamReading.WrittenLinesBack | tpt-telemetry-core/src/lib.rs:124-146 | lines written with LF or CR LF, and a tail, read back as the lines without their endings, then the tail |
| StreamReading.WrittenBoundedIff | tpt-telemetry-core/src/lib.rs:153-160 | such a stream is within the ceiling exactly when each line is, its CR included, and the tail |
| StreamReading.ReadWritten | tpt-telemetry-core/src/lib.rs:93-197 | a reader over any source of written lines within the ceiling returns exactly the lines written |
| Types.ParseMac | tpt-telemetry-compiler/src/compile.rs:320-336 | the loop accepts six two-character hexadecimal parts and returns their bytes |
| Types.SignedMac | tpt-telemetry-compiler/src/compile.rs:320-336 | an address with a signed pair is accepted |
| Types.MacShape | tpt-telemetry-compiler/src/compile.rs:320-336 | which seventeen-character texts those are |
| Spelling.UnsignedIff | tpt-telemetry-compiler/src/compile.rs:302 | an unsigned parse reads exactly the decimals below two to the power of 64, zeros and a plus sign allowed |
| Spelling.SignedIff | tpt-telemetry-compiler/src/compile.rs:301 | a signed parse reads exactly the decimals of 64-bit numbers, zeros and a sign allowed |
| Spelling.BoolIff | tpt-telemetry-compiler/src/compile.rs:304-309 | a truth value is one of four words, letters in either case |
| Spelling.HexPairIff | tpt-telemetry-compiler/src/compile.rs:320-336 | a pair is two hexadecimal digits in either case, or a plus sign and one |
| Spelling.MacRoundTrip | tpt-telemetry-compiler/src/compile.rs:320-336 | six bytes written with colons or hyphens read back |
| Spelling.StringAccepts | tpt-telemetry-compiler/src/compile.rs:282-300 | a string capture takes every text, and only a string capture the empty one |
| Spelling.IntAccepts | tpt-telemetry-compiler/src/compile.rs:301 | an integer capture takes exactly the written 64-bit numbers |
| Spelling.UintAccepts | tpt-telemetry-compiler/src/compile.rs:302 | an unsigned capture takes exactly the written unsigned numbers |
| Spelling.BoolAccepts | tpt-telemetry-compiler/src/compile.rs:304-309 | a truth capture takes exactly the four words |
| Spelling.ParsedAccepts | tpt-telemetry-compiler/src/compile.rs:303-315 | the other captures take what their parsers accept, and addresses of the given shape |
| Matching.MatchSegments | tpt-telemetry-compiler/src/compile.rs:255-293 | true exactly when a tiling exists; the lexicographically greatest one is pushed, and a failure leaves the stack as found |
| Matching.TilingFits | tpt-telemetry-compiler/src/compile.rs:221-235 | the fields of a tiling have the captures' names and types and, with the literals, spell the line |
| Matching.FitTiles | tpt-telemetry-compiler/src/compile.rs:255-293 | values that fit the pattern give a tiling |
| Matching.MatchesIff | tpt-telemetry-compiler/src/compile.rs:255-293 | the search succeeds exactly when some values of the declared types make the pattern spell the line |
| MatchLaws.StringMatchesAll | tpt-telemetry-compiler/src/compile.rs:255-293 | a single string capture matches every line, the empty one included |
| MatchLaws.StringReplaceable | tpt-telemetry-compiler/src/compile.rs:255-293 | the text at a string capture may be replaced by any other |
| MatchLaws.EmptyIsString | tpt-telemetry-compiler/src/compile.rs:282-293 | no capture of another type holds the empty text |
| MatchLaws.BetweenTexts | tpt-telemetry-compiler/src/compile.rs:255-293 | a string capture between two texts matches exactly the lines that begin and end with them |
| MatchLaws.GreedyFromTheLeft | tpt-telemetry-compiler/src/compile.rs:268-293 | the match found differs from any other first at a capture it ends later |
| Dispatch.MatchInto | tpt-telemetry-compiler/src/compile.rs:76-79 | a reused context is as good as a fresh one |
| Dispatch.IntoRaw | tpt-telemetry-compiler/src/compile.rs:221-235 | the fields of the captured ranges |
| Dispatch.MatchesAny | tpt-telemetry-compiler/src/compile.rs:165-173 | true exactly when some format matches |
| Dispatch.MatchLine | tpt-telemetry-compiler/src/compile.rs:153-161 | the first format that matches, with its greediest match |
| Dispatch.ParseLine | tpt-telemetry-compiler/src/compile.rs:142-149 | the same choice and fields, with the values they must have |
| Dispatch.ChoiceUnique | tpt-telemetry-compiler/src/compile.rs:142-173 | that choice is unique, so the entry points agree |
| Dispatch.FirstFormatWins | tpt-telemetry-compiler/src/compile.rs:142-173 | the first format that matches is the choice, whatever comes after it |
| Dispatch.DelimitedRecovered | tpt-telemetry-compiler/src/compile.rs:255-293 | a line joined from values of the declared types, in which the separator, of any length, occurs only where it was put, matches and gives back exactly those values |
| Dispatch.CharactersRecovered | tpt-telemetry-compiler/src/compile.rs:255-293 | for a separator of one character it is enough that no value holds it |
| Records.BuildRecord | tpt-telemetry-compiler/src/compile.rs:392-435 | every field has the value it must have: redacted if it is the first of a redacted name, coerced otherwise |
| Records.FieldTyped | tpt-telemetry-compiler/src/compile.rs:450-507 | a matched field that nothing coerces or redacts has its declared variant, never the string fallback |
| Records.RedactedValue | tpt-telemetry-compiler/src/compile.rs:414-429 | the last redaction that names a field decides: mask or digest of the text captured |
| Records.CoercedValue | tpt-telemetry-compiler/src/compile.rs:450-476 | the first coercion that names a field decides, unless it is redacted |
| Records.DeclaredValue | tpt-telemetry-compiler/src/compile.rs:392-412 | a field nothing coerces or redacts is its text as its own capture's type |
| Records.IntValueIff | tpt-telemetry-compiler/src/compile.rs:482 | an integer value is the number written |
| Records.UintValueIff | tpt-telemetry-compiler/src/compile.rs:483 | an unsigned value is the number written |
| Records.ScalarValues | tpt-telemetry-compiler/src/compile.rs:480-507 | three words are true, a string is itself, and a text that does not parse stays as it is |
| Records.AddressValue | tpt-telemetry-compiler/src/compile.rs:502 | an address becomes its six bytes |
| Records.EnumByNumber | tpt-telemetry-compiler/src/compile.rs:460-466 | a number below the count of variants is the index |
| Records.EnumByName | tpt-telemetry-compiler/src/compile.rs:467-470 | any other text is the first variant of that name in either case, or stays as it is |
| Records.AllRedactedIff | tpt-telemetry-compiler/src/compile.rs:414-429 | all fields of a redacted name are hidden exactly when the name occurs once |
| Records.MaskedAddress | tpt-telemetry-compiler/src/compile.rs:509-518 | the mask of the documented example, which is not the documented one |
| Records.MaskShape | tpt-telemetry-compiler/src/compile.rs:510-518 | the mask is as long as the text, ends in its last two characters, and is stars before them |
| Records.MaskReveals | tpt-telemetry-compiler/src/compile.rs:510-518 | two texts have the same mask exactly when they agree in length and in the last two characters |
| Grok.CloseMeaning | tpt-grok-engine/src/compile.rs:36-48 | the brace scanner stops at the first return to depth zero |
| Grok.CutRender | tpt-grok-engine/src/compile.rs:25-61 | cutting a printing of well-cut pieces gives the pieces |
| Grok.RenderCut | tpt-grok-engine/src/compile.rs:25-61 | printing the pieces of a balanced pattern gives the pattern, and they are well cut |
| Grok.CutsIff | tpt-grok-engine/src/compile.rs:46-48 | a pattern is refused as unbalanced exactly when it prints no well-cut pieces |
| Tokens.MatchBrace | tpt-grok-engine/src/compile.rs:36-48 | the inner loop finds the closing brace, or that there is none |
| Tokens.TokenizeGrok | tpt-grok-engine/src/compile.rs:25-83 | one pass gives the tokens in order, or the error of the first piece at fault |
| Tokens.PrintTokenize | tpt-grok-engine/src/compile.rs:25-83 | printing the tokens of an accepted pattern gives the pattern |
| Tokens.TokenizePrint | tpt-grok-engine/src/compile.rs:25-83 | tokenizing printed well-formed tokens gives the tokens |
| Tokens.CaptureParts | tpt-grok-engine/src/compile.rs:63-83 | a reference is its one to three parts, and refused with more |
| Tokens.FirstFault | tpt-grok-engine/src/compile.rs:25-83 | a refused pattern reports its first malformed reference, else that one never closes |
| SchemaParser.ClosingBrace | tpt-telemetry-schema/src/parser.rs:232-245 | the schema parser's own inner loop finds the closing brace, or that there is none |
| SchemaParser.TokenizePattern | tpt-telemetry-schema/src/parser.rs:220-258 | the schema parser's own pass gives the parts in order, or the error of the first piece at fault |
| SchemaParser.TwinsAccept | tpt-telemetry-schema/src/parser.rs:220-300 | which patterns each tokenizer accepts, exactly |
| SchemaParser.TwinsAgree | tpt-telemetry-schema/src/parser.rs:220-258 | where both accept they cut at the same places and read each reference alike: name, output field and type |
| SchemaParser.TypeWordIff | tpt-telemetry-schema/src/parser.rs:203-217 | the ten words are the types, and no other text is one |
| SchemaParser.LongReference | tpt-telemetry-schema/src/parser.rs:291-299 | a reference of three or more parts is read by its first three |
| SchemaParser.TwinsRejectUnbalanced | tpt-telemetry-schema/src/parser.rs:243-245 | both refuse an unclosed reference |
| Expansion.ExpandRef | tpt-grok-engine/src/compile.rs:111-136 | terminates, computes `Expand`, and restores the stack on success |
| Expansion.ExpandAll | tpt-grok-engine/src/compile.rs:120-133 | the pieces of a definition expanded in order into a growing text, the stack as found after each |
| Expansion.ExpandsIff | tpt-grok-engine/src/compile.rs:111-121 | succeeds exactly when every chain of references is repeat-free, of at most 64 names, all defined and tokenizing |
| Expansion.ExpandError | tpt-grok-engine/src/compile.rs:111-121 | a failure reports what is wrong with the last name of a chain: a repetition, a sixty-fifth name, no definition, or one that does not tokenize |
| Expansion.ExpansionIsUnfolding | tpt-grok-engine/src/compile.rs:120-135 | the result is the stack-free unfolding at every sufficient depth |
| Expansion.ExpansionIsPlain | tpt-grok-engine/src/compile.rs:122-135 | the result holds no reference opener |
| Expansion.Compile | tpt-grok-engine/src/compile.rs:86-108 | one shared stack gives each top-level reference its expansion from an empty stack |
| Expansion.CompilesIff | tpt-grok-engine/src/compile.rs:90-106 | compilation succeeds exactly when each reference expands under a valid group name |
| Expansion.CompiledAround | tpt-grok-engine/src/compile.rs:90-106 | the source of each token as it is written, escaped or between the brackets of its group |
| Expansion.CompileFault | tpt-grok-engine/src/compile.rs:90-106 | a failed compilation reports its first token at fault |
| Expansion.GroupNameIff | tpt-grok-engine/src/compile.rs:138-145 | letters, digits and underscores, no digit first |
| Prescan.FastLiteral | tpt-grok-engine/src/compile.rs:149-163 | the first of the longest usable literals, measured in bytes, or none when there is none |
| Prescan.New | tpt-grok-engine/src/lib.rs:28-37 | the engine holds the compiled source and its fast literal, or fails as compilation or the library does |
| Prescan.CompiledItems | tpt-grok-engine/src/compile.rs:86-108 | the compiled source is the escaped literals and, in groups, the expansions, in order |
| Prescan.ExpansionComplete | tpt-grok-engine/src/compile.rs:122-135 | an expansion is a regular expression on its own whenever each definition is one, because references are grouped |
| Prescan.CompiledWellGrouped | tpt-grok-engine/src/compile.rs:92-103 | its groups enclose complete expressions under valid names, because the code checks the name |
| Prescan.QuotedOccurs | tpt-grok-engine/src/compile.rs:86-108 | every match of such a source holds each of its top-level literals |
| Prescan.ScanIsFind | tpt-grok-engine/src/lib.rs:47-65 | the pre-scan of the bytes never changes the answer of the full search of the compiled pattern |
| Prescan.ScanRejectsIff | tpt-grok-engine/src/lib.rs:60-65 | the pre-scan gives up exactly when the fast literal does not occur |
| Utf8.OccursIff | tpt-grok-engine/src/lib.rs:61-63 | a text occurs in another exactly when its bytes do |
| Lowering.Compile | tpt-telemetry-compiler/src/compile.rs:95-139 | every format lowered part by part, or the error of the first part at fault |
| Lowering.CompilesIff | tpt-telemetry-compiler/src/compile.rs:97-118 | a schema compiles exactly when no part is an untyped Grok reference without a native type |
| Lowering.FirstUnsupported | tpt-telemetry-compiler/src/compile.rs:107-110 | the error names the first such part of the first format that has one |
| Lowering.CompiledBecomes | tpt-telemetry-compiler/src/compile.rs:95-139 | what each part becomes: literals stay, captures are named by the output field or else the name, typed as written or by the reference; names, coercions and redactions are kept |
| Lowering.NativeIff | tpt-telemetry-compiler/src/compile.rs:178-193 | which references stand for which native type |
| Lowering.TypedReference | tpt-telemetry-compiler/src/compile.rs:103-117 | a typed reference is the same capture as the native form, whatever the reference |
| Lowering.FieldsStayApart | tpt-telemetry-compiler/src/compile.rs:104 | different output fields never become one segment |
| Quoting.QuoteBack | tpt-telemetry-compiler/src/codegen.rs:27 | an escaped literal reads back as the string, whatever follows it, and stays on one line |
| Quoting.Escapes | tpt-telemetry-compiler/src/codegen.rs:27 | the escapes, character by character |
| Templates.PlainQuote | tpt-telemetry-compiler/src/codegen.rs:27 | printable text without quotes and backslashes is quoted as it is |
| Codegen.SourceBack | tpt-telemetry-compiler/src/codegen.rs:13-108 | reading the generated module rebuilds exactly the formats it was generated from, whatever strings they hold |
| Templates.SegmentLines | tpt-telemetry-compiler/src/codegen.rs:33-57 | the segment lines as the generator writes them |
| Templates.CoercionAndRedactionLines | tpt-telemetry-compiler/src/codegen.rs:66-101 | the coercion and redaction lines as the generator writes them |
| Templates.ModuleTexts | tpt-telemetry-compiler/src/codegen.rs:13-23 | the lines around the formats |
| Generator.EmitPart | tpt-telemetry-compiler/src/codegen.rs:31-59 | the generator's own lowering of a part agrees with the compiler's, error included |
| Generator.EmitCoercions | tpt-telemetry-compiler/src/codegen.rs:63-85 | the coercions in order, enumerations with their variants |
| Generator.GenerateRust | tpt-telemetry-compiler/src/codegen.rs:13-108 | fails exactly as the compiler does; otherwise its text builds what the compiler builds |
| Exporting.Export | tpt-otlp/src/exporter.rs:96-110 | the accepted batches are the records in order, or on failure a proper initial part; batch sizes are within the limit |
| Exporting.ExportPayload | tpt-otlp/src/exporter.rs:112-127 | nothing is sent and nothing waited for when sending in the clear is forbidden; otherwise the retry loop runs |
| Exporting.ExportHttp | tpt-otlp/src/exporter.rs:129-168 | one batch is sent until first accepted, at most one more time than the retries allowed, with the backoffs in between |
| Exporting.BackoffIff | tpt-otlp/src/exporter.rs:133-164 | every wait is the doubled, capped base exactly outside one range of bases |

## Left out

- The grammar walk of the schema parser: a schema's formats are given as data.
- Codegen.SourceBack: the reader understands exactly the statements the generator writes; the rest of Rust, and how `rustc` treats them, is not modelled.
- `hash_value`: a parameter; the FNV loop itself says nothing a reader of records relies on.
- Records.FieldTyped: floats, IP addresses and timestamps are accepted and parsed by one and the same parameter, so it does not cover the inside of those parsers.
- Prescan.ScanIsFind: of `regex` only this is assumed: an escaped text matches itself; escaped texts and groups match one after another, where a group is unnamed or has a valid group name, and what it encloses is a complete expression; and a search finds what its source matches. Of the pattern library, that each definition is a complete expression whatever complete expressions its references stand for.
- Matching.MatchSegments: ASCII lines; the byte-wise slicing of other text is not modelled.
- Sockets, threads, clocks, `recvmsg` control data, the UDP read loop, the kernel overflow counter, the stop flag's timing and message timestamps.
- gRPC, JSON bodies, the metrics endpoint, the daemon, the inference client and the command-line tools.
