# VE.Direct text-frame parser

A Dafny model of the streaming frame extractor in `victronParser.js`. The
extractor reads the text protocol of Victron Energy's VE.Direct interface. A
device sends blocks of `LABEL<tab>VALUE` lines, each line closed by CR LF. A
block ends with a trailer line `Checksum<tab>X`. The byte X makes the sum of
all the bytes of the block 0 modulo 256.

The class `VictronParser` keeps one field, a byte buffer. `processData`
appends a chunk to it. It then repeatedly does three things:

- finds the first `Checksum<tab>` and the first CR LF at or after it;
- cuts everything up to and including that CR LF off the front as a
  candidate frame;
- keeps the frame's decoded fields when the 8-bit byte sum is 0 and at
  least one field was decoded.

After the loop, a buffer longer than 10240 bytes is emptied.
`calculateChecksum` is the 8-bit rolling sum. `parseVEDirectFrame` splits
the frame into CR LF lines and skips these lines:

- empty lines;
- lines starting with `Checksum`;
- lines starting with `:` (hex-protocol messages).

It reads every other line as key and value: the key is the text before the
first tab, and the value is the rest, with any further tabs kept. It skips
empty keys. A later line wins for a repeated key.

The test file `tests/victronParser.test.js` holds a small encoder:

- `formatVEDirectObjectToLines` turns an object into `KEY<tab>VALUE` lines;
- `createVEDirectFrameBufferFromLines` turns the lines into a frame with a
  correct checksum byte.

The test feeds each encoded frame to a fresh parser and expects exactly one
record, equal to the object.

Layout:

- `node_buffer.dfy` (`NodeBuffer`): the runtime primitives the code relies
  on. These are `Buffer.indexOf`, `String.split`, `Array.join` and the
  "ascii" conversions. `toString("ascii")` clears the high bit of each
  byte. `Buffer.from(s, "ascii")` keeps the low byte of each character.
- `victron_parser.dfy` (`Parser`): the constants, and the pure
  specification functions:
  - `NextFrameEnd`, the end of the first candidate frame;
  - `Accept`, the checksum and non-empty test;
  - `DecodeFrame`, the decoder;
  - `Extract`, the cutting loop on a whole buffer;
  - `Process`, one call.

  It also holds the imperative `VictronParser` class. Its methods are proved
  against those functions.
- `parser_properties.dfy` (`ParserProperties`): what the parser guarantees:
  - checksum arithmetic;
  - decoding rules;
  - where frames end;
  - that the chunking of the stream does not matter as long as no call
    resets the buffer.
- `frame_encoder.dfy` (`FrameEncoder`): the two test helpers, as methods
  with loops, and the functions specifying them.
- `round_trip.dfy` (`RoundTrip`): encode-then-parse, and its consequences:
  - several frames in one chunk;
  - a frame delivered in fragments;
  - a corrupted frame followed by a good one;
  - noise overflowing the buffer;
  - the test's own loop body.

The round trip holds under `WellFormedField`:

- the key is non-empty, has no tab, and does not start with `Checksum` or
  `:`;
- key and value are ASCII;
- the line `KEY<tab>VALUE` contains neither CR LF nor `Checksum<tab>`.

The last condition is not only about the start of the key. A key such as
`AChecksum` puts the trailer label inside the data line, and the extractor
then cuts the frame in two after that line. What happens next depends on the
value. For the field `AChecksum` = `1`, both pieces fail the checksum and
nothing is returned (`RoundTrip.KeyHoldingLabel`). For some other values the
first piece happens to sum to 0 modulo 256 and is accepted on its own. The
keys and values the test generates satisfy every condition
(`RoundTrip.GeneratedFieldWellFormed`).

A good frame that follows a corrupted one is read only when the corruption
left the corrupted frame's trailer label and final CR LF in place
(`RoundTrip.CorruptFrameSkipped`). When the corruption hits that label, the
extractor finds the good frame's label first. It then cuts both frames as
one candidate, whose checksum is the corrupted bytes' nonzero sum, and loses
the good frame as well (`RoundTrip.LostLabelSwallowsNext`).

## Model

| member | source | states |
|---|---|---|
| Parser.MarkerBytes | victronParser.js:1-2 | the trailer label is the 9 bytes of `Checksum<tab>` and the separator is CR LF; neither byte 13 nor byte 10 occurs in the label |
| Parser.LineKey | victronParser.js:54-57 | the key of a line that is not skipped, when non-empty, is tab-free and does not start with `Checksum` or `:` |
| Parser.DecodedKeys | victronParser.js:52-59 | every key of a record built from lines is such a key |
| Parser.DecodeFrame | victronParser.js:49-69 | the record a frame decodes to holds only such keys: none empty, none with a tab, none starting a skipped line |
| Parser.Accept | victronParser.js:25-29 | a candidate frame yields at most one record, which is its decoding; it yields one exactly when the checksum is 0 and the decoding has a field |
| Parser.NextFrameEnd | victronParser.js:14-20 | a candidate frame, when there is one, is at least label plus CR LF long (11 bytes) and ends inside the buffer |
| Parser.Extract | victronParser.js:13-31 | the cutting loop leaves a suffix of the buffer that holds no complete trailer; every record it returns has at least one field |
| Parser.Process | victronParser.js:9-37 | after a call the buffer holds at most 10240 bytes, and is either empty or a suffix of old buffer followed by the chunk |
| Parser.CutFrame | victronParser.js:14-23 | one turn of the loop: the two `indexOf` searches find the end `NextFrameEnd` names, and cutting there keeps what the whole buffer extracts to |
| Parser.ChecksumStep | victronParser.js:43-45 | adding one byte to the 8-bit running sum gives the 8-bit sum of the longer prefix |
| Parser.VictronParser.constructor | victronParser.js:5-7 | a new parser has an empty buffer |
| Parser.VictronParser.ProcessData | victronParser.js:9-38 | the returned records and the new buffer are exactly `Process(old buffer, chunk)`; the buffer bound holds after every call |
| Parser.VictronParser.CalculateChecksum | victronParser.js:40-47 | the result is the byte sum modulo 256 |
| Parser.VictronParser.ParseVEDirectFrame | victronParser.js:49-69 | the record filled line by line equals the decoding of the frame's CR LF lines |
| ParserProperties.SumAppend | victronParser.js:42-46 | the byte sum of a concatenation is the sum of the parts' sums |
| ParserProperties.ChecksumAppend | victronParser.js:40-47 | the checksum of a concatenation is the 8-bit sum of the parts' checksums |
| ParserProperties.SingleByteChangeDetected | victronParser.js:25 | changing any one byte of a frame whose checksum is 0 makes the checksum nonzero |
| ParserProperties.FieldOfFirstTab | victronParser.js:56-58 | the key is the text before the first tab and the value everything after it, later tabs included; a line without a tab gives the key with the empty value |
| ParserProperties.DecodeLinesDefined | victronParser.js:52-59 | a key is in the record if and only if some line is not skipped, has a non-empty key, and that key is this one |
| ParserProperties.DecodeLinesLastWins | victronParser.js:56-58 | a key's value is the value of the last line that defines it |
| ParserProperties.TrailerSpan | victronParser.js:17-20 | a CR LF found at or after the label ends at least 11 bytes after the label's start |
| ParserProperties.FrameEndIsFirstTrailer | victronParser.js:14-22 | there is no candidate frame if and only if no label is followed by a CR LF; otherwise the frame ends at the earliest such CR LF |
| ParserProperties.IncompleteTrailerRetained | victronParser.js:14-20 | without a label followed by CR LF nothing is consumed and nothing returned |
| ParserProperties.TrailerWithin | victronParser.js:14-20 | a trailer ending inside a prefix is a trailer of the prefix and of any extension of it |
| ParserProperties.FrameEndExtends | victronParser.js:14-20 | appending bytes does not move a frame end already present |
| ParserProperties.FirstEndsAgree | victronParser.js:14-20 | the earliest trailer end of `x`, when there is one, is also the earliest of `x` followed by more bytes |
| ParserProperties.ExtractAppend | victronParser.js:10-31 | extracting from `x + y` cuts the frames of `x` first, in order, then continues from what `x` leaves followed by `y` |
| ParserProperties.ExtractRestAppend | victronParser.js:10-31 | the bytes left after `x + y` are those left after what `x` leaves, followed by `y` |
| ParserProperties.ExtractAfterComplete | victronParser.js:10-31 | when `x` is consumed completely, `x + y` yields the records of `x` followed by those of `y` |
| ParserProperties.WholeFrame | victronParser.js:22-30 | a buffer that is exactly one candidate frame is consumed whole and yields what `Accept` yields |
| ParserProperties.RejectedWholeFrame | victronParser.js:25-30 | such a frame with a nonzero checksum is dropped and yields nothing |
| ParserProperties.TwoCalls | victronParser.js:9-37 | two calls without a reset in between return what one call with both chunks returns, and leave the same buffer |
| ParserProperties.NoEarlyResetTail | victronParser.js:33-35 | the no-reset condition carries over from a sequence of calls to its tail |
| ParserProperties.FreshProcess | victronParser.js:9-37 | a call on an empty parser is the extraction loop on the chunk alone, then the reset |
| ParserProperties.KeptWithoutReset | victronParser.js:33-35 | a call whose leftover fits in 10240 bytes keeps exactly what the extraction loop leaves |
| ParserProperties.KeptBytesExtract | victronParser.js:23 | the bytes kept after one chunk, followed by more, extract like the whole stream does |
| ParserProperties.ChunkingInvariance | victronParser.js:9-37 | feeding chunks one call at a time equals one call with all of them, as long as no earlier call resets the buffer |
| ParserProperties.OverflowReset | victronParser.js:33-35 | more than 10240 bytes without a trailer label are dropped: nothing is returned and the buffer becomes empty |
| FrameEncoder.ToRecordKeys | tests/victronParser.test.js:62-65 | the record built from an object holds exactly the object's keys |
| FrameEncoder.ToRecordValue | tests/victronParser.test.js:62-65 | each key maps to the value of its last occurrence, which is its only one for an object's own keys |
| FrameEncoder.FormatVEDirectObjectToLines | tests/victronParser.test.js:60-68 | one `KEY<tab>VALUE` line per key, in the object's key order |
| FrameEncoder.CreateVEDirectFrameBufferFromLines | tests/victronParser.test.js:79-113 | the frame is data lines joined and closed by CR LF, the label, the checksum byte, CR LF; its checksum is 0 |
| FrameEncoder.ChecksumByte | tests/victronParser.test.js:92-100 | the checksum byte added to the 8-bit sum of the frame's other bytes gives a multiple of 256 |
| FrameEncoder.EncodeFrame | tests/victronParser.test.js:107-112 | every frame laid out as data lines, label, checksum byte and CR LF has checksum 0, so it passes the parser's test at victronParser.js line 25 |
| FrameEncoder.ClosingByte | tests/victronParser.test.js:92-100 | the byte (256 - sum of the other bytes mod 256) mod 256, placed among them, makes the total checksum 0 |
| FrameEncoder.Complement | tests/victronParser.test.js:100 | adding that byte to the sum gives a multiple of 256 |
| RoundTrip.FieldLineNotSkipped | victronParser.js:54-55 | a line starting with a non-empty key that has no tab and does not start with `Checksum` or `:` is not skipped |
| RoundTrip.FieldLineSplits | victronParser.js:56 | `KEY<tab>VALUE` with a tab-free key splits back into that key and that value |
| RoundTrip.FieldLineDecodes | victronParser.js:53-59 | a well-formed field line is read as its key and value |
| RoundTrip.FieldLinesDecode | victronParser.js:53-60 | the field lines of a well-formed object decode to the object's record |
| RoundTrip.FirstLineBreak | victronParser.js:52 | in text `a` CR LF `t`, where `a` holds no CR LF, the first CR LF is the one after `a` |
| RoundTrip.SplitDataLines | victronParser.js:52 | splitting the encoder's data lines on CR LF gives those lines back, then the pieces of what follows |
| RoundTrip.FrameText | tests/victronParser.test.js:102-112 | decoding an encoded frame as ASCII gives data lines, label, one character, CR LF |
| RoundTrip.TrailerText | victronParser.js:52 | the trailer line splits into the trailer and one empty piece |
| RoundTrip.FrameLines | victronParser.js:52 | the lines of an encoded frame are its data lines, the trailer line and an empty piece |
| RoundTrip.TrailerLinesIgnored | victronParser.js:54-55 | the trailer line and the empty piece leave the record unchanged |
| RoundTrip.EncodedFrameDecodes | victronParser.js:49-69 | an encoded well-formed object decodes to the object's record |
| RoundTrip.DataLinesLabelFree | tests/victronParser.test.js:80 | data lines built from label-free lines hold no label |
| RoundTrip.LabelNotInText | victronParser.js:14 | no label starts inside label-free ASCII text ending in a line feed, whatever follows |
| RoundTrip.OnlyTrailerAtEnd | victronParser.js:14-20 | in such text followed by a trailer line, the only trailer ends at the very end |
| RoundTrip.EncodedTrailer | victronParser.js:14-20 | an encoded frame's only trailer is its own, ending at its last byte |
| RoundTrip.EncodedFrameEnd | victronParser.js:17-20 | an encoded frame is exactly one candidate frame |
| RoundTrip.ExtractEncoded | victronParser.js:13-31 | an encoded frame is consumed whole; it yields the object's record, or nothing for an empty object |
| RoundTrip.RoundTrip | tests/victronParser.test.js:138-146 | a fresh parser fed one encoded frame returns exactly the object's record and keeps nothing |
| RoundTrip.ProcessesIndividualValidFrame | tests/victronParser.test.js:138-146 | with the test's generated data: one record, holding exactly the object's keys with the object's values |
| RoundTrip.FramesInOneChunk | victronParser.js:13-31 | several encoded frames in one chunk yield one record each, in stream order, and leave nothing |
| RoundTrip.FrameThenMore | victronParser.js:13-31 | an encoded frame followed by bytes that extract completely yields its record first |
| RoundTrip.PrefixIncomplete | victronParser.js:14-20 | a proper prefix of a frame whose only trailer ends at its end stays in the buffer and yields nothing |
| RoundTrip.FlattenSplit | victronParser.js:10 | the concatenation of the chunks splits at any chunk boundary |
| RoundTrip.ShortFeedNoReset | victronParser.js:33-35 | chunks that together fit in the buffer never cause a reset |
| RoundTrip.FeedPrefix | victronParser.js:9-37 | the first k chunks of such a delivery are a prefix of the frame, processed as one piece |
| RoundTrip.SilentPrefix | victronParser.js:14-20 | a fresh parser given a proper prefix of such a frame returns nothing |
| RoundTrip.FragmentsBeforeEnd | victronParser.js:14-20 | no call returns anything while the fragments delivered do not make up the frame |
| RoundTrip.FragmentedDelivery | victronParser.js:9-37 | a frame delivered in fragments returns what the frame in one piece returns |
| RoundTrip.FragmentedFrame | victronParser.js:9-37 | an encoded frame in any number of fragments gives its one record, and nothing before the last fragment |
| RoundTrip.SpoiledFrameDropped | victronParser.js:22-30 | an intact frame with one byte changed, still delimited the same way, is consumed and yields nothing |
| RoundTrip.CorruptFrameSkipped | victronParser.js:22-30 | a good frame after a spoiled one is still returned, provided the corruption left the spoiled frame's label and final CR LF in place so that it is still one candidate frame of its own |
| RoundTrip.LostLabelSwallowsNext | victronParser.js:14-25 | label-free text ending in a line feed with a nonzero checksum, such as a frame whose label was corrupted, followed by a good frame: both are cut as one candidate frame and nothing is returned |
| RoundTrip.MergedFrameEnd | victronParser.js:14-20 | such text followed by an encoded frame is exactly one candidate frame |
| RoundTrip.PrefixedFrameRejected | victronParser.js:25 | bytes with a nonzero checksum in front of an intact frame, cut with it as one candidate, make the whole candidate fail the checksum |
| RoundTrip.NoiseThenFrame | victronParser.js:33-35 | after label-free noise over 10240 bytes the buffer is empty, and the next frame is read |
| RoundTrip.FrameThenOverflow | victronParser.js:33-35 | a frame followed by label-free overflow in the same call is returned, and the buffer is emptied all the same |
| RoundTrip.CompleteThenOverflow | victronParser.js:33-35 | bytes consumed completely, then label-free overflow: their records are returned and the buffer is emptied |
| RoundTrip.LabelFreeRetained | victronParser.js:14-15 | bytes without a label stay in the buffer whole |
| RoundTrip.KeyHoldingLabel | victronParser.js:14-20 | for the single field `AChecksum` = `1` the encoded frame is cut after its data line and nothing is returned |
| RoundTrip.SplitFrameRejected | victronParser.js:22-30 | an intact frame cut in two, the first piece failing the checksum, yields nothing |
| RoundTrip.EarlyCandidate | victronParser.js:14-25 | the data line `AChecksum<tab>1` with its CR LF is a whole candidate frame with checksum 197 and is dropped |
| RoundTrip.TrailerLineOnly | victronParser.js:14-25 | a lone trailer line with a nonzero checksum is consumed and dropped |
| RoundTrip.TrailerLineEnd | victronParser.js:14-20 | a lone trailer line is exactly one candidate frame |
| RoundTrip.GeneratedFieldWellFormed | tests/victronParser.test.js:30-50 | keys of capitals and digits, with values of letters, digits and `-`, form well-formed fields |
| RoundTrip.GeneratedObjectWellFormed | tests/victronParser.test.js:30-50 | every generated object is well formed |
| RoundTrip.BatteryFrame | tests/victronParser.test.js:34-35 | a frame with fields `V` and `I` (e.g. 12800 and -500) reads back as exactly those two fields |
| NodeBuffer.IndexOf | victronParser.js:14 | the result is -1 or the first offset at or after the start where the pattern occurs; nothing matches before it |
| NodeBuffer.Split | victronParser.js:52 | a split always has at least one piece |
| NodeBuffer.SplitFirst | victronParser.js:56 | the first piece of a split is a prefix of the text and holds no separator |
| NodeBuffer.Join | victronParser.js:58 | joining a non-empty array gives text that starts with its first part |
| NodeBuffer.JoinSplit | victronParser.js:56-58 | joining the pieces of a split with the same separator gives the text back |
| NodeBuffer.SplitAtFirst | victronParser.js:52 | when the first separator follows `a`, the split is `a` and then the pieces of the rest |
| NodeBuffer.AsciiEncode | tests/victronParser.test.js:102-104 | `Buffer.from(s, "ascii")` gives one byte per character, and an ASCII character becomes its own code |
| NodeBuffer.AsciiDecode | victronParser.js:52 | `toString("ascii")` gives one character per byte, always ASCII, and keeps a byte below 128 as is |
| NodeBuffer.DecodeEncode | tests/victronParser.test.js:89 | decoding ASCII text encoded with "ascii" gives the text back |
| NodeBuffer.EncodedMatch | victronParser.js:14 | over ASCII text, a byte-level match of an encoded pattern is exactly a match of the pattern |

## Left out

- Parser.VictronParser.CalculateChecksum: does not model the `-1` result for an argument that is not a Buffer (victronParser.js:41). The argument is typed as a byte sequence, and `processData` always passes a Buffer.
- The `try`/`catch` and `console.error` in `parseVEDirectFrame` are left out. Decoding a Buffer as ASCII does not throw, and the logging is output only. The decoder is total.
- `index.js` is not part of this model: serial port, database writes, timers and shutdown are I/O and asynchronous plumbing.
- `tests/recordBytes.js` is not part of this model: it only records raw bytes to a file.
- The random generators of the test file are not modelled. Their output is modelled by character classes (`GeneratedKey`, `GeneratedValue`), because `Math.random` and floating point cannot be modelled.
- Buffer aliasing is not modelled: `subarray` shares memory with the old buffer. The buffer is a value sequence, which does not change what any call returns.
- JavaScript objects are modelled as sequences of key/value pairs in key order. Prototype keys such as `__proto__` and the ordering of integer-like keys are not modelled.
- Strings are sequences of characters, not UTF-16 code units. A character outside the Basic Multilingual Plane would be two units in JavaScript.
- `Buffer.from("Checksum\t")` uses UTF-8. For this ASCII text it gives the same bytes as the "ascii" encoding the model uses.
- RoundTrip.CorruptFrameSkipped: covers only corruption that keeps the corrupted frame's trailer label and final CR LF. When the label is hit, the next frame is lost as well, which `RoundTrip.LostLabelSwallowsNext` states.
- RoundTrip.FragmentedDelivery: requires the whole frame to fit in 10240 bytes. The parser needs only each part kept between calls to fit, and a VE.Direct frame is far smaller than that.
- RoundTrip.FragmentedFrame: requires the whole frame to fit in 10240 bytes, for the same reason.
- ParserProperties.ChunkingInvariance: covers only deliveries in which no call before the last empties an over-long buffer. After such a reset the records depend on where the chunks were cut.
