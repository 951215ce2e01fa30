# QSerialTool I/O core in Dafny

This project models two parts of QSerialTool's I/O layer and proves properties about each.

The first is the frame reader of the I/O manager (`IO/Manager.cpp`). Bytes from the serial driver are appended to an accumulation buffer. `readFrames` then repeatedly cuts out the data between a start sequence and a finish sequence. `integrityChecks` looks for an optional `crc8:`, `crc16:` or `crc32:` trailer after each frame. A frame is delivered when it is well framed, and its checksum must match once checksum mode has been latched. An incomplete trailer makes the reader wait for more data. The consumed bytes are removed from the buffer, and a buffer that grows beyond its maximum size is wiped. The model also covers:

- the delimiter setters and their escape decoding;
- the received-bytes counter;
- the disconnect reset;
- the payload bypass;
- the echo of written data.

The second is the console text helpers of `IO/Console.cpp`:

- the command history with its Up/Down cursor;
- `formatUserHex` and `hexToBytes` for hexadecimal input;
- the conversion of a command into bytes, with the line ending, in `send`;
- the line splitting and timestamping done by `append`;
- the `HexDump` / `hexadecimalStr` serialiser used to display received data in hexadecimal.

Layout, module by module:

- `bytes.dfy` (`Bytes`): byte and fixed-width integer types, UTF-8 encoding and big-endian values.
- `qt_seq.dfy` (`QtSeq`): the `QByteArray`/`QString` operations the code relies on, namely `indexOf`, `contains`, `mid`, `left`, `remove`, `chop`, `replace`, and `at` on a null-terminated array. Qt's clamping rules are modelled exactly.
- `escapes.dfy` (`Escapes`): `ADD_ESCAPE_SEQUENCES` and the delimiter fallback.
- `integrity.dfy` (`Integrity`): `integrityChecks` as a function `Validate`, plus its properties.
- `frame_scan.dfy` (`FrameScan`): one pass of the `readFrames` loop as a function `Scan`, plus its properties.
- `manager.dfy` (`IOManager`): the `Manager` class.
  - `ExtractFrames` is the `readFrames` loop.
  - `CheckTrailer` is `integrityChecks` written out branch for branch.
  - Both are proved equal to the specification functions.
- `hex_text.dfy` (`HexText`): `formatUserHex` and `hexToBytes`.
- `hexdump.dfy` (`HexDumpText`): `HexDump` and `hexadecimalStr`.
- `console_lines.dfy` (`ConsoleLines`): the reference definition of what `append` writes.
- `console.dfy` (`IOConsole`): the `Console` class and `send`'s byte conversion.

The checksum primitives `crc8`, `crc16` and `crc32` are a value of type `Checksums` (three functions) that the manager is constructed with. Nothing depends on a particular polynomial. The transport is reduced to three flags:

- a driver is selected;
- the driver is open;
- the MQTT client is subscribed.

`connected()` is computed from these flags exactly as the source does. Qt signals that carry data are recorded in log fields of the manager:

- `frames` for `frameReceived`;
- `rawData` for `dataReceived`;
- `sent` for `dataSent`.

### Where the CRC-8 length check falls short

The comment at IO/Manager.cpp:566 says the length check is there to make sure the buffer holds enough data. The CRC-16 and CRC-32 branches check `offset + 2` (line 591) and `offset + 4` (line 617) against the checksum bytes they read after the header, so they wait while two or more of those bytes are missing. Each of the three checks is one short of the last byte read, though. For CRC-8 this matters most: the check at line 567 is one short of the read at line 573, and it always holds once the header is found. So once a CRC-8 header is present, the code always decides at once: it reads `QByteArray`'s terminating zero as the checksum byte and consumes one byte more than the buffer holds. The model follows the code:

- `Integrity.Crc8NeverIncomplete` proves that the CRC-8 branch is never "incomplete".
- `FrameScan.Crc8FrameWithoutChecksumByte` shows the concrete frame.
- `Integrity.LastChecksumByteMayBeTerminator` states the same one-short read for all three widths.

## Model

| member | source | states |
|---|---|---|
| Escapes.AddEscapeSequences | IO/Manager.cpp:40-51 | Empty text stays empty, non-empty text stays non-empty, and the text never grows. |
| Escapes.Decode | IO/Manager.cpp:31-39 | The intended decoding in one left-to-right pass: each of \a, \b, \f, \n, \r, \t and \v becomes its control character, and every other character is kept. The result is never longer than the text. |
| Escapes.DecodeSteps | IO/Manager.cpp:31-39 | An escape pair decodes to its control character wherever it stands, a character other than a backslash is kept, and a lone trailing backslash stays. |
| Escapes.AddEscapeSequencesDecodes | IO/Manager.cpp:40-51 | For every text, the seven replaces applied in the source's order give exactly `Decode`. No replacement creates or destroys a pair that another replace would see. |
| Escapes.NoBackslashUnchanged | IO/Manager.cpp:40-51 | Text without a backslash is stored unchanged. |
| Escapes.DecodeDelimiter | IO/Manager.cpp:355-388 | A delimiter setter stores the decoded text, or the fallback exactly when the typed text was empty. The stored sequence is never empty. |
| IOManager.Manager.constructor | IO/Manager.cpp:56-77 | Default delimiters "/*", "*/" and ",", a 1 MiB buffer limit, checksum mode off, an empty buffer, a zero counter, and the serial driver selected but not open. |
| IOManager.Manager.SetStartSequence | IO/Manager.cpp:355-362 | The start sequence becomes the decoded text, or "/*". The delimiters stay non-empty. |
| IOManager.Manager.SetFinishSequence | IO/Manager.cpp:368-375 | The finish sequence becomes the decoded text, or "*/". The delimiters stay non-empty. |
| IOManager.Manager.SetSeparatorSequence | IO/Manager.cpp:381-388 | The separator becomes the decoded text, or ",". The delimiters stay non-empty. |
| IOManager.Manager.SetMaxBufferSize | IO/Manager.cpp:343-349 | Sets the buffer limit. |
| IOManager.Manager.ClearTempBuffer | IO/Manager.cpp:491-494 | Empties the accumulation buffer. |
| IOManager.Manager.DisconnectDriver | IO/Manager.cpp:282-308 | Checksum mode is always cleared. With a driver selected, the driver is closed and dropped and the counter and buffer are reset. Otherwise nothing else changes. |
| IOManager.Manager.ProcessPayload | IO/Manager.cpp:323-337 | An empty payload changes nothing. Otherwise the counter grows by its size (reset at UINT64_MAX), and the payload is logged as received data and as one frame. The buffer is untouched. |
| IOManager.AddReceived | IO/Manager.cpp:531-533 | The 64-bit counter plus n. The result is 0 when the sum reaches UINT64_MAX and wraps modulo 2^64 past it, so the counter never holds UINT64_MAX. |
| IOManager.Manager.OnDataReceived | IO/Manager.cpp:517-538 | Without a driver, checksum mode is dropped first. The data is appended to the buffer and a frame pass runs. The counter grows by the data length. The data is logged. Afterwards, when connected, the buffer holds no frame a further pass could take. |
| IOManager.Manager.ReadFrames | IO/Manager.cpp:433-484 | Not connected: nothing changes. Connected: the frames `Scan` finds are emitted in order, its consumed count is removed from the front of the buffer (clamped), a remainder larger than the limit is wiped, and the flag is the one `Scan` latches. |
| IOManager.ExtractFrames | IO/Manager.cpp:440-476 | The loop returns exactly `Scan`'s consumed count, frames and flag. Its invariant is that the cursor is the buffer without its first `bytes` bytes, and each pass shrinks the cursor. |
| IOManager.Manager.IntegrityChecks | IO/Manager.cpp:549-646 | Status, new count and latched flag are those of `Validate` for the current finish sequence and flag. |
| IOManager.CheckTrailer | IO/Manager.cpp:549-646 | The branch-by-branch body of integrityChecks equals `Validate`. |
| IOManager.Manager.WriteData | IO/Manager.cpp:212-231 | When connected, returns the driver's count and logs the prefix of that length when it is positive. Not connected: returns -1 and logs nothing. |
| Integrity.Validate | IO/Manager.cpp:549-646 | Any header found latches checksum mode, which is never cleared here. An incomplete verdict adds nothing to the count, and every other verdict consumes at least the finish sequence. |
| Integrity.ValidateWithoutHeader | IO/Manager.cpp:637-645 | With no header: flag off gives FrameOk and adds the finish length. Flag on gives ChecksumIncomplete and adds nothing. |
| Integrity.ValidateWithHeader | IO/Manager.cpp:559-635 | For the first header in CRC-8, CRC-16, CRC-32 order: the verdict is incomplete iff fewer than width/8 - 1 bytes follow the header. Otherwise the count grows by header length + width/8, and the result is FrameOk iff the big-endian received value equals the checksum of the frame. |
| Integrity.ReceivedIsBigEndian | IO/Manager.cpp:597-627 | The value assembled by shifts is the big-endian value of the 1, 2 or 4 bytes after the header. |
| Integrity.Crc8NeverIncomplete | IO/Manager.cpp:564-580 | With a CRC-8 header present, the verdict is never ChecksumIncomplete, and checksum mode is on. |
| Integrity.LastChecksumByteMayBeTerminator | IO/Manager.cpp:567-573 | With exactly width/8 - 1 checksum bytes present, the last byte read is the terminating zero. |
| Integrity.HeaderContainsFinish | IO/Manager.cpp:453-471 | A cursor holding a header holds the finish sequence no later than the header. |
| FrameScan.FirstStep | IO/Manager.cpp:445-475 | An iteration runs iff the cursor contains both delimiters. A taken frame is never "incomplete" and advances by a positive amount. The checksum flag is never cleared. |
| FrameScan.Scan | IO/Manager.cpp:440-476 | A pass emits at most one frame per cursor byte and never clears the flag. A pass that consumes nothing emits nothing. |
| FrameScan.ScanNoPair | IO/Manager.cpp:445 | A cursor without both delimiters ends the pass with nothing consumed. |
| FrameScan.ScanHeld | IO/Manager.cpp:462-466 | An incomplete trailer rolls back to the last completed frame: the pass consumes and emits nothing from there on. |
| FrameScan.LoopHolds | IO/Manager.cpp:462-466 | The same, measured from the start of the buffer at the loop's cursor. |
| FrameScan.LoopKeeps | IO/Manager.cpp:468-475 | A taken iteration (FrameOk or ChecksumError) keeps the loop invariant: the cursor is the buffer past the counted bytes, the count strictly grows, and only FrameOk frames are appended, in order. |
| FrameScan.ScanOneFrame | IO/Manager.cpp:448-475 | One iteration as the loop performs it: the frame is `left(fIndex)` of the body after the start sequence, and the pass continues at `fIndex + chop`. |
| FrameScan.ScanSkips | IO/Manager.cpp:470-475 | After a taken frame, the pass continues `skip` bytes later with the latched flag. |
| FrameScan.ScanTaken | IO/Manager.cpp:470-475 | The same, with the skip measured in the body after the start sequence. |
| FrameScan.Remaining | IO/Manager.cpp:479-483 | The buffer after a pass is the unconsumed suffix, or empty when that is larger than the limit. It is never larger than the limit unless empty. |
| FrameScan.HeldIsStable | IO/Manager.cpp:462-466 | The iteration the pass stalls on stalls again with the flag it latched. |
| FrameScan.ScanLeavesNoFrame | IO/Manager.cpp:440-483 | Scanning what a pass leaves, with the flag it left, consumes and emits nothing and changes no flag. |
| FrameScan.RemainingHoldsNoFrame | IO/Manager.cpp:479-483 | The buffer left after removal and the size check holds no frame for the next pass. |
| FrameScan.StepAfterStart | IO/Manager.cpp:448-454 | On a buffer that starts with the start sequence, the frame is everything up to the first finish sequence. |
| FrameScan.NoFinishNoHeader | IO/Manager.cpp:560-610 | No finish sequence means no checksum header. |
| FrameScan.NoHeaderAfterFinish | IO/Manager.cpp:560-610 | When the first finish sequence ends the cursor, no header follows it. |
| FrameScan.HeaderAtFinish | IO/Manager.cpp:560-564 | A header at the first finish sequence is the first header occurrence. |
| FrameScan.Crc8Trailer | IO/Manager.cpp:560-580 | The body, finish and "crc8:" are found as a CRC-8 header, and the checksum is read from what follows. |
| FrameScan.PlainFrame | IO/Manager.cpp:433-484 | `start+body+finish` is delivered as `body` and fully consumed when checksum mode is off. When it is on, the frame waits. |
| FrameScan.Crc8Frame | IO/Manager.cpp:433-484 | `start+body+finish+"crc8:"+sum` is fully consumed, and delivered iff `sum` is the CRC-8 of the body. Checksum mode is latched. |
| FrameScan.Crc8FrameWithoutChecksumByte | IO/Manager.cpp:564-580 | Without the checksum byte, the frame is not held: the terminating zero is read as the checksum, and one byte past the buffer is counted. |
| FrameScan.MisorderedDelimiters | IO/Manager.cpp:453-454 | When no finish sequence follows the start sequence, `left(-1)` gives an empty frame. With checksum mode off, that empty frame is emitted first. With it on, the pass waits. |
| Bytes.Utf8 | IO/Console.cpp:352 | `toUtf8` yields at least one byte per character, and ASCII text maps byte for byte. |
| HexText.SimplifiedWithoutSpaces | IO/Console.cpp:238-239 | `simplified()` followed by removing spaces is the text with every white-space character removed. |
| HexText.ReplaceDrops | IO/Console.cpp:576 | `replace(" ", "")` deletes exactly the spaces. |
| HexText.FormatUserHex | IO/Console.cpp:235-256 | The result is the white-space-free input laid out by `Grouped`. Its layout and inverse are the next two rows. |
| HexText.GroupedLayout | IO/Console.cpp:242-252 | The output has a single space after every second character (every third position) and the input characters elsewhere, in order. It never ends with a space, and its length is n + (n-1)/2. |
| HexText.GroupedRoundTrip | IO/Console.cpp:235-256 | Deleting the spaces from the output gives the whitespace-free input back. |
| HexText.FormatKeepsBytes | IO/Console.cpp:235-256 | Text whose only white space is ' ' gives the same bytes through hexToBytes before and after formatUserHex. |
| HexText.HexToBytes | IO/Console.cpp:573-588 | The bytes are the pairs of the space-free text, each parsed base 16. |
| HexText.PairBytesAt | IO/Console.cpp:579-585 | There are ceil(n/2) bytes. Byte k is `toInt(pair 2k, 2k+1, 16)` truncated to 8 bits (0 on parse failure), and an odd tail pairs with the terminating '\0'. |
| HexText.HexPairParses | IO/Console.cpp:583 | Two uppercase hex digits parse back to their byte. |
| HexText.HexDigitsRoundTrip | IO/Console.cpp:573-588 | Bytes written as digit pairs come back unchanged from hexToBytes' pairing and parsing. |
| HexDumpText.AsciiColumn | IO/Console.cpp:49-52 | A byte in ' '..'~' is shown as itself, and any other byte as '.'. |
| HexDumpText.HexDump | IO/Console.cpp:38-75 | The result of the sprintf loop is `Rows(data)`: one text row per 16 bytes, and a padded row for the final partial row. |
| HexDumpText.DumpByte | IO/Console.cpp:47-71 | One iteration writes the byte's "%02X " cell and the trailer of its position, and updates the ASCII column. |
| HexDumpText.RowTrailer | IO/Console.cpp:54-70 | The group gap, the row end (bar, two spaces, ASCII column, space, newline) after every 16th byte, and the padding plus row end after the last byte, branch for branch. |
| HexDumpText.DumpIsRows | IO/Console.cpp:45-72 | What the loop has written after all bytes is the rows of the data. |
| HexDumpText.RowLayout | IO/Console.cpp:47-69 | Every row has its hex cells padded to 50 columns, then a bar and two spaces, then the ASCII column of its bytes, and length 55 + row length. |
| HexDumpText.RowReadsBack | IO/Console.cpp:47 | The two characters at column 3t (+1 after the eighth byte) of a row parse back to byte t. |
| HexDumpText.HexadecimalStr | IO/Console.cpp:626-646 | As written: the dump is the concatenated dumps of 80-byte chunks that start 81 bytes apart. |
| HexDumpText.Line | IO/Console.cpp:636-638 | The inner copy loop takes the next min(80, remaining) bytes. |
| HexDumpText.AsWrittenDropsBytes | IO/Console.cpp:634-642 | As written, the dumped chunks cover only n - n/81 of the n bytes. |
| HexDumpText.AsWrittenLosesByte80 | IO/Console.cpp:634-642 | For 81 bytes, only the first 80 are dumped. |
| HexDumpText.HexadecimalStrFixed | IO/Console.cpp:626-646 | Corrected: the dump is the concatenated dumps of consecutive 80-byte chunks. |
| HexDumpText.FixedCoversAll | IO/Console.cpp:626-646 | The corrected chunks concatenate to the whole data. |
| ConsoleLines.Normalize | IO/Console.cpp:480-482 | `replace("\r\n", "\n")` then `replace("\r", "\n")`. Empty iff the input is empty, and never longer. |
| ConsoleLines.NormalizeNoCarriageReturn | IO/Console.cpp:480-482 | No '\r' survives normalisation. |
| ConsoleLines.NormalizeKeepsPlainText | IO/Console.cpp:480-482 | Text without '\r' is unchanged. |
| ConsoleLines.NormalizeIdempotent | IO/Console.cpp:480-482 | Normalising twice is normalising once. |
| ConsoleLines.StampedStart | IO/Console.cpp:519-524 | The text starts with the timestamp iff the previous text ended a line. Otherwise it starts with the first character. |
| ConsoleLines.StampAfterNewline | IO/Console.cpp:519-524 | A timestamp follows every '\n' that is not the last character. |
| ConsoleLines.StampedConcat | IO/Console.cpp:517-526 | Stamping two pieces is stamping the first, then the second from the line state the first leaves. |
| ConsoleLines.StampedPlain | IO/Console.cpp:519-524 | A piece of a line gets at most one timestamp, in front. |
| ConsoleLines.StampedEmptyTimestamp | IO/Console.cpp:485-490 | Without a timestamp, the text is shown as it is. |
| ConsoleLines.UnstampStamped | IO/Console.cpp:473-534 | Removing the inserted timestamps gives back the normalised text. |
| ConsoleLines.TokensJoin | IO/Console.cpp:497-514 | The tokens join back to the text. |
| ConsoleLines.TokensShape | IO/Console.cpp:497-514 | Every token is "\n" or contains no '\n'. |
| ConsoleLines.RenderTokens | IO/Console.cpp:497-526 | Splitting into tokens and writing them with timestamps at line starts yields `Stamped` of the text. |
| ConsoleLines.EndStateTokens | IO/Console.cpp:517-526 | The line-start flag the token loop leaves is "the text ends in '\n'", or the old flag for empty text. |
| IOConsole.Console.constructor | IO/Console.cpp:80-97 | UTF-8 mode, no line ending, an empty history with the cursor at 0, and an empty screen that starts a line. |
| IOConsole.Console.CurrentHistoryString | IO/Console.cpp:186-192 | The entry at the cursor when 0 <= cursor < count, and "" otherwise. |
| IOConsole.Console.AddToHistory | IO/Console.cpp:558-568 | The oldest entries are dropped down to 100, then the command is appended. The last entry is the command, the count is at most 101, the cursor equals the count, and the current history string is "". |
| IOConsole.Console.HistoryUp | IO/Console.cpp:306-313 | Decrements the cursor only when it is > 0, and keeps it in range. |
| IOConsole.Console.HistoryDown | IO/Console.cpp:322-329 | Increments the cursor only when it is < count - 1, and keeps it in range. |
| IOConsole.Console.Append | IO/Console.cpp:473-534 | Empty text changes nothing. Otherwise the screen gains `Stamped(Normalize(s))` from the old line state, with the timestamp only when asked for. Afterwards the line flag says whether the normalised text ends in '\n'. |
| IOConsole.SplitLines | IO/Console.cpp:497-514 | The first loop of append builds exactly `TokensFrom([], data)`. |
| IOConsole.Console.ShowTokens | IO/Console.cpp:517-526 | The second loop writes `Render` of the tokens and leaves the flag `EndState`. |
| IOConsole.EndingBytes | IO/Console.cpp:355-369 | Nothing, "\n", "\r" or "\r\n". Empty only for NoLineEnding, ends in '\n' unless CarriageReturn, and starts with '\r' unless NewLine. |
| IOConsole.PayloadEnds | IO/Console.cpp:348-369 | The line ending is the tail of the bytes sent, and in hexadecimal mode what precedes it is hexToBytes of the command. |
| IOConsole.HexPayloadRoundTrip | IO/Console.cpp:348-369 | Bytes typed as hex pairs and laid out by formatUserHex are sent as exactly those bytes plus the line ending. |
| IOConsole.AsciiPayload | IO/Console.cpp:352 | ASCII commands in UTF-8 mode are sent byte for byte. |
| IOConsole.Console.Send | IO/Console.cpp:338-373 | Empty data or no connection changes nothing. Otherwise the command is added to the history first, and the manager is handed the converted command plus the line ending. |

## Left out

- Transport drivers, driver selection and connection (`connectDevice`, `toggleConnection`, `setSelectedDriver`, `setDriver`, `IO/Drivers/Serial.h`, `serial/serial.h`): device I/O and Qt wiring. Their effect is the three connection flags.
- The MQTT client behind `connected()` is one flag.
- IOManager.Manager.WriteData: the driver's `write` result is the parameter `written`. The case of being connected through MQTT with no driver (the source would call through a null driver) is not modelled.
- Qt signals that only notify the user interface (`receivedBytesChanged`, `startSequenceChanged`, `historyItemChanged`, `dataReceived()` of the console and so on) are left out. Data-carrying signals are logged.
- The CRC-8/16/32 primitives (IO/Checksum.h is not part of this model) are the functions of a `Checksums` value.
- `QDateTime::currentDateTime` in `append` is the `now` parameter, the already formatted "HH:mm:ss.zzz -> " text.
- Console `save`, `print`, `clear`, the echo/autoscroll/timestamp/mode setters, and `onDataSent`/`onDataReceived`/`dataToString`/`plainTextStr`: file dialogs, printing, and Qt's text codecs. Data and line-ending modes are plain fields.
- IOConsole.Console.Send: the `Manager` singleton is a parameter, and the driver's write count is the parameter `written`, as in WriteData.
- The fixed `char[4096]` buffer of `HexDump`: the output is an unbounded string. Chunks of at most 80 bytes never come close to the limit.
- `QString` holds UTF-16 code units, while the model's strings hold Unicode scalar values. Surrogate pairs and text outside the Basic Multilingual Plane are not distinguished.
- Buffer `reserve` calls have no observable effect and are omitted.

## Findings

| source | as written | input that shows it | evidently intended | confidence | as-written member | corrected member |
|---|---|---|---|---|---|---|
| IO/Console.cpp:634-642 | The loop adds 80 to `i` after copying a line, and the `for` header adds 1 more, so consecutive chunks start 81 bytes apart. | 81 received bytes in hexadecimal display mode: byte 80 is never dumped (and, in general, bytes 80, 161, 242, ...). | Consecutive 80-byte chunks that cover every byte. | not executed | HexDumpText.HexadecimalStr, HexDumpText.AsWrittenLosesByte80, HexDumpText.AsWrittenDropsBytes | HexDumpText.HexadecimalStrFixed, HexDumpText.FixedCoversAll |
