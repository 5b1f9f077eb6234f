# RP6502 shell extensions and tools — a Dafny model

This project models, and proves properties of, the byte-exact core of a set of
programs for the RP6502 (a 65C02 computer with a Raspberry Pi Pico as its I/O
processor) and the host tools that talk to it over a serial line:

- **Intel HEX transfer.**
  - `tools/sendfile.py` cuts a file into records and sends them framed by STX and EOT.
  - `tools/receivefile.py` parses records back into a file.
  - `courier` in `src/ext-courier-receiver.c` receives the records on the device.
  - Modules `HexSend`, `HexReceive` and `CourierReceiver`.
- **Base64 transfer.** The `courier` of `src/ext-courier.c` decodes lines of the alphabet of section 4 of RFC 4648 (module `CourierB64`).
- **Installer.** `tools/install.py` drives the device's console: it writes a command, waits for the prompt and retries failed writes (module `Install`).
- **Shell.** `src/shell.c` has the line editor, `execute`, `tokenize`, `hexstr` and `hexdump` (modules `Shell`, `ShellTokens` and `ShellDump`).
- **`dir`.** `src/ext-dir.c` has the wildcard mask, decimal and FAT date/time formatting, the path split, and the entry sort and listing (modules `DirMask` and `DirList`).
- **`calendar`.** `src/ext-calendar.c` has month lengths, names, first weekdays, quarters, neighbouring months and the month grid (module `Calendar`).
- **`settime`.** `src/ext-settime.c` has the line editor, field scan and validation of a date (module `SetTime`).
- **Three two-pass 65C02 assemblers.**
  - `src/ext-mass.c` and `src/ext-hass.c` share one model, and a `Dialect` value names the differences between them (modules `Mass`, `MassOperands`, `MassLines` and `MassPasses`).
  - `src/ext-qasm.c` is the in-RAM assembler (modules `QasmLines` and `Qasm`).
  - The opcode tables of `src/ext-mass-opcodes.h` are module `Opcodes`.
- **MIDI-OUT drivers.**
  - The ring buffers and the 8N1 bit serialiser of `src/midi/wersja.{A1,A2,B1,B2,B3}/midi_out.c` (modules `MidiA1`, `MidiA2`, `MidiB1`, `MidiB2` and `MidiB3`).
  - The demo `src/midi.c` (module `MidiDemo`).
  - What they share is module `MidiRing`.
- **Shared vocabulary.** Bytes, sums and hexadecimal text are module `Common`.

How the code is modelled:

- **Pure code** is written as functions, with lemmas stating what it promises.
- **Code that mutates state** is written as classes whose methods are proved against those functions:
  - the drivers' ring buffers and transmitters;
  - the receivers' line buffers and output files;
  - the shell console;
  - `dir`'s entry array and its in-place sort;
  - the assemblers' output areas.
- **Loops** become methods with invariants.
- **Outside effects become parameters or recorded sequences.** This covers serial ports, files, XRAM, clocks, `mktime` and the VIA pins:
  - written bytes are recorded as a sequence;
  - the levels driven on a pin are recorded as a list of bits;
  - received input is given as a sequence.

## Model

| member | source | states |
|---|---|---|
| HexSend.Checksum | tools/sendfile.py:18-22 | the checksum byte makes count, both address bytes, type 0, the data and itself add up to 0 modulo 256 |
| HexSend.HexBytes | tools/sendfile.py:19 | the data field has two characters per byte |
| HexSend.HexBytesAt | tools/sendfile.py:19 | byte i of the chunk is spelled `%02X` by characters 2i and 2i+1 of the data field |
| HexSend.FormatRecord | tools/sendfile.py:16-23 | one turn of the loop, summing the checksum byte by byte, yields exactly the record of the chunk at `addr` |
| HexSend.IntelHexRecords | tools/sendfile.py:13-26 | the generator, run to the end, yields the data records of the successive chunks, then the End-of-File record |
| HexSend.WriteLines | tools/sendfile.py:37-38 | the port receives every line, ASCII-encoded and followed by CR LF, in order |
| HexSend.SendIntelHex | tools/sendfile.py:36-42 | the port receives 0x02, every record with CR LF, then 0x04, and nothing else |
| HexSend.ChunksFromConcat | tools/sendfile.py:14-24 | the payloads of the chunks visited from `addr` on concatenate to the rest of the data |
| HexSend.ChunksFromPlaced | tools/sendfile.py:14-24 | every chunk visited from `addr` starts at the running offset and holds 1 to `chunk_size` bytes, only the last fewer |
| HexSend.PayloadsConcatenate | tools/sendfile.py:14-24 | the data payloads, concatenated in order, are the input file |
| HexSend.ChunkLayout | tools/sendfile.py:14-24 | record k's address is the total length of the payloads before it, its bytes are the data at that offset, 1 to `chunk_size` of them, and only the last record may be shorter |
| HexSend.DataRecordLength | tools/sendfile.py:23-26 | a data record that carries data is at least 13 characters, so it is never the End-of-File record |
| HexSend.SingleEofLast | tools/sendfile.py:26 | the End-of-File record is yielded last and nowhere else |
| HexSend.DataRecordLayout | tools/sendfile.py:19-23 | below 256 bytes and address $10000 a record is `:`, count, four address digits, `00`, the data digits and the checksum: 11 + 2 * count characters |
| HexSend.WideAddressRecord | tools/sendfile.py:23 | past 64 KiB the address takes five digits, so the record breaks the 11 + 2 * count layout |
| HexSend.DataLinesAscii | tools/sendfile.py:38 | every data record is ASCII, so `encode("ascii")` cannot raise |
| HexSend.Records | tools/sendfile.py:13-27 | the generator yields ASCII lines only and ends with the End-of-File record; `SingleEofLast` adds that no other line is that record, and `PayloadsConcatenate` that the payloads put together are the data |
| HexReceive.StripKeeps | tools/receivefile.py:14 | `strip` leaves a line without surrounding white space unchanged |
| HexReceive.StripLineEnd | tools/receivefile.py:14 | `strip` removes the CR LF after a record |
| HexReceive.PyHexInt | tools/receivefile.py:18-21 | `int(s, 16)` of a two-character field, when it parses, lies in -15..255 (a sign and one digit are accepted) |
| HexReceive.PyHexIntHex2 | tools/receivefile.py:18-21 | `int(.., 16)` reads back the byte `%02X` wrote |
| HexReceive.DataField | tools/receivefile.py:32 | the payload decodes to one byte per two digits |
| HexReceive.DataFieldHexBytes | tools/receivefile.py:32 | the payload decoder reads back the data field the encoder wrote |
| HexReceive.CheckRecord | tools/receivefile.py:24-36 | a returned record has a count equal to its data length, a payload of 2 * count digits and a byte sum, checksum included, of 0 modulo 256 |
| HexReceive.ParseAccepted | tools/receivefile.py:12-36 | an accepted line, stripped, starts with `:`, is 11 + 2 * count characters and its fields sum to 0 modulo 256 |
| HexReceive.ParseHexLine | tools/receivefile.py:12-36 | a line that, stripped, is shorter than 11 characters or does not start with `:` is rejected; an accepted one is 11 + 2 * count characters long; `ParseAccepted` gives its fields and checksum |
| HexReceive.ParseFieldLine | tools/receivefile.py:12-36 | a line built from fields is returned exactly when the count matches the data and the sum is 0 modulo 256, and then with its type and data |
| HexReceive.FieldsChecked | tools/receivefile.py:24-36 | the length and checksum tests accept exactly the balanced records with a matching count |
| HexReceive.CheckSome | tools/receivefile.py:24-36 | with all header fields parsed: a wrong payload length, then a nonzero sum, reject; otherwise the record is returned |
| HexReceive.SingleByteChangeRejected | tools/receivefile.py:33-35 | changing any one byte of an accepted record makes it rejected |
| HexReceive.ChangedFieldsUnbalanced | tools/receivefile.py:33-35 | a balanced record with one byte changed no longer sums to 0 modulo 256 |
| HexReceive.DataRecordFields | tools/receivefile.py:12-36 | a record the encoder writes is the line of its count, address bytes, type 0, data and checksum |
| HexReceive.DataRecordRoundTrip | tools/receivefile.py:12-36 | `parse_hex_line` of every data record the encoder writes gives `(0, chunk)` |
| HexReceive.EofRoundTrip | tools/receivefile.py:12-36 | `parse_hex_line(":00000001FF")` gives `(1, b"")` |
| HexReceive.PayloadGarbageRaises | tools/receivefile.py:32 | a non-hex payload digit raises instead of returning None |
| HexReceive.Actions | tools/receivefile.py:44-64 | one action per line read |
| HexReceive.ActionsAt | tools/receivefile.py:45-64 | the action for line i is that line's classification |
| HexReceive.RunFrom | tools/receivefile.py:55-64 | a skipped line changes nothing, a data line's payload is written before the rest, EOF stops, an exception ends the run |
| HexReceive.ReceiveIntelHex | tools/receivefile.py:44-65 | the file receives exactly the payloads of the data records read before the first EOF record, in order, and the loop ends as the specification says |
| HexReceive.ReadText | tools/receivefile.py:45-49 | a record sent as ASCII with CR LF decodes back to its text and the line end |
| HexReceive.ClassifyRecord | tools/receivefile.py:48-64 | a record line read from the port is classified as its parse result |
| HexReceive.RunWrites | tools/receivefile.py:44-64 | data lines followed by an EOF line write their payloads in order and end the loop |
| HexReceive.RecordReadBack | tools/receivefile.py:45-58 | a data record carrying data is read back as a write of that data |
| HexReceive.EofReadBack | tools/receivefile.py:59-61 | the End-of-File record ends the loop |
| HexReceive.ChunkReadBack | tools/receivefile.py:45-58 | every chunk's record is read back as a write of that chunk |
| HexReceive.RoundTrip | tools/receivefile.py:44-64 | whatever follows, the receiver writes exactly the sent file, chunk by chunk, then stops at the End-of-File record |
| CourierReceiver.HexNibble | src/ext-courier-receiver.c:31-36 | the value is -1 or a nibble 0..15 |
| CourierReceiver.HexNibbleSpec | src/ext-courier-receiver.c:31-36 | a character has a nibble exactly when it is 0-9, A-F or a-f, and then it is that digit's value |
| CourierReceiver.HexByte | src/ext-courier-receiver.c:38-43 | the value is -1 or a byte |
| CourierReceiver.HexByteSpec | src/ext-courier-receiver.c:38-43 | a pair decodes exactly when both characters are hex digits, and then to the high digit times 16 plus the low one |
| CourierReceiver.HexNibbleChar | src/ext-courier-receiver.c:31-36 | the nibble of an upper-case digit is its value |
| CourierReceiver.HexByteDigits | src/ext-courier-receiver.c:38-43 | a byte's two upper-case digits decode back to it |
| CourierReceiver.HexByteHex2 | src/ext-courier-receiver.c:38-43 | `hex_byte` reads back what `%02X` writes |
| CourierReceiver.DataBytes | src/ext-courier-receiver.c:67-72 | the decoded data has exactly `byte_count` bytes |
| CourierReceiver.LineData | src/ext-courier-receiver.c:65-72 | a framed line's data has as many bytes as its count field says |
| CourierReceiver.LineRecord | src/ext-courier-receiver.c:47-80 | an accepted line starts with `:`, holds at least 11 + 2 * count characters, and its count, type and checksum fields decode |
| CourierReceiver.Effect | src/ext-courier-receiver.c:82-87 | only an accepted type-1 line signals EOF and it writes nothing; anything written is the data of an accepted type-0 line |
| CourierReceiver.Step | src/ext-courier-receiver.c:137-148 | the pending line stays under the buffer limit; a finished line is non-empty, fits the buffer and empties it |
| CourierReceiver.Unframed | src/ext-courier-receiver.c:51-56 | a line that is too short, lacks `:`, has a bad count or is shorter than 11 + 2 * count is ignored |
| CourierReceiver.BadDataPair | src/ext-courier-receiver.c:67-69 | a data digit pair that is not hex makes the line ignored |
| CourierReceiver.CheckedLine | src/ext-courier-receiver.c:58-87 | once fields decode, a nonzero byte sum ignores the line, type 0 writes the data, type 1 is EOF and other types do nothing |
| CourierReceiver.Courier.ReadHeader | src/ext-courier-receiver.c:51-63 | `process_hex_line`'s header checks: failure means the line is not framed; success gives the count, the type and the running sum |
| CourierReceiver.Courier.ReadData | src/ext-courier-receiver.c:65-72 | the data loop succeeds exactly when every data pair decodes, then `hex_bytes` holds the data and the sum includes it |
| CourierReceiver.Courier.ScanData | src/ext-courier-receiver.c:67-72 | the loop stops at the first bad pair; otherwise `hex_bytes` holds every pair and the sum adds them modulo 256 |
| CourierReceiver.Courier.StorePair | src/ext-courier-receiver.c:68-71 | one pair decoded and stored at index i |
| CourierReceiver.Courier.ProcessHexLine | src/ext-courier-receiver.c:47-88 | the file grows by exactly what the line's effect writes and the result is its EOF flag |
| CourierReceiver.Courier.Feed | src/ext-courier-receiver.c:137-148 | one received character: CR is dropped, others gather; at LF or a full buffer the line is processed and the buffer emptied |
| CourierReceiver.Courier.Receive | src/ext-courier-receiver.c:116-149 | the whole receive loop writes what the specification of the device writes and ends the same way |
| CourierReceiver.DeviceStep | src/ext-courier-receiver.c:137-148 | the device on a stream is one step, then either more gathering or the processing of a finished line |
| CourierReceiver.HeaderLayout | src/ext-courier-receiver.c:51-63 | a sent record's count, address and type pairs decode to its fields |
| CourierReceiver.PayloadLayout | src/ext-courier-receiver.c:67-78 | a sent record's data pairs decode to its data and the last pair to its checksum |
| CourierReceiver.SpellsRecord | src/ext-courier-receiver.c:47-80 | a line that spells the fields is accepted exactly when they sum to 0 modulo 256 |
| CourierReceiver.SumModIs | src/ext-courier-receiver.c:48-78 | the 8-bit running sum is the sum modulo 256 |
| CourierReceiver.FieldLineRecord | src/ext-courier-receiver.c:47-80 | a line built from fields with a matching count is accepted exactly when balanced, with its type and data |
| CourierReceiver.DataRecordAccepted | src/ext-courier-receiver.c:47-87 | every data record the sender writes is accepted as type 0 with its chunk |
| CourierReceiver.EofAccepted | src/ext-courier-receiver.c:84-85 | the sender's End-of-File record is accepted as type 1 |
| CourierReceiver.AddressNotChecked | src/ext-courier-receiver.c:59-60 | address digits are not validated: `:00ZZ000100` is accepted as EOF, a bad pair adding $FF to the sum |
| CourierReceiver.Gather | src/ext-courier-receiver.c:138-140 | plain characters that fit the buffer are appended to the pending line |
| CourierReceiver.CrLfIdle | src/ext-courier-receiver.c:137-146 | CR LF with nothing pending processes nothing |
| CourierReceiver.CrLfEnds | src/ext-courier-receiver.c:137-146 | CR LF after pending text processes that line |
| CourierReceiver.LineThrough | src/ext-courier-receiver.c:137-148 | a plain line that fits, then CR LF, is processed whole |
| CourierReceiver.RecordThrough | src/ext-courier-receiver.c:137-148 | a data record that fits, with its CR LF, writes its chunk before whatever follows |
| CourierReceiver.EofThrough | src/ext-courier-receiver.c:141-147 | the End-of-File record ends the receiver, whatever follows |
| CourierReceiver.RunRecords | src/ext-courier-receiver.c:116-149 | records that fit, then the End-of-File record, write their payloads in order and end the loop |
| CourierReceiver.ChunksFit | src/ext-courier-receiver.c:138-141 | every record of a file sent in chunks of `size` bytes fits a buffer of 11 + 2 * size characters |
| CourierReceiver.IntendedRoundTrip | src/ext-courier-receiver.c:116-149 | corrected receiver (STX ignored, room for 521 characters): the sender's stream writes exactly the file and ends at EOF |
| CourierReceiver.StxRecordDropped | src/ext-courier-receiver.c:137-141 | as written, the STX byte joins the first line, so that record fails its `:` test and is lost |
| CourierReceiver.StxSwallowsFirstRecord | src/ext-courier-receiver.c:116-149 | as written, the whole transfer writes the file without its first chunk |
| CourierReceiver.FirstChunk | tools/sendfile.py:14-17 | the first chunk is at address 0 and holds the first `size` bytes |
| CourierReceiver.LongRecordDropped | src/ext-courier-receiver.c:138-144 | as written, a 255-byte record (521 characters) is cut at 519 characters and rejected |
| CourierReceiver.LongLineDropped | src/ext-courier-receiver.c:138-144 | as written, a 521-character line claiming 255 bytes is processed at 519 characters, rejected, and its tail read as another line that is ignored |
| CourierB64.B64Val | src/ext-courier.c:37-44 | the value is -1 or one of the 64 alphabet values |
| CourierB64.Char | src/ext-courier.c:37-44 | the alphabet character of each value reads back as that value and is never `=` |
| CourierB64.B64ValChar | src/ext-courier.c:37-44 | a byte has a value exactly when it is the alphabet character of some value (A-Z, a-z, 0-9, `+`, `/`), and then it is that value's character |
| CourierB64.PadVal | src/ext-courier.c:54-55 | the third and fourth characters read as -2 for `=`, otherwise as their value |
| CourierB64.GroupBytes | src/ext-courier.c:57-63 | a valid group yields one byte, plus one more for each of its last two characters that is not `=` |
| CourierB64.DecodeBound | src/ext-courier.c:51-67 | the decoder writes at most 3 bytes per complete group of 4 characters |
| CourierB64.PartialGroupIgnored | src/ext-courier.c:51 | a trailing partial group is ignored |
| CourierB64.DecodeStops | src/ext-courier.c:52-56 | decoding stops at the first group holding a character outside the alphabet other than `=` |
| CourierB64.EncodeGroup | src/ext-courier.c:57-63 | the RFC 4648 encoding of 1 to 3 bytes is one group of 4 characters (the encoder the decoder is paired with) |
| CourierB64.EncodeLength | src/ext-courier.c:51-65 | the encoding of n bytes has 4 * ceil(n / 3) characters |
| CourierB64.GroupRoundTrip | src/ext-courier.c:52-63 | decoding a group of the encoding gives back its 1 to 3 bytes |
| CourierB64.DecodeEncode | src/ext-courier.c:47-67 | `b64_decode_and_write` of the RFC 4648 encoding of any data writes exactly that data |
| CourierB64.EncodePadding | src/ext-courier.c:58-63 | the encoding ends with one `=` for 2 spare bytes and two for 1 spare byte |
| CourierB64.GroupPadding | src/ext-courier.c:58-63 | a group of fewer than 3 bytes is padded with `=` exactly where the decoder skips an output byte |
| CourierB64.Step | src/ext-courier.c:104-123 | the line never outgrows the buffer; the end of the transfer always decodes the line |
| CourierB64.DecodeAfterEncode | src/ext-courier.c:51-65 | the encoding of whole groups followed by anything decodes to those bytes followed by what the rest decodes to |
| CourierB64.GatherPlain | src/ext-courier.c:114-117 | alphabet characters that fit are appended to the line |
| CourierB64.Transmission | src/ext-courier.c:101-124 | a file sent as Base64 lines of 76 characters, each ended by LF, is never empty |
| CourierB64.FullLine | src/ext-courier.c:118-121 | a line of whole groups is decoded at its LF and the receiver starts afresh |
| CourierB64.LastLine | src/ext-courier.c:109-122 | the last line ends the transfer at its first `=`; as written a single-byte tail is lost |
| CourierB64.PaddedLine | src/ext-courier.c:109-122 | a padded last line ends the transfer |
| CourierB64.WholeLastGroup | src/ext-courier.c:51-65 | a complete padded last group decodes to its bytes |
| CourierB64.TransmissionAsWritten | src/ext-courier.c:109-122 | as written, a file of length 1 modulo 3 loses its last byte, because the first `=` decodes the line before the second arrives |
| CourierB64.TransmissionIntended | src/ext-courier.c:101-124 | when the transfer ends only after the group fills, every file is received whole |
| CourierB64.Receiver.DecodeAndWrite | src/ext-courier.c:47-67 | the file grows by the decoded bytes and the result is their count, at most 3 per complete group |
| CourierB64.Receiver.DecodeLine | src/ext-courier.c:47-65 | the output buffer holds the decoded bytes |
| CourierB64.Receiver.Feed | src/ext-courier.c:104-123 | one character: CR dropped, `=` stored and ends the transfer, LF or a full line decodes the line and empties it |
| CourierB64.Receiver.Receive | src/ext-courier.c:101-125 | the receive loop writes what the device specification writes and stops when it does |
| CourierB64.EmitGroup | src/ext-courier.c:57-63 | one group's bytes are appended to `out` and `o` advances by their count |
| CourierB64.DecodeGroup | src/ext-courier.c:51-65 | from index i the decoder emits the group's bytes then continues, or stops at an invalid group |
| Install.Wait | tools/install.py:34-43 | waiting only reads bytes and lets time pass; it never runs past the deadline |
| Install.WaitPrompted | tools/install.py:34-43 | `wait_for_prompt` returns True exactly when a byte equal to the prompt arrives before the deadline with no read failure before it; other bytes are ignored |
| Install.WriteLine | tools/install.py:50 | every write attempt sends the text followed by CR, and only a successful one reaches the device |
| Install.Attempt | tools/install.py:49-54 | one attempt writes text + CR and does not log anything itself |
| Install.SendAndWaitAttempts | tools/install.py:47-59 | `send_line_and_wait` makes 1 to 3 write attempts of text + CR, and when it raises it has made all 3 |
| Install.SendAndWait | tools/install.py:46-59 | one to the remaining number of attempts write the line, and the only thing logged is the prompt-timeout warning, on a normal return; `SendAndWaitAttempts` and `PromptTimeoutWarns` specify the rest |
| Install.SendOnlyAttempts | tools/install.py:63-73 | `send_line` makes 1 to 3 attempts, and raises exactly when all 3 failed and nothing reached the device |
| Install.PromptTimeoutWarns | tools/install.py:52-54 | a prompt timeout only logs a warning naming the prompt and the label, and the function returns normally |
| Install.WaitReliable | tools/install.py:34-43 | on a port that never fails, waiting never fails |
| Install.SendAndWaitReliable | tools/install.py:46-54 | on a port that never fails, the line is written once and the call returns |
| Install.SendOnlyReliable | tools/install.py:62-68 | on a port that never fails, `send_line` writes the line once and returns |
| Install.RunStepReliable | tools/install.py:86-126 | on a port that never fails, every step writes exactly its own line |
| Install.SessionReliable | tools/install.py:112-126 | on a port that never fails, a session writes its steps' lines in order |
| Install.InstallOrder | tools/install.py:86-126 | with working ports and a good upload the device gets `exit`, `0:`, `cd /`, `set boot -`, `remove`, `install`, `set boot` and then `reboot` or `shell`, each with CR |
| Install.CleanupLines | tools/install.py:89-95 | the cleanup sends `exit`, `0:` and `cd /` |
| Install.InstallLines | tools/install.py:114-126 | the install phase sends `set boot -`, `remove NAME`, `install NAME.rp6502`, `set boot NAME`, then `reboot` or `shell` |
| Install.UploadFailureStops | tools/install.py:102-110 | a launcher that cannot be started (`FileNotFoundError`, raised when `python3` is missing) or a nonzero exit code, a missing `rp6502.py` among them, logs the failure and returns before the install phase |
| Install.CleanupPortFailureWarns | tools/install.py:96-97 | a port that will not open during cleanup is only a warning; the install phase still runs |
| Install.Port.ReadByte | tools/install.py:37 | `port.read(1)` takes the next read and one time step passes |
| Install.Port.Write | tools/install.py:50 | `port.write` of text + CR, which may fail |
| Install.Port.Pause | tools/install.py:57 | `time.sleep` lets time pass |
| Install.Port.Warn | tools/install.py:53 | a warning is appended to the log |
| Install.WaitForPrompt | tools/install.py:34-43 | the loop computes what the wait specification says, against a deadline `timeout_ms` ahead |
| Install.SendLineAndWait | tools/install.py:46-59 | the retry loop computes what the specification of `send_line_and_wait` says |
| Install.SendLine | tools/install.py:62-73 | the retry loop computes what the specification of `send_line` says |
| Install.RunSession | tools/install.py:87-97 | a session on the port runs its steps as the specification says |
| Install.InstallExtension | tools/install.py:76-128 | `main` runs the cleanup, the upload and the install as the specification says |
| Install.Run | tools/install.py:76-128 | after a failed upload nothing more is written and exactly one line is logged; `UploadFailureStops`, `InstallOrder` and `CleanupPortFailureWarns` specify the rest |
| MidiRing.Contents | src/midi/wersja.A1/midi_out.c:111-114 | the queued bytes, oldest first, number `(head - tail) & MASK` |
| MidiRing.Push | src/midi/wersja.A1/midi_out.c:203-204 | storing at `head` and advancing it keeps the ring well formed and leaves `tail` alone |
| MidiRing.Pop | src/midi/wersja.A1/midi_out.c:167-168 | taking the byte at `tail` and advancing it keeps the ring well formed and leaves `head` and the buffer alone |
| MidiRing.Offer | src/midi/wersja.A1/midi_out.c:187-214 | the send keeps the ring well formed |
| MidiRing.CountRange | src/midi/wersja.A1/midi_out.c:99-114 | the count is below the size, 0 exactly when `head == tail`, and `head - tail` or its wrap-around |
| MidiRing.FullIffNoRoom | src/midi/wersja.A1/midi_out.c:105-108 | `(head + 1) & MASK == tail` exactly when `midi_buffer_free` is 0, so 63 of the 64 slots are usable |
| MidiRing.PushContents | src/midi/wersja.A1/midi_out.c:192-204 | storing into a ring that is not full appends the byte to the queue |
| MidiRing.PopContents | src/midi/wersja.A1/midi_out.c:265-268 | taking from a non-empty ring gives the oldest byte and leaves the rest queued |
| MidiRing.OfferContents | src/midi/wersja.A1/midi_out.c:187-214 | the send succeeds exactly when there is room; then the byte is queued last and one slot is used, otherwise nothing changes |
| MidiRing.OfferPrefix | src/midi/wersja.A2/midi_out.c:199-213 | the count returned is between 0 and the message length |
| MidiRing.OfferPrefixContents | src/midi/wersja.A2/midi_out.c:199-213 | the leading bytes that fit, and no more, are queued in order, and their number is returned |
| MidiRing.OfferAll | src/midi/wersja.A1/midi_out.c:293-333 | a message sent byte by byte, results ignored, keeps the ring well formed |
| MidiRing.OfferAllPrefix | src/midi/wersja.A1/midi_out.c:293-333 | ignoring the results queues the same bytes as stopping at the first refusal, since a full ring stays full |
| MidiRing.OfferAllRefused | src/midi/wersja.A1/midi_out.c:195-196 | a full ring refuses a whole message and does not change |
| MidiRing.DataBits | src/midi/wersja.A1/midi_out.c:245-258 | n data bits are sent |
| MidiRing.Frame | src/midi/wersja.A1/midi_out.c:236-278 | a frame is 10 bits, a low start bit first and a high stop bit last |
| MidiRing.DataBitsValue | src/midi/wersja.A1/midi_out.c:245-258 | the data bits, least significant first, spell the byte |
| MidiRing.FrameValue | src/midi/wersja.A1/midi_out.c:236-278 | bits 1 to 8 of a frame spell the byte sent |
| MidiRing.StatusByte | src/midi/wersja.A1/midi_out.c:296 | the status byte is the command's high nibble with the channel's low four bits |
| MidiRing.ChannelMessageFormat | src/midi/wersja.A1/midi_out.c:293-321 | a channel message is the status byte, then each data byte masked to 7 bits |
| MidiRing.PitchBendSplit | src/midi/wersja.A1/midi_out.c:323-328 | pitch bend sends $E0 + channel, the low 7 bits, then bits 7-13 of the value |
| MidiRing.NoteOn | src/midi/wersja.A1/midi_out.c:293-299 | `$90` with the channel, then the note and the velocity each masked to seven bits |
| MidiRing.NoteOff | src/midi/wersja.A1/midi_out.c:301-307 | `$80` with the channel, then the note and the velocity each masked to seven bits |
| MidiRing.ControlChange | src/midi/wersja.A1/midi_out.c:309-315 | `$B0` with the channel, then the controller and the value each masked to seven bits |
| MidiRing.ProgramChange | src/midi/wersja.A1/midi_out.c:317-321 | `$C0` with the channel, then the program masked to seven bits |
| MidiRing.PitchBend | src/midi/wersja.A1/midi_out.c:323-328 | `$E0` with the channel, then two bytes below $80; `PitchBendSplit` shows they carry the low 14 bits |
| MidiRing.AllNotesOff | src/midi/wersja.A1/midi_out.c:331-334 | controller 123 with value 0 on the channel |
| MidiRing.ChannelPressure | src/midi/wersja.A2/midi_out.c:256-260 | `$D0` with the channel, then the pressure masked to seven bits |
| MidiRing.PolyPressure | src/midi/wersja.A2/midi_out.c:262-268 | `$A0` with the channel, then the note and the pressure each masked to seven bits |
| MidiRing.AllSoundOff | src/midi/wersja.A2/midi_out.c:279-282 | controller 120 with value 0 on the channel |
| MidiRing.ResetControllers | src/midi/wersja.A2/midi_out.c:284-287 | controller 121 with value 0 on the channel |
| MidiRing.RealTimeDistinct | src/midi/wersja.A2/midi_out.c:313-341 | the real-time bytes are $F8 or above and differ from one another |
| MidiA1.PutBacklog | src/midi/wersja.A1/midi_out.c:187-214 | `midi_send_byte` succeeds exactly when there is room, then queues the byte; a refusal changes nothing |
| MidiA1.IrqInv | src/midi/wersja.A1/midi_out.c:222-285 | the interrupt handler keeps the transmitter consistent |
| MidiA1.DataTicks | src/midi/wersja.A1/midi_out.c:245-258 | k ticks in the data state send the next k bits, least significant first, and after the eighth the state is STOP |
| MidiA1.StopTick | src/midi/wersja.A1/midi_out.c:260-276 | the stop tick sends a high bit, then loads the next byte or goes idle with nothing queued |
| MidiA1.SendsFrame | src/midi/wersja.A1/midi_out.c:236-276 | ten ticks from START send the byte's whole frame and take the next byte off the backlog |
| MidiA1.SendAll | src/midi/wersja.A1/midi_out.c:293-333 | sending a message keeps the transmitter consistent |
| MidiA1.SendAllBacklog | src/midi/wersja.A1/midi_out.c:293-333 | a message queues a prefix of itself after the backlog |
| MidiA1.SendAllRoom | src/midi/wersja.A1/midi_out.c:293-333 | with room for it, the whole message is queued after the backlog |
| MidiA1.SendAllRefused | src/midi/wersja.A1/midi_out.c:195-196 | with no room, a message changes nothing |
| MidiA1.MidiOut.StartTransmission | src/midi/wersja.A1/midi_out.c:160-173 | starting takes the oldest byte into `tx_byte` only when idle and something is queued |
| MidiA1.MidiOut.SendByte | src/midi/wersja.A1/midi_out.c:187-214 | `midi_send_byte` does what its specification says to the ring and starts the transmitter when idle |
| MidiA1.MidiOut.IrqHandler | src/midi/wersja.A1/midi_out.c:222-285 | one interrupt does what the state machine says and drives the pin with the bits it emits |
| MidiA1.MidiOut.SendMessage | src/midi/wersja.A1/midi_out.c:293-333 | a message is sent byte by byte |
| MidiA1.MidiOut.NoteOn | src/midi/wersja.A1/midi_out.c:293-299 | Note On: $90 + channel, note and velocity masked to 7 bits |
| MidiA1.MidiOut.NoteOff | src/midi/wersja.A1/midi_out.c:301-307 | Note Off: $80 + channel, note and velocity |
| MidiA1.MidiOut.ControlChange | src/midi/wersja.A1/midi_out.c:309-315 | Control Change: $B0 + channel, controller and value |
| MidiA1.MidiOut.ProgramChange | src/midi/wersja.A1/midi_out.c:317-321 | Program Change: $C0 + channel and program |
| MidiA1.MidiOut.PitchBend | src/midi/wersja.A1/midi_out.c:323-328 | Pitch Bend: $E0 + channel, the low and the high 7 bits |
| MidiA1.MidiOut.AllNotesOff | src/midi/wersja.A1/midi_out.c:331-334 | all notes off is Control Change 123 with value 0 |
| MidiA1.MidiOut.IsBusy | src/midi/wersja.A1/midi_out.c:340-343 | busy exactly when the transmitter is not idle |
| MidiA1.MidiOut.BufferFree | src/midi/wersja.A1/midi_out.c:345-348 | free slots are 63 minus the bytes queued |
| MidiA2.SendPrefix | src/midi/wersja.A2/midi_out.c:199-213 | `midi_send_bytes` keeps the transmitter consistent |
| MidiA2.SendPrefixQueued | src/midi/wersja.A2/midi_out.c:199-213 | the count returned is at most the length, and exactly that many leading bytes are queued after the backlog |
| MidiA2.SendPrefixStops | src/midi/wersja.A2/midi_out.c:199-213 | it stops early only on a full buffer, and queues at least as many bytes as there was room for |
| MidiA2.SendPrefixAll | src/midi/wersja.A2/midi_out.c:199-213 | stopping at the first refusal queues what sending every byte would |
| MidiA2.ControllerBytes | src/midi/wersja.A2/midi_out.c:274-307 | volume is CC 7, pan CC 10, modulation CC 1, sustain CC 64 with 127 or 0; all sound off CC 120, reset controllers CC 121 and all notes off CC 123, each with 0 |
| MidiA2.MidiOut.StartTransmission | src/midi/wersja.A2/midi_out.c:140-160 | starting takes the oldest byte only when idle and something is queued |
| MidiA2.MidiOut.SendByte | src/midi/wersja.A2/midi_out.c:167-193 | `midi_send_byte` does what its specification says |
| MidiA2.MidiOut.SendBytes | src/midi/wersja.A2/midi_out.c:199-213 | the loop returns the count and state `SendPrefix` gives |
| MidiA2.MidiOut.SendMessage | src/midi/wersja.A2/midi_out.c:219-341 | a message is sent byte by byte |
| MidiA2.MidiOut.NoteOn | src/midi/wersja.A2/midi_out.c:219-225 | Note On with masked note and velocity |
| MidiA2.MidiOut.NoteOff | src/midi/wersja.A2/midi_out.c:227-233 | Note Off with masked note and velocity |
| MidiA2.MidiOut.ControlChange | src/midi/wersja.A2/midi_out.c:235-241 | Control Change with masked controller and value |
| MidiA2.MidiOut.ProgramChange | src/midi/wersja.A2/midi_out.c:243-247 | Program Change with a masked program |
| MidiA2.MidiOut.PitchBend | src/midi/wersja.A2/midi_out.c:249-254 | Pitch Bend with the low and the high 7 bits |
| MidiA2.MidiOut.Aftertouch | src/midi/wersja.A2/midi_out.c:256-260 | Channel Pressure: $D0 + channel and the masked pressure |
| MidiA2.MidiOut.PolyPressure | src/midi/wersja.A2/midi_out.c:262-268 | Polyphonic Key Pressure: $A0 + channel, note and pressure |
| MidiA2.MidiOut.AllNotesOff | src/midi/wersja.A2/midi_out.c:274-277 | CC 123 with value 0 |
| MidiA2.MidiOut.AllSoundOff | src/midi/wersja.A2/midi_out.c:279-282 | CC 120 with value 0 |
| MidiA2.MidiOut.ResetControllers | src/midi/wersja.A2/midi_out.c:284-287 | CC 121 with value 0 |
| MidiA2.MidiOut.Volume | src/midi/wersja.A2/midi_out.c:289-292 | CC 7 with the volume |
| MidiA2.MidiOut.Pan | src/midi/wersja.A2/midi_out.c:294-297 | CC 10 with the pan |
| MidiA2.MidiOut.Modulation | src/midi/wersja.A2/midi_out.c:299-302 | CC 1 with the modulation |
| MidiA2.MidiOut.Sustain | src/midi/wersja.A2/midi_out.c:304-307 | CC 64 with 127 when on and 0 when off |
| MidiA2.MidiOut.SendRealTime | src/midi/wersja.A2/midi_out.c:313-341 | one real-time byte (clock $F8, start $FA, continue $FB, stop $FC, active sensing $FE, reset $FF) is sent |
| MidiA2.MidiOut.IsBusy | src/midi/wersja.A2/midi_out.c:347-350 | busy exactly when the transmitter is not idle |
| MidiA2.MidiOut.BufferFree | src/midi/wersja.A2/midi_out.c:352-355 | free slots are 63 minus the bytes queued |
| MidiA2.MidiOut.BufferUsed | src/midi/wersja.A2/midi_out.c:357-360 | used slots are the bytes queued, and used plus free is 63 |
| MidiB1.SendQueued | src/midi/wersja.B1/midi_out.c:61-83 | `midi_send_byte` returns BUFFER_FULL exactly when there is no room and then changes nothing; on OK the byte is queued last and an idle transmitter starts |
| MidiB1.IsrInv | src/midi/wersja.B1/midi_out.c:186-240 | the timer interrupt keeps the transmitter consistent |
| MidiB1.DataTicks | src/midi/wersja.B1/midi_out.c:199-215 | k ticks in the data state send the next k bits, least significant first, ending in STOP after the eighth |
| MidiB1.StopTick | src/midi/wersja.B1/midi_out.c:217-235 | the stop tick sends a high bit, then loads the next byte or goes idle with nothing queued |
| MidiB1.SendsFrame | src/midi/wersja.B1/midi_out.c:191-235 | ten ticks from START send the byte's whole frame and take the next byte off the backlog |
| MidiB1.OtherStateStops | src/midi/wersja.B1/midi_out.c:236-240 | an unknown state stops the transmission: the line goes high and the state idle |
| MidiB1.SendPrefix | src/midi/wersja.B1/midi_out.c:89-102 | `midi_send_buffer` keeps the transmitter consistent |
| MidiB1.SendPrefixQueued | src/midi/wersja.B1/midi_out.c:89-102 | the count returned is at most the length, and exactly that many leading bytes are queued |
| MidiB1.SendPrefixStops | src/midi/wersja.B1/midi_out.c:89-102 | it stops early only on a full buffer, after queuing as many bytes as there was room for |
| MidiB1.SendAll | src/midi/wersja.B1/midi_out.c:270-300 | a message sent byte by byte keeps the transmitter consistent |
| MidiB1.SendAllPrefix | src/midi/wersja.B1/midi_out.c:270-300 | sending every byte queues what stopping at the first refusal would |
| MidiB1.SendAllRefused | src/midi/wersja.B1/midi_out.c:66-71 | with no room a message changes nothing |
| MidiB1.MidiOut.StartTransmission | src/midi/wersja.B1/midi_out.c:141-163 | an empty buffer leaves the state idle; otherwise the oldest byte is taken and the state is START |
| MidiB1.MidiOut.StopTransmission | src/midi/wersja.B1/midi_out.c:168-180 | the line goes high and the state idle |
| MidiB1.MidiOut.SendByte | src/midi/wersja.B1/midi_out.c:61-83 | `midi_send_byte` does what its specification says |
| MidiB1.MidiOut.SendBuffer | src/midi/wersja.B1/midi_out.c:89-102 | the loop returns the count and state `SendPrefix` gives |
| MidiB1.MidiOut.TimerIsr | src/midi/wersja.B1/midi_out.c:186-240 | one interrupt does what the state machine says and drives the pin with the bits it emits |
| MidiB1.MidiOut.IsBusy | src/midi/wersja.B1/midi_out.c:107-110 | busy exactly when the state is not idle or bytes are queued, so not busy means nothing is left to send |
| MidiB1.MidiOut.BufferFree | src/midi/wersja.B1/midi_out.c:115-126 | the branchy count equals 63 minus the bytes queued |
| MidiB1.MidiOut.NoteOn | src/midi/wersja.B1/midi_out.c:270-278 | Note On with masked note and velocity |
| MidiB1.MidiOut.NoteOff | src/midi/wersja.B1/midi_out.c:280-288 | Note Off with masked note and velocity |
| MidiB1.MidiOut.ProgramChange | src/midi/wersja.B1/midi_out.c:290-297 | Program Change with a masked program |
| MidiB2.SendStored | src/midi/wersja.B2/midi_out.c:20-45 | BUFFER_FULL exactly when the next head is the tail (no room left), and then nothing changes; on OK the byte is stored at the old head, the head advances modulo 64, the byte joins the end of the queue, and the start routine is called once when the transmitter was idle |
| MidiB2.SendPrefix | src/midi/wersja.B2/midi_out.c:51-65 | `midi_send_buffer` keeps the driver consistent |
| MidiB2.SendPrefixOffer | src/midi/wersja.B2/midi_out.c:51-65 | the loop stores what offering the bytes to the ring stores, with one start call per byte while idle |
| MidiB2.SendPrefixSent | src/midi/wersja.B2/midi_out.c:51-65 | the count returned is the smaller of the length and the room left, and exactly that many leading bytes join the queue |
| MidiB2.SendAll | src/midi/wersja.B2/midi_out.c:97-152 | a message helper keeps the driver consistent |
| MidiB2.SendAllPrefix | src/midi/wersja.B2/midi_out.c:97-152 | ignoring each status leaves the driver as stopping at the first failure would |
| MidiB2.SendAllRefused | src/midi/wersja.B2/midi_out.c:27-29 | with no room a message changes nothing |
| MidiB2.UsedSlotsCount | src/midi/wersja.B2/midi_out.c:70-91 | the branchy used-slot count is the number of bytes queued, and 63 minus it is the room left |
| MidiB2.MidiOut.SendByte | src/midi/wersja.B2/midi_out.c:20-45 | `midi_send_byte` on the shared variables does what `Send` says |
| MidiB2.MidiOut.SendBuffer | src/midi/wersja.B2/midi_out.c:51-65 | the loop returns the count and state `SendPrefix` gives |
| MidiB2.MidiOut.BufferFree | src/midi/wersja.B2/midi_out.c:70-91 | returns 63 minus the number of bytes queued |
| MidiB2.MidiOut.SendMessage | src/midi/wersja.B2/midi_out.c:97-152 | a message is sent byte by byte with statuses ignored |
| MidiB2.MidiOut.NoteOn | src/midi/wersja.B2/midi_out.c:97-104 | sends Note On: $90 + channel, masked note and velocity |
| MidiB2.MidiOut.NoteOff | src/midi/wersja.B2/midi_out.c:106-113 | sends Note Off: $80 + channel, masked note and velocity |
| MidiB2.MidiOut.ProgramChange | src/midi/wersja.B2/midi_out.c:115-120 | sends Program Change: $C0 + channel and the masked program |
| MidiB2.MidiOut.ControlChange | src/midi/wersja.B2/midi_out.c:122-129 | sends Control Change: $B0 + channel, masked controller and value |
| MidiB2.MidiOut.PitchBend | src/midi/wersja.B2/midi_out.c:131-137 | sends Pitch Bend: $E0 + channel, the low 7 bits, then the next 7 bits of the 16-bit value |
| MidiB2.MidiOut.AllNotesOff | src/midi/wersja.B2/midi_out.c:139-142 | sends CC 123 with value 0 |
| MidiB2.MidiOut.AllSoundOff | src/midi/wersja.B2/midi_out.c:144-147 | sends CC 120 with value 0 |
| MidiB2.MidiOut.ResetControllers | src/midi/wersja.B2/midi_out.c:149-152 | sends CC 121 with value 0 |
| MidiB3.MidiOut.SendByte | src/midi/wersja.B3/midi_out.c:19-43 | `midi_send_byte` on the zero-page variables does what the shared specification says |
| MidiB3.MidiOut.SendBuffer | src/midi/wersja.B3/midi_out.c:45-59 | the loop returns the count and state `SendPrefix` gives |
| MidiB3.MidiOut.BufferFree | src/midi/wersja.B3/midi_out.c:61-79 | returns 63 minus the number of bytes queued |
| MidiB3.MidiOut.SendMessage | src/midi/wersja.B3/midi_out.c:81-118 | a message is sent byte by byte with statuses ignored |
| MidiB3.MidiOut.NoteOn | src/midi/wersja.B3/midi_out.c:81-86 | sends Note On |
| MidiB3.MidiOut.NoteOff | src/midi/wersja.B3/midi_out.c:88-93 | sends Note Off |
| MidiB3.MidiOut.ProgramChange | src/midi/wersja.B3/midi_out.c:95-99 | sends Program Change |
| MidiB3.MidiOut.ControlChange | src/midi/wersja.B3/midi_out.c:101-106 | sends Control Change |
| MidiB3.MidiOut.PitchBend | src/midi/wersja.B3/midi_out.c:108-113 | sends Pitch Bend of the 16-bit value |
| MidiB3.MidiOut.AllNotesOff | src/midi/wersja.B3/midi_out.c:115-118 | sends CC 123 with value 0 |
| MidiDemo.DataTicks | src/midi.c:57-66 | from data state 9 - k, k interrupts put the next k bits of the byte on the pin, least significant first, and reach the stop state |
| MidiDemo.TicksSnoc | src/midi.c:43-88 | one more interrupt appends its levels to those already written |
| MidiDemo.FrameTicks | src/midi.c:52-71 | from state 0, ten interrupts write the byte's 8N1 frame (low start bit, eight data bits, high stop bit) and end idle |
| MidiDemo.SendsFrame | src/midi.c:52-83 | eleven interrupts from idle with a byte queued load the oldest byte, write its frame and leave it off the queue |
| MidiDemo.IdleHigh | src/midi.c:80-83 | idle with nothing to send, an interrupt holds the line high and changes nothing |
| MidiDemo.PlayAlternates | src/midi.c:131-151 | turns alternate Note On of the current scale note at velocity 127 and its Note Off, then move to the next note, wrapping after the eighth |
| MidiDemo.TickNeverPauses | src/midi.c:123-154 | as written, the counter is never set back: once it reaches 15625, consecutive calls each play a turn |
| MidiDemo.RunFixed | src/midi.c:123-154 | with the counter set back on each turn, it stays below 15625 |
| MidiDemo.RunFixedQuiet | src/midi.c:126-128 | corrected, calls below the threshold only count |
| MidiDemo.TickFixedTurn | src/midi.c:128-153 | corrected, the call reaching the threshold plays the turn and sets the counter back to zero |
| MidiDemo.RunFixedPeriod | src/midi.c:123-154 | corrected, exactly one turn is played every 15625 calls |
| MidiDemo.Demo.constructor | src/midi.c:13-25 | starts idle with nothing queued, the counter, note and step at zero and the line high |
| MidiDemo.Demo.SendMidi | src/midi.c:30-38 | stores the byte unless the 32-byte ring is full, changing nothing else |
| MidiDemo.Demo.MidiIrq | src/midi.c:43-88 | one interrupt does what `Irq` says and appends its levels to the pin |
| MidiDemo.Demo.SendAll | src/midi.c:133-146 | a message's bytes are offered to the ring one by one |
| MidiDemo.Demo.Midi | src/midi.c:123-154 | `midi()` updates the player as `Tick` does and queues the message it plays |
| Calendar.DaysInMonthCases | src/ext-calendar.c:156-164 | -1 exactly for a month outside 1..12; otherwise 28 to 31 days, 29 exactly for February of a leap year (divisible by 4 and not by 100, or by 400), 28 for February otherwise, 30 exactly for April, June, September and November |
| Calendar.DaysInMonth | src/ext-calendar.c:156-164 | -1 exactly for a month outside 1..12, otherwise 28 to 31 days; `DaysInMonthCases` and `YearLength` give each month |
| Calendar.YearLength | src/ext-calendar.c:8-21 | the month table adds up to 366 days in a leap year and 365 otherwise |
| Calendar.MonthNameCases | src/ext-calendar.c:151-154 | "Invalid" exactly outside 1..12, and the twelve names are distinct |
| Calendar.MonthName | src/ext-calendar.c:151-154 | `Invalid` exactly for a month outside 1..12; `MonthNameCases` adds that the twelve names differ |
| Calendar.FirstDayColumnMondayFirst | src/ext-calendar.c:131-149 | the column of day 1 is 1..7 with Monday first: Sunday's 0 becomes 7, other weekdays keep their number, and a failed `mktime` gives column 1 |
| Calendar.QuarterStartContains | src/ext-calendar.c:108 | for a month 1..12 the quarter starts in January, April, July or October and holds the month (the 16-bit arithmetic does not wrap there) |
| Calendar.QuarterStartOfZero | src/ext-calendar.c:108 | month 0 gives quarter start 1, because C division truncates toward zero |
| Calendar.NeighboursConsecutive | src/ext-calendar.c:270-284 | for a month 1..12 the previous, current and next month are real months, consecutive up to whole 16-bit turns of the year, and consecutive outright for a year strictly between -32768 and 32767; the year moves at the wrap from December to January |
| Calendar.NeighboursWrap | src/ext-calendar.c:270-283 | in cc65's 16-bit `int`: December 32767 is followed by January -32768, and month 32767 of 2024 by month -32768 of 2024 |
| Calendar.QuarterStartWraps | src/ext-calendar.c:108 | in cc65's 16-bit `int`, month -32768's quarter starts at month 32767 |
| Calendar.MonthCells | src/ext-calendar.c:236-254 | the six-week grid loop yields 42 cells: blanks before the first day's column in week 0, then the days counting up, then blanks |
| Calendar.AllDaysShown | src/ext-calendar.c:236-254 | every day of a real month appears exactly once, in the column of its weekday, so six weeks always suffice |
| Calendar.RowEndsOnSunday | src/ext-calendar.c:166-198 | the single-month printer ends a row exactly after the days in column 7 (Sunday) |
| Calendar.ChooseCases | src/ext-calendar.c:39-129 | a clock still in 1970 is reported as not set before anything else; no argument or an unknown switch shows the current month with today marked; `/q` shows a quarter that holds today |
| Calendar.Choose | src/ext-calendar.c:39-129 | a clock still in 1970 wins over every argument; `/y`, `/q`, `/n` and `/p` with a year argument show that year, a 16-bit `int`; `ChooseCases` covers the current-date views |
| Calendar.Atoi | src/ext-calendar.c:96-121 | cc65's `atoi` skips white space, takes a sign and digits, and returns a 16-bit `int`: `YearArgumentWraps` shows `/y 65636` reading as the year 100, whose February has 28 days |
| SetTime.ReadLineEditor | src/ext-settime.c:24-57 | the loop does what `Edit` says; a line is stored NUL-terminated in the buffer and is shorter than it; a cancel leaves the buffer empty |
| SetTime.EditKey | src/ext-settime.c:35-55 | a byte that does not end the line edits the text and the editing continues with the rest |
| SetTime.EditStopsAtFirst | src/ext-settime.c:27-56 | the first CR, LF or ESC decides the outcome: ESC cancels; CR or LF returns the text edited from the bytes before it and echoes a newline; with none of them the editor is still waiting |
| SetTime.EditKeepsLine | src/ext-settime.c:35-55 | the text only ever holds printable bytes (32 and above, not 127) and never grows past `maxlen - 1` |
| SetTime.EditTyped | src/ext-settime.c:48-52 | printable bytes that fit are stored as they come and echoed unchanged |
| SetTime.KeyShown | src/ext-settime.c:35-55 | one key's echo keeps the terminal showing the text |
| SetTime.EchoShowsText | src/ext-settime.c:24-57 | while a line is being edited, the echo leaves the terminal showing exactly the buffer's text, with blanks where characters were erased |
| SetTime.ScanfRender | src/ext-settime.c:75 | the `%Nd` conversions read back the values of any text laid out in fields that fit their widths |
| SetTime.ScanFormat | src/ext-settime.c:66-78 | a date in the prompt's form "YYYY-MM-DD HH:MM:SS" scans back into its six fields |
| SetTime.FormatFits | src/ext-settime.c:60-70 | that form is 19 printable bytes, so it fits the 32-byte line |
| SetTime.FormatWidth | src/ext-settime.c:75 | the scan format matches 19 characters when every field is full width |
| SetTime.SettleSetsClock | src/ext-settime.c:71-105 | exit code 0 exactly for a non-empty line that scans into six fields in range that `mktime` and `clock_settime` both accept, and the clock is then set to `mktime`'s epoch |
| SetTime.TypedDateSetsClock | src/ext-settime.c:59-105 | typing a valid date in the prompt's form and Enter sets the clock to what `mktime` makes of it |
| Shell.FindCommand | src/shell.c:250-254 | the first table entry named `name`, or none exactly when no entry has that name |
| Shell.DispatchMeaning | src/shell.c:237-258 | a command runs with 1 to `CMD_TOKEN_MAX` non-empty arguments, the first being its name; -1 exactly when the first token names no command; a parse error exactly for an open quote or escape; nothing runs exactly when there are no tokens |
| Shell.KeySane | src/shell.c:260-335 | every character keeps the line printable and within `CMD_BUF_MAX`, and only a non-empty line is run |
| Shell.FeedSane | src/shell.c:260-335 | any sequence of characters keeps the editor sane |
| Shell.TypedKeepsPrefix | src/shell.c:298-307 | printable characters are appended until the buffer is full; the rest only ring the bell, and nothing runs |
| Shell.CrLfRunsOnce | src/shell.c:318-326 | CR LF runs the line once and clears it: the LF right after a CR does nothing |
| Shell.UpRecallsLast | src/shell.c:272-284 | after a line has run, ESC `[` `A` puts it back on the line |
| Shell.BackspaceUndoes | src/shell.c:308-317 | backspace takes back a character typed on a line that had room for it |
| Shell.Console.constructor | src/shell.c:260-266 | the console starts with an empty line, no last line and no escape in progress |
| Shell.Console.Execute | src/shell.c:237-258 | copies the line to the recall buffer, then tokenizes and dispatches it as `Dispatched` says |
| Shell.Console.Remember | src/shell.c:241-244 | the recall buffer holds the line |
| Shell.Console.Receive | src/shell.c:266-333 | one received character updates the editor, echoes and runs a line exactly as `Key` says |
| Shell.Console.Arrow | src/shell.c:270-292 | the third character of an arrow key does what `Key` says: up recalls the last line, down lists the commands |
| Shell.Console.Type | src/shell.c:298-307 | a printable character is appended and echoed, or rings the bell on a full buffer, as `Key` says |
| Shell.Console.Backspace | src/shell.c:308-317 | backspace rubs out the last character, or rings the bell on an empty line, as `Key` says |
| Shell.Console.Enter | src/shell.c:318-326 | CR or LF runs a non-empty line and clears it, ignoring an LF after a CR, as `Submit` says |
| Shell.Console.Recall | src/shell.c:279-282 | the line buffer receives a copy of the recall buffer, which is unchanged |
| Shell.Lookup | src/shell.c:246-257 | after tokenizing, the dispatch and the exit code are those of `Dispatched` on the original line |
| Shell.Search | src/shell.c:250-254 | the `strcmp` loop finds what `FindCommand` finds for the C string at the start of the buffer |
| Shell.StrEq | src/shell.c:251 | `strcmp` reports equality exactly when the C string at `at` is `name` |
| Shell.TokenAt | src/shell.c:176-235 | after tokenizing, the C string at each recorded start is that token |
| ShellTokens.Tokenize | src/shell.c:176-235 | `tokenize` returns the status of the specification scan, and leaves the buffer starting with the tokens, each followed by NUL, with their starts recorded in order |
| ShellTokens.Consume | src/shell.c:186-226 | one character: it stops exactly when a new token would exceed `maxTokens`, and otherwise keeps the buffer laid out as the scan says |
| ShellTokens.Finish | src/shell.c:227-234 | closes the token in progress and returns -1 for an open quote or escape, else the token count |
| ShellTokens.RunStep | src/shell.c:186-226 | the loop goes on from a non-NUL character that the scanner takes |
| ShellTokens.RunStops | src/shell.c:186-221 | the loop ends at a NUL, at the end of the buffer, or when the token list is full |
| ShellTokens.TokensBounded | src/shell.c:176-235 | runs of blanks never make an empty token, no token holds NUL, and there are never more tokens than the list has room for |
| ShellDump.HexStrReadsBack | src/shell.c:101-105 | `hexstr` writes two upper-case hex digits that read back as the byte |
| ShellDump.Dump | src/shell.c:108-136 | a dump of n bytes has one line per started block of sixteen |
| ShellDump.Hexdump | src/shell.c:108-136 | the loop produces the lines `Dump` specifies, with the 16-bit address wrapping |
| ShellDump.FormatLine | src/shell.c:114-130 | the body of the loop builds the line `DumpLine` specifies |
| ShellDump.DumpLineFrame | src/shell.c:114-130 | a line of n bytes has 8 + 4n characters: the address in four hex digits, a colon, the hex column, a blank, the text column, CR LF |
| ShellDump.DumpLineByte | src/shell.c:119-127 | byte i is shown as a blank and two hex digits at column 5 + 3i, and as a character at column 6 + 3n + i |
| ShellDump.ShownCases | src/shell.c:125-126 | the text column shows 32..126 as themselves and everything else as '.' |
| DirMask.MatchMask | src/ext-dir.c:53-76 | for a name without `*`, `match_mask` answers exactly whether the mask matches the name: `?` stands for one character and `*` for any run |
| DirMask.StarLonger | src/ext-dir.c:66-70 | a star that swallows more characters matches whenever one that swallows fewer does, which makes the single backtracking point enough |
| DirMask.StarMatchesAll | src/ext-dir.c:128 | the default mask `*` matches every name |
| DirMask.PlainMask | src/ext-dir.c:53-76 | a mask without wildcards matches exactly the name it spells |
| DirList.DecimalMeaning | src/ext-dir.c:79-91 | the decimal text reads back as the number, starts with `0` only for zero, holds only digits, and has at most k digits below 10^k |
| DirList.TxDec32 | src/ext-dir.c:79-91 | `tx_dec32` sends the decimal text of any 32-bit value |
| DirList.FieldsPack | src/ext-dir.c:94-100 | decoding the FAT date and time undoes packing the fields into them |
| DirList.FieldsRange | src/ext-dir.c:94-100 | every 16-bit date and time decodes to fields that fit the text |
| DirList.StampTextReads | src/ext-dir.c:102-121 | the text is `YYYY-MM-DD hh:mm:ss` with the separators in place and each field reading back as its value |
| DirList.FormatFatDatetime | src/ext-dir.c:94-123 | the twenty characters of the buffer are the stamp's text and a NUL |
| DirList.LastSep | src/ext-dir.c:178-183 | the index of the last `/` or `\`, or none when there is no separator |
| DirList.FindLastSep | src/ext-dir.c:178-183 | the scan finds what `LastSep` specifies |
| DirList.SplitMeaning | src/ext-dir.c:154-196 | the mask is non-empty and has no separator, the path is non-empty, and a drive prefix is `0` to `7` |
| DirList.SplitRebuilds | src/ext-dir.c:184-187 | path, separator and mask put together give the argument back |
| DirList.SplitRejects | src/ext-dir.c:157-162 | "Invalid drive" exactly for a `d:` prefix whose `d` is not `0` to `7` |
| DirList.SplitArg | src/ext-dir.c:157-196 | a split target has a non-empty path and mask and a drive `0` to `7`; `SplitMeaning`, `SplitRebuilds` and `SplitRejects` give the rest |
| DirList.ParseTarget | src/ext-dir.c:154-197 | `argv[1]`, the second argument typed, is split into drive, path and mask as `SplitArg` specifies |
| DirList.TargetOf | src/ext-dir.c:146-197 | without a second argument typed the target is `.` and `*`; any target has a non-empty path and mask; `ArgumentsShifted` and `SingleArgumentIgnored` show which argument it is |
| DirList.ParsePath | src/ext-dir.c:175-196 | the leading separator is dropped and the rest split at the last separator, as `SplitPath` specifies |
| DirList.SortFlags | src/ext-dir.c:198-206 | the last recognised flag from `argv[2]`, the third argument typed, on picks the mode, 0 without one; the mode is at most 4 |
| DirList.DaSortsNewestFirst | src/ext-dir.c:198-206 | as written, `/da`, described as "sorted by date ascending", selects mode 1, which never leaves an older entry ahead of a newer one |
| DirList.DaSortsOldestFirstIntended | src/ext-dir.c:198-206 | with the flags the intended way round, `/da` lists the older entry first and `/dd` the newer |
| DirList.ModeAfterFlags | src/ext-dir.c:198-206 | the flag loop reads exactly the arguments from `argv[2]` on, the last recognised one winning |
| DirList.ArgumentsShifted | src/ext-dir.c:146-206 | as written, the path is the second argument typed and the flags start at the third, whatever the first is |
| DirList.SingleArgumentIgnored | src/ext-dir.c:146-156 | as written, a single argument other than `/?` changes nothing: `dir *.rp6502` and `dir /da` keep what `dir` keeps, with the mask `*` and mode 0 |
| DirList.ArgumentsIntended | src/ext-dir.c:146-206 | read from the first argument on, a pattern first is the target and the flags after it pick the mode; `dir *.rp6502` keeps its mask and `dir /da` is mode 1 |
| DirList.Filter | src/ext-dir.c:242-245 | every entry kept passes the mask, unless it is a directory |
| DirList.CollectedMeaning | src/ext-dir.c:229-253 | the reading loop keeps exactly the directories and matching files in the order read, or the first forty of them when it stops at `DIR_LIST_MAX` |
| DirList.Collect | src/ext-dir.c:229-253 | the array holds the entries `Collected` specifies, in order |
| DirList.StrGreaterIrreflexive | src/ext-dir.c:292 | `strcmp(x, x) > 0` never holds |
| DirList.StrGreaterTransitive | src/ext-dir.c:292 | `strcmp(…) > 0` is transitive |
| DirList.StrGreaterTotal | src/ext-dir.c:292 | two different names are ordered one way or the other |
| DirList.SwapsIrreflexive | src/ext-dir.c:266-296 | no mode's swap test holds for an entry and itself |
| DirList.SwapsTransitive | src/ext-dir.c:266-296 | every mode's swap test is transitive, so the exchange sort ends in a consistent order |
| DirList.SortEntries | src/ext-dir.c:264-303 | the exchange sort leaves the entries a permutation of what they were, with no pair the swap test would exchange |
| DirList.SettledMeaning | src/ext-dir.c:264-303 | sorted means: mode 1 newest first, mode 2 oldest first, 3 smallest first, 4 largest first, otherwise files before directories and each group by ascending name |
| DirList.AttrFlagsShowBits | src/ext-dir.c:332-337 | the `RHSVDA` column shows exactly the six low attribute bits |
| DirList.NameColumnAligned | src/ext-dir.c:306-319 | the shown name, bracketed for a directory, is left-aligned in 32 columns and never cut |
| DirList.FileCount | src/ext-dir.c:323-330 | no more files than entries |
| DirList.Wrap | src/ext-dir.c:328 | `total_bytes += fsize` on a 32-bit counter: the total stays below 2^32 |
| DirList.CountsAddUp | src/ext-dir.c:323-330 | files and directories together count every entry once; all are files exactly when none is a directory |
| DirList.ListEntries | src/ext-dir.c:305-347 | the listing is one line per entry in order, then the summary |
| DirList.ListLines | src/ext-dir.c:305-338 | the entry lines, the file count, the directory count as the rest, and the byte total wrapped at 2^32 |
| DirList.EntryText | src/ext-dir.c:306-338 | one entry's line is the name column, a tab, the date, a tab, `<DIR>` or the size, a tab, the attribute column |
| DirList.NameText | src/ext-dir.c:307-319 | the padding loop produces the name column |
| DirList.SummaryText | src/ext-dir.c:340-347 | the summary reports files, directories and bytes |
| DirList.SortAndList | src/ext-dir.c:264-347 | the listing is of a permutation of the kept entries sorted for the mode |
| DirList.ReadAndList | src/ext-dir.c:229-347 | the listing is of the entries the reading loop kept, and nothing when a read or the close fails |
| DirList.Dir | src/ext-dir.c:125-353 | `main` gives the text and exit code of `Run`, listing a permutation of the kept entries sorted for the mode the flags select |
| DirList.Run | src/ext-dir.c:125-353 | the exit code is 0 or -1; a bad drive prints `Invalid drive` and exits 0; a -1 other than the usage text comes only after the directory opened and its header was printed; `ReadAndList` and `Dir` tie it to the listing |
| DirList.PermutedFat | src/ext-dir.c:264-303 | sorting keeps the entries within what FatFs hands out |
| Opcodes.Find | src/ext-mass.c:387-395 | the first row with the name, or none exactly when no row has it |
| Opcodes.FindOp | src/ext-mass.c:387-395 | `find_op`'s walk up to the null-named row finds what `Find` specifies |
| Opcodes.Lookup | src/ext-mass.c:766-775 | no opcode exactly when no variant has the mode; otherwise the opcode of the first variant with that mode |
| Opcodes.ScanVars | src/ext-mass.c:766-775 | the scan over `count` slots returns the first matching variant's opcode among them, or -1 |
| Opcodes.MapMode | src/ext-mass.c:76-79 | an implied operand becomes the stack mode exactly for a stack mnemonic; every other mode is kept |
| Opcodes.Cell | src/ext-mass-opcodes.h:218-228 | the cell in the mode's column, or -1 for a mode without a column |
| Opcodes.DefsWellFormed | src/ext-mass-opcodes.h:115-214 | the variant table ends with its one null row, and every `count` is `sizeof` the variants, twice their number |
| Opcodes.RowsWellFormed | src/ext-mass-opcodes.h:228-286 | the 14-column table ends with its one null row, and every row has 14 cells, each -1 or an opcode |
| Opcodes.BranchesOnlyRelative | src/ext-mass-opcodes.h:228-286 | a row has an opcode in the relative column exactly for a branch, and a branch has no other |
| Opcodes.ShiftsShareImpliedAndAccumulator | src/ext-mass-opcodes.h:228-286 | the accumulator column is filled exactly for the shifts and rotates, with the same opcode as the implied column |
| Opcodes.IncScansIntoInx | src/ext-mass.c:766-775 | as written, the scan reads `count` (twice the variants) slots: `INC` and `DEC` have no implied form, yet the scan finds INX's $E8 and DEX's $CA stored after them |
| Opcodes.LookupAppend | src/ext-mass.c:766-775 | a lookup over two runs of variants finds the first run's variant if it has one, so scanning only the mnemonic's own variants is what the table intends |
| Mass.TrimComment | src/ext-mass.c:176-182 | the text before the first `;`: a prefix without `;`, cut exactly at a `;` |
| Mass.RStrip | src/ext-mass.c:183-186 | a prefix ending in no CR, LF, space or tab, with only such characters removed |
| Mass.LTrim | src/ext-mass.c:187 | a suffix that starts with no space or tab |
| Mass.Upper | src/ext-mass.c:188 | the same length, each character upper-cased |
| Mass.WordLen | src/ext-mass.c:402 | the run of non-space characters at the start, ending at a space or the end |
| Mass.SplitToken | src/ext-mass.c:397-408 | none exactly for a blank line; otherwise a token without spaces and a rest that starts with no blank |
| Mass.SplitTokenJoin | src/ext-mass.c:397-408 | a token, one space and a rest split back into the two |
| Mass.FieldLen | src/ext-mass.c:568-570 | a token of at most 79 characters without commas, ending at a comma unless it hits the limit or the end |
| Mass.ItemsJoin | src/ext-mass.c:565-572 | the `.byte` and `.word` token loop recovers the items that were joined with commas |
| Mass.CountItems | src/ext-mass.c:565-572 | the pass-1 loop counts the non-empty tokens `Items` finds |
| Mass.StrToUL | src/ext-mass.c:327-346 | `strtoul` converts nothing exactly when there are no digits; its value saturates at `ULONG_MAX` and, without a sign, is the number the digits spell |
| Mass.Cast16 | src/ext-mass.c:332 | the `uint16_t` cast keeps the value modulo 2^16 |
| Mass.ParseBinary | src/ext-hass.c:416-428 | 1 to 8 binary digits followed only by blanks, read as their value below $100 |
| Mass.ParseNumber | src/ext-mass.c:336-346 | `$` reads hexadecimal, a leading digit decimal, and the value is below $10000 |
| Mass.SpelledDecimal | src/ext-mass.c:327-335 | decimal digits spell the number they were written from |
| Mass.SpelledHex | src/ext-mass.c:336-342 | hexadecimal digits spell the number they were written from |
| Mass.DecimalNumber | src/ext-mass.c:327-335 | decimal text reads back as its value modulo 2^16, and a value past `ULONG_MAX` as $FFFF |
| Mass.HexNumber | src/ext-mass.c:336-342 | `$` and four hex digits read back as their value |
| Mass.PercentOf | src/ext-hass.c:399-431 | a `%` number is read in binary by ext-hass.c and refused by ext-mass.c |
| Mass.BinaryNumber | src/ext-hass.c:416-428 | `%` and one to eight binary digits read back as their value in ext-hass.c |
| Mass.BinaryTooWide | src/ext-hass.c:416-428 | nine or more binary digits are refused |
| Mass.Truncate | src/ext-mass.c:350-353 | the name is cut to 47 characters |
| Mass.ParseValue | src/ext-mass.c:354-369 | a label name has at most 47 characters and a number is below $10000 |
| Mass.ApplyVop | src/ext-mass.c:370-374 | `<` and `>` give a byte; no operator keeps the value |
| Mass.HighLow | src/ext-mass.c:370-374 | the high byte times 256 plus the low byte gives the value back |
| Mass.ParseValueText | src/ext-mass.c:354-369 | every value written as its operator and `$` hex digits, or as its label, reads back as itself |
| Mass.ParseValueOp | src/ext-mass.c:366-368 | `<` or `>` before a number or name selects the byte and reads the rest as a number when it is one and as a label otherwise |
| Mass.NameNotNumber | src/ext-mass.c:336-346 | an identifier is never read as a number |
| Mass.Escaped | src/ext-mass.c:254-260 | exactly the escapes `\n \r \t \\ \"` are accepted |
| Mass.AsciiBody | src/ext-mass.c:250-270 | a string body read successfully extends the bytes so far and stays within `max` |
| Mass.AsciiBytes | src/ext-mass.c:244-272 | a successful parse starts with a quote after the blanks and yields at most `max` bytes |
| Mass.AsciiQuoted | src/ext-mass.c:244-272 | a quoted string with its backslashes and quotes escaped reads back as its bytes when they fit, and fails when they do not |
| Mass.FindSym | src/ext-mass.c:298-305 | the first entry with the name, or none exactly when no entry has it |
| Mass.AddOrUpdate | src/ext-mass.c:306-318 | the program exits exactly when the table already holds 64 entries; otherwise the table keeps its size or gains one entry |
| Mass.Defined | src/ext-mass.c:375-385 | a value exactly when the first entry with the name is defined |
| Mass.AddDefines | src/ext-mass.c:306-318 | after a definition the name has the value given and every other name keeps its value |
| Mass.FindSymAppend | src/ext-mass.c:298-318 | appending an entry does not change where an existing name is found |
| Mass.AddKeepsUnique | src/ext-mass.c:306-318 | names stay unique |
| Mass.DeclareKeeps | src/ext-mass.c:310-313 | a declaration that is not a definition leaves an existing entry alone |
| Mass.Known | src/ext-mass.c:375-385 | a number with its operator applied, or a label's value exactly when it is defined |
| Mass.Resolve | src/ext-mass.c:375-385 | the known value, or 0 for an unknown label |
| MassOperands.Pos | src/ext-mass.c:425 | `strchr`: the first occurrence of the character, or the end |
| MassOperands.OperandMode | src/ext-mass.c:410-479 | never relative or stack mode, and a `*` forces only a mode that has a zero-page form |
| MassOperands.Dispatch | src/ext-mass.c:426-479 | never relative or stack mode, and forcing only where a zero-page form exists |
| MassOperands.Indirect | src/ext-mass.c:428-447 | the `(` branch gives no relative or stack mode, and a forced one is zero-page indirect |
| MassOperands.Indexed | src/ext-mass.c:449-469 | the comma branch gives an X- or Y-indexed or absolute mode, zero page only when forced |
| MassOperands.Direct | src/ext-mass.c:470-476 | without a comma, zero page or absolute, zero page when forced |
| MassOperands.InstrOperand | src/ext-mass.c:625-630 | relative mode exactly for a branch mnemonic, never stack mode |
| MassOperands.ValueTextShape | src/ext-mass.c:410-479 | a written value holds none of the characters the operand syntax uses |
| MassOperands.StarPrefix | src/ext-mass.c:417-421 | a leading `*` is passed on as forcing and the rest dispatched as it stands |
| MassOperands.DirectText | src/ext-mass.c:470-476 | a value on its own is a direct operand |
| MassOperands.IndexedText | src/ext-mass.c:449-465 | a value, a comma and `X` or `Y` is indexed, zero page when forced or fitting |
| MassOperands.IndirectYText | src/ext-mass.c:434 | `(v),Y` is indirect-indexed whatever `v` |
| MassOperands.IndirectXText | src/ext-mass.c:436-440 | `(v,X)` is zero-page indexed-indirect when `v` fits and absolute otherwise |
| MassOperands.IndirectText | src/ext-mass.c:441-446 | `(v)` is zero-page indirect when forced or fitting, absolute indirect otherwise |
| MassOperands.DirectRoundTrip | src/ext-mass.c:470-476 | the direct forms read back as written |
| MassOperands.IndexedRoundTrip | src/ext-mass.c:449-469 | the indexed forms read back as written |
| MassOperands.IndirectRoundTrip | src/ext-mass.c:428-447 | the indirect forms read back as written |
| MassOperands.OperandRoundTrip | src/ext-mass.c:410-479 | every operand the parser can produce reads back from its written form |
| MassOperands.Word | src/ext-mass.c:375 | a resolved value is below $10000 |
| Common.Signed16 | src/ext-mass.c:792 | the `int16_t` cast is the two's-complement reading of the low 16 bits |
| MassOperands.SizeMatches | src/ext-mass.c:641-645 | with the `(abs,X)` operand emitted, pass 2 writes as many bytes as pass 1 counted in every mode |
| MassOperands.Size | src/ext-mass.c:641-645 | pass 1 counts 1 to 3 bytes, 1 exactly for implied and accumulator instructions |
| MassOperands.OperandBytes | src/ext-mass.c:778-799 | at most two operand bytes; an error only for a forced zero-page value over $FF or a branch; a two-byte operand is the value little-endian; `SizeMatches`, `AbsIndXDropped` and `BranchLands` give the rest |
| MassOperands.AbsIndXDropped | src/ext-mass.c:778-799 | as written, `JMP ($1234,X)` is counted as three bytes in pass 1 but emitted as one in pass 2: the mode is in none of pass 2's groups |
| MassOperands.OffsetIsDistance | src/ext-mass.c:792 | the nested 16-bit casts give the signed distance modulo $10000 |
| MassOperands.Reach | src/ext-mass.c:793-796 | a target is in reach exactly when its signed 16-bit distance is within -128..127, and that distance lands on it |
| MassOperands.BranchLands | src/ext-mass.c:790-798 | the branch byte lands on the target exactly when it is within -128..127 of the next instruction; otherwise the byte is 0 and the line is flagged |
| MassOperands.OffsetByte | src/ext-mass.c:797 | an offset in reach survives `& 0xFF` and the 6502's sign extension |
| MassLines.IdentRun | src/ext-mass.c:528-530 | the run of identifier characters at the start, ending at a character that is not one |
| MassLines.NamedEqu | src/ext-mass.c:275-296 | a recognised `NAME .equ value` line always has a value |
| MassLines.Classify | src/ext-mass.c:540-621 | a statement is a constant definition exactly when `parse_named_equ_line` accepts it, and empty only for blank text |
| MassLines.Label1 | src/ext-mass.c:527-537 | pass 1's label is an identifier of at most 47 characters |
| MassLines.FixOrg | src/ext-mass.c:533 | `org` takes `pc` only while it is still unset, and nothing else changes |
| MassLines.Wrap16 | src/ext-mass.c:28-29 | `pc` as a `uint16_t`: below $10000, unchanged when it already is |
| MassLines.Advance | src/ext-mass.c:641-645 | `pc` moves on by n modulo $10000 and nothing else changes |
| MassLines.Define | src/ext-mass.c:541-550 | a definition keeps `pc` and `org`, and exits exactly when the value is known and the table already holds 64 entries |
| MassLines.Directive1 | src/ext-mass.c:552-613 | a directive keeps a set `org` and keeps `pc` and `org` 16-bit addresses |
| MassLines.Instr1 | src/ext-mass.c:615-646 | an instruction keeps a set `org` and keeps `pc` and `org` 16-bit addresses |
| MassLines.Pass1Stmt | src/ext-mass.c:540-646 | a statement keeps a set `org` and keeps `pc` and `org` 16-bit addresses |
| MassLines.Labelled | src/ext-mass.c:527-537 | a label keeps `pc`, keeps a set `org` and keeps it a 16-bit address |
| MassLines.Pass1Line | src/ext-mass.c:519-646 | one line of pass 1 keeps a set `org` and keeps `pc` and `org` 16-bit addresses |
| MassLines.ByteValues | src/ext-mass.c:699-717 | one byte per `.byte` item: the low byte of its resolved value |
| MassLines.WordValues | src/ext-mass.c:718-732 | two bytes per `.word` item |
| MassLines.LowFirstBytes | src/ext-mass.c:729-730 | each 16-bit value is stored low byte first |
| MassLines.WordsLowFirst | src/ext-mass.c:718-732 | each `.word` item is stored as the low then the high byte of its resolved value |
| MassLines.Directive2 | src/ext-mass.c:695-755 | a directive's bytes start at `pc`, or at a 16-bit address after `.org` |
| MassLines.Instr2 | src/ext-mass.c:756-801 | an instruction's bytes start at `pc` |
| MassLines.Pass2Stmt | src/ext-mass.c:691-801 | a statement's bytes start at `pc`, or at a 16-bit address after `.org` |
| MassLines.Pass2Line | src/ext-mass.c:672-801 | a line's bytes start at `pc`, or at a 16-bit address after `.org` |
| MassLines.BodiesAgree | src/ext-mass.c:527-537 | with labels of at most 47 characters, pass 1 and pass 2 cut off the same label |
| MassLines.ModeIgnoresTable | src/ext-mass.c:410-479 | in ext-mass.c the symbol table does not affect the mode an operand gets |
| MassLines.DispatchIgnoresTable | src/ext-mass.c:410-479 | without the zero-page symbol rule the operand text alone decides the mode |
| MassLines.PlainWord | src/ext-mass.c:375-385 | a plain number resolves to itself |
| MassLines.DirectiveSizes | src/ext-mass.c:552-613 | a directive moves pass 2's `pc` as far as pass 1's |
| MassLines.OrgSizes | src/ext-mass.c:557-560 | `.org` with a plain number puts both passes' `pc` at the number |
| MassLines.DataSizes | src/ext-mass.c:562-580 | `.byte` and `.word` move both passes' `pc` by 1 and 2 bytes per item |
| MassLines.AsciiSizes | src/ext-mass.c:584-601 | `.ascii` and `.asciz` move both passes' `pc` by the string's bytes, plus one for `.asciz` |
| MassLines.InstrSizes | src/ext-mass.c:641-645 | an instruction moves pass 2's `pc` as far as pass 1's, as written unless its mode is `(abs,X)`, and always with that operand emitted |
| MassLines.EmitSize | src/ext-mass.c:778-799 | an opcode and its operand bytes take the mode's size, as written for every mode but `(abs,X)` |
| MassLines.StmtSizes | src/ext-mass.c:540-645 | on one statement pass 2 ends where pass 1 put `pc`; as written, for a statement that is no `(abs,X)` instruction |
| MassLines.LineSizes | src/ext-mass.c:519-646 | on one line with labels that fit and a plain `.org`, pass 2 ends where pass 1 put `pc`; as ext-mass.c is written, for a line that is no `(abs,X)` instruction (`NoAbsIndX`), and for every line with that operand emitted |
| MassPasses.Put | src/ext-mass.c:651-663 | `emit_at`: a byte before `org` or 8192 past it is refused and flagged, any other stored at `at - org`; `pc` moves on modulo $10000 |
| MassPasses.PutAll | src/ext-mass.c:651-663 | the output area keeps its 8192 bytes and `pc` stays a 16-bit address |
| MassPasses.PutAllPc | src/ext-mass.c:651-663 | after the bytes, `pc` is their count further on |
| MassPasses.PutAllPlaces | src/ext-mass.c:651-663 | bytes that fit the area land one after the other at `pc - org`, and nothing else changes |
| MassPasses.PutAllFlags | src/ext-hass.c:826-840 | once an error is flagged it stays flagged |
| MassPasses.Pass2Step | src/ext-mass.c:672-801 | one line keeps the area's size and `pc` a 16-bit address |
| MassPasses.Pass2Run | src/ext-mass.c:665-806 | pass 2 keeps the area's size and `pc` a 16-bit address |
| MassPasses.Pass2StepPc | src/ext-mass.c:672-801 | after a line `pc` is where the line's bytes end |
| MassPasses.Pass1Prefix | src/ext-mass.c:519-646 | a run that gets through every line gets through every prefix |
| MassPasses.Pass1RunPc | src/ext-mass.c:515-647 | pass 1 started at a 16-bit `pc` ends at one |
| MassPasses.RunsAgree | src/ext-mass.c:515-806 | in ext-mass.c as written (`complete` false), on a program with no `(abs,X)` instruction, started from the same address, pass 2 ends where pass 1 ends; with the `(abs,X)` operand emitted (the corrected pass 2 of the Findings row src/ext-mass.c:778-799) for every program |
| MassPasses.OrgLineMoves | src/ext-mass.c:557-560 | a plain `.org n` line puts both passes at n and sets an unset `org` to n |
| MassPasses.ProgramAgrees | src/ext-mass.c:515-806 | for a program that opens with `.org n`, `org` is n, and pass 2 (starting at `org`) ends where pass 1 (starting at 0) ends: as written when no line is an `(abs,X)` instruction, and for every program with that operand emitted |
| MassPasses.Pass1RunPcFrom | src/ext-mass.c:557-560 | after a `.org n` line, `pc` stays a 16-bit address |
| MassPasses.Cleared | src/ext-mass.c:669-670 | the cleared area is 8192 zero bytes |
| MassPasses.Saved | src/ext-mass.c:808-829 | a file exactly when `pc - org` is positive (and, in ext-hass.c, no error was flagged), holding `pc - org` bytes of XRAM from the start of the output area: the area's 8192 bytes, then the XRAM after it (the symbol table at $6000 in ext-mass.c, the listing buffer at $5200 in ext-hass.c) |
| MassPasses.SavesWhatPass1Counted | src/ext-mass.c:908-910 | for a program that opens with `.org n`, the file is written exactly when pass 1 counted bytes past n, and holds that many, reading on past the output area into the XRAM after it: as written when no line is an `(abs,X)` instruction (each such line leaves the file two bytes short, `AbsIndXDropped`), and for every program with that operand emitted |
| MassPasses.Assemble | src/ext-mass.c:831-910 | the run exits exactly when pass 1 does (a full symbol table), and a saved file is not empty and never longer than the area and the XRAM after it; `SavesWhatPass1Counted` gives its length as written for programs without `(abs,X)` instructions |
| MassPasses.Assembler.constructor | src/ext-mass.c:845-848 | an empty symbol table, `org` and `pc` at the default, no error |
| MassPasses.Assembler.Pass1 | src/ext-mass.c:515-647 | `pass1` starts with `org` unset and `pc` at 0 and ends in the state `Pass1Run` gives; it reports an exit exactly when that run stops at a full symbol table |
| MassPasses.Assembler.EmitAt | src/ext-mass.c:651-663 | `emit_at(b, pc++)` does what `Put` says |
| MassPasses.Assembler.EmitAll | src/ext-mass.c:651-663 | a line's bytes are emitted as `PutAll` says |
| MassPasses.Assembler.Pass2 | src/ext-mass.c:665-806 | `pass2` clears the area, starts at `org` and emits each line's bytes, as `Pass2Run` says; ext-hass.c without its listing file changes nothing |
| MassPasses.Assembler.Clear | src/ext-mass.c:669-671 | the area is zeroed and `pc` set back to `org` |
| MassPasses.Assembler.Step | src/ext-mass.c:672-801 | one line of pass 2 does what `Pass2Step` says |
| MassPasses.Assembler.SaveBin | src/ext-mass.c:808-829 | `save_bin` writes what `Saved` says: the area's bytes, then those of the XRAM after it |
| MassPasses.Assembler.Run | src/ext-mass.c:908-910 | `pass1`, `pass2` and `save_bin` give what `Assemble` says for the stored lines, the area's old contents and the XRAM after the area |
| MassPasses.Pass1RunNext | src/ext-mass.c:519 | pass 1 on one more line is one more `Pass1Line` |
| MassPasses.Pass2RunNext | src/ext-mass.c:672 | pass 2 on one more line is one more `Pass2Step` |
| MassPasses.Pass1Stops | src/ext-mass.c:308 | a line that exits stops the whole run |
| QasmLines.QOpsWellFormed | src/ext-qasm.c:74-129 | the qasm opcode table ends in its terminator, and every row has 14 cells, each -1 or an opcode byte |
| QasmLines.ParseValue | src/ext-qasm.c:212-220 | a label keeps at most 47 characters, a number is a 16-bit value, and an empty token is the number 0 |
| QasmLines.ParseValueAgrees | src/ext-qasm.c:194-220 | qasm reads a value exactly as ext-mass.c does without its `%` binary prefix |
| QasmLines.ParseValueText | src/ext-qasm.c:212-220 | a value written out in canonical form reads back as the same value |
| QasmLines.OperandMode | src/ext-qasm.c:262-303 | qasm never yields a relative, stack or `(abs,X)` mode from the operand text, and never forces zero page |
| QasmLines.Dispatch | src/ext-qasm.c:271-302 | the same holds once leading blanks are gone |
| QasmLines.Indirect | src/ext-qasm.c:275-288 | an operand that opens with `(` is implied (no `)` or nothing inside), `(zp),Y`, `(zp,X)`, `(zp)` or `(abs)` |
| QasmLines.Indexed | src/ext-qasm.c:290-298 | an operand with a comma is zero page or absolute indexed by X or Y, or absolute |
| QasmLines.Direct | src/ext-qasm.c:299-302 | a plain operand is zero page exactly when its value is a plain number up to $FF |
| QasmLines.InstrOperand | src/ext-qasm.c:420-425 | the mode is relative exactly for the nine branch mnemonics |
| QasmLines.Trimmed | src/ext-qasm.c:268-269 | leading blanks do not change the mode |
| QasmLines.IndirectPlain | src/ext-qasm.c:285-287 | `(w)` is `(zp)` for a plain number up to $FF and `(abs)` otherwise |
| QasmLines.IndirectY | src/ext-qasm.c:281 | `(w),Y` is `(zp),Y` with w's value |
| QasmLines.IndirectX | src/ext-qasm.c:282-284 | `(w,X)` is `(zp,X)` with w's value |
| QasmLines.IndexedForm | src/ext-qasm.c:290-297 | `w,X` and `w,Y` are the zero-page form for a plain number up to $FF and the absolute form otherwise |
| QasmLines.DirectForm | src/ext-qasm.c:299-302 | an operand without `#`, `(`, a comma or an accumulator name is a direct operand |
| QasmLines.WrittenValue | src/ext-qasm.c:212-220 | the canonical text of an operand's value is short, has no blank, comma or parenthesis, and reads back as the value |
| QasmLines.DirectRoundTrip | src/ext-qasm.c:299-302 | a zero-page or absolute operand written out reads back as the same operand |
| QasmLines.IndexedRoundTrip | src/ext-qasm.c:290-297 | an indexed operand written out reads back as the same operand |
| QasmLines.IndirectRoundTrip | src/ext-qasm.c:275-288 | an indirect operand written out reads back as the same operand |
| QasmLines.OperandRoundTrip | src/ext-qasm.c:262-303 | every operand qasm can produce, written out, reads back as the same operand |
| QasmLines.IndexAfterParenIgnored | src/ext-qasm.c:281-287 | `(v),X` is taken as `(v)`: the `,X` after the parenthesis is dropped without a message |
| QasmLines.IndirectTailIgnored | src/ext-qasm.c:281-287 | the same for any value text w |
| QasmLines.OpcodeOf | src/ext-qasm.c:417-426 | an opcode exists exactly when the mnemonic is in the table and its cell for the operand's mode is not -1 |
| QasmLines.BranchOpcode | src/ext-qasm.c:422-426 | a branch takes its opcode from the table's last (relative) column |
| QasmLines.AddSym | src/ext-qasm.c:161-175 | exits exactly when the table already holds 50 symbols; otherwise adds or updates as ext-mass.c does |
| QasmLines.AddSymDefines | src/ext-qasm.c:161-175 | a definition gives the name its value, leaves every other name alone and keeps names unique |
| QasmLines.FixOrg | src/ext-qasm.c:357 | `org` takes `pc` only while it is unset |
| QasmLines.Advance | src/ext-qasm.c:429-431 | `pc` moves on by n modulo $10000 and nothing else changes |
| QasmLines.Define | src/ext-qasm.c:399-407 | a definition keeps `pc` and `org`; an unknown value changes nothing; a known one exits exactly at a full table |
| QasmLines.Labelled | src/ext-qasm.c:352-361 | a label keeps `pc` and a set `org`; a line without a label is unchanged |
| QasmLines.Directive1 | src/ext-qasm.c:364-413 | a directive keeps a set `org` and keeps `pc` and `org` 16-bit addresses |
| QasmLines.Instr1 | src/ext-qasm.c:415-431 | an instruction never exits, keeps a set `org` and keeps `pc` and `org` 16-bit addresses |
| QasmLines.Pass1Line | src/ext-qasm.c:344-432 | one line of pass 1 keeps a set `org` and keeps `pc` and `org` 16-bit addresses |
| QasmLines.ByteValues | src/ext-qasm.c:487-498 | one byte per `.byte` item: the low byte of its resolved value |
| QasmLines.WordItems | src/ext-qasm.c:499-514 | one resolved value per `.word` item |
| QasmLines.Directive2 | src/ext-qasm.c:482-515 | a directive's bytes start at `pc`, or at a 16-bit address after `.org` |
| QasmLines.Instr2 | src/ext-qasm.c:516-549 | an instruction's bytes start at `pc` |
| QasmLines.Pass2Line | src/ext-qasm.c:458-549 | a line's bytes start at `pc`, or at a 16-bit address after `.org` |
| QasmLines.DirectiveSizes | src/ext-qasm.c:364-413 | with a plain `.org`, a directive moves pass 2's `pc` as far as pass 1's |
| QasmLines.InstrSizes | src/ext-qasm.c:429-431 | an instruction moves pass 2's `pc` as far as pass 1's |
| QasmLines.LineSizes | src/ext-qasm.c:344-549 | on one line with labels that fit and a plain `.org`, pass 2 ends where pass 1 put `pc` |
| QasmLines.OrgSplit | src/ext-qasm.c:249-260 | `.ORG w` splits into the directive and w |
| QasmLines.OrgOperatorSplits | src/ext-qasm.c:368-371 | `.org >n` puts pass 1 at n but pass 2 at n's high byte |
| QasmLines.HighByte | src/ext-qasm.c:221-225 | the `>` operator gives the high byte |
| QasmLines.OrgLabelSplits | src/ext-qasm.c:368-371 | `.org label` leaves pass 1 where it was but moves pass 2 to the label's value |
| QasmLines.NamedEquIgnored | src/ext-qasm.c:415-418 | as written, `NAME .equ k` defines nothing and emits nothing |
| QasmLines.NamedEquDefines | src/ext-qasm.c:395-410 | with named definitions read, `NAME .equ k` defines NAME as k, keeps `pc` and emits nothing |
| QasmLines.DefinesName | src/ext-qasm.c:161-175 | with room in the table, a definition gives the name its value |
| QasmLines.EquLineShape | src/ext-qasm.c:352-364 | `NAME .equ w` has no label and does not start with `.` |
| QasmLines.PlainText | src/ext-qasm.c:136-142 | a line with no `;` and no leading blank is its own text |
| QasmLines.NoLabel | src/ext-qasm.c:352-356 | an identifier not followed by `:` is not a label in either pass |
| QasmLines.EquNamed | src/ext-mass.c:275-296 | `NAME .equ w` is recognised as a named definition of NAME as w |
| Qasm.Pieces | src/ext-qasm.c:594 | a typed line comes back from `fgets` into an 80-byte buffer as at least one piece |
| Qasm.Read | src/ext-qasm.c:593-614 | reading only ever adds lines after those already kept |
| Qasm.StripNewline | src/ext-qasm.c:143-146 | `rstrip` removes the newline and nothing of a line that does not end in a blank |
| Qasm.TypedCons | src/ext-qasm.c:594 | the pieces of typed lines are the pieces of each line in turn |
| Qasm.TypedEnd | src/ext-qasm.c:595 | the closing empty line arrives as a lone newline |
| Qasm.ShortPieces | src/ext-qasm.c:594 | a line of up to 77 characters arrives whole with its newline |
| Qasm.FullPieces | src/ext-qasm.c:594 | a line of 79 characters arrives as itself and then a lone newline |
| Qasm.ReadShort | src/ext-qasm.c:594-613 | a short line is stripped and kept |
| Qasm.ReadFull | src/ext-qasm.c:594-613 | a 79-character piece is kept as a line |
| Qasm.ReadNewline | src/ext-qasm.c:595 | a lone newline ends the input as written; read as intended it only ends the input at the start of a line |
| Qasm.ReadsShortLines | src/ext-qasm.c:593-614 | lines shorter than 78 characters followed by an empty line are read back exactly |
| Qasm.LongLineEndsInput | src/ext-qasm.c:594-595 | as written, a 79-character line ends the input: the lines typed after it are lost |
| Qasm.ReadsFullEnd | src/ext-qasm.c:594-595 | read as intended, the newline after a 79-character line only closes that line |
| Qasm.ReadsLinesFixed | src/ext-qasm.c:593-614 | read as intended, lines of up to 79 characters followed by an empty line are read back exactly |
| Qasm.Put | src/ext-qasm.c:436-448 | `emit_at`: a byte before `org` or 8192 past it is dropped, any other stored at `at - org`; `pc` moves on modulo $10000 |
| Qasm.PutAll | src/ext-qasm.c:436-448 | the output buffer keeps its 8192 bytes and `pc` stays a 16-bit address |
| Qasm.PutAllPc | src/ext-qasm.c:531-546 | after the bytes, `pc` is their count further on |
| Qasm.PutAllPlaces | src/ext-qasm.c:436-448 | bytes that fit the buffer land one after the other at `pc - org`, and nothing else changes |
| Qasm.PutAllOutside | src/ext-qasm.c:438-446 | bytes wholly before `org` or past the buffer leave it unchanged |
| Qasm.Pass2Step | src/ext-qasm.c:459-549 | one line keeps the buffer's size and `pc` a 16-bit address |
| Qasm.Pass2Run | src/ext-qasm.c:450-565 | pass 2 keeps the buffer's size and `pc` a 16-bit address |
| Qasm.Pass2StepPc | src/ext-qasm.c:459-549 | after a line `pc` is where the line's bytes end |
| Qasm.Pass1Prefix | src/ext-qasm.c:344 | a run that gets through every line gets through every prefix |
| Qasm.Pass1RunPc | src/ext-qasm.c:340-433 | pass 1 started at a 16-bit `pc` ends at one |
| Qasm.RunsAgree | src/ext-qasm.c:340-565 | started from the same address, pass 2 ends where pass 1 ends |
| Qasm.OrgLineMoves | src/ext-qasm.c:368-371 | a plain `.org n` line puts both passes at n and sets an unset `org` to n |
| Qasm.ProgramAgrees | src/ext-qasm.c:340-565 | for a program that opens with `.org n`, `org` is n, and pass 2 (starting at `org`) ends where pass 1 (starting at 0) ends |
| Qasm.Dump | src/ext-qasm.c:557 | the listing shows three characters per byte |
| Qasm.Pad | src/ext-qasm.c:558-559 | the padding is computed in cc65's 16-bit arithmetic: it is below $8000, and when positive it equals `11 - 3 * (after - before)` modulo $10000 |
| Qasm.PadShort | src/ext-qasm.c:558 | a row of 0 to 3 bytes is padded with 11 spaces less three per byte |
| Qasm.RowAligned | src/ext-qasm.c:556-560 | a row of up to three bytes puts the bar and a blank at columns 16-17 and the source text from column 18 |
| Qasm.PadBackwards | src/ext-qasm.c:558 | when `pc` went backwards by up to 10918 bytes the padding is 11 plus three per byte |
| Qasm.PadWraps | src/ext-qasm.c:553-559 | past that the 16-bit arithmetic shows: `.org $C000`, `NOP`, `.org $0000` pads 16398 spaces, `.org $C000`, `.org $F000` pads 28683, and a backward jump of 10919 bytes pads none |
| Qasm.Saved | src/ext-qasm.c:568-576 | the file holds the first `pc - org` bytes of the buffer, or none when `pc` is not past `org` |
| Qasm.Zeroes | src/ext-qasm.c:23 | the static buffer starts as 8192 zero bytes |
| Qasm.SavesWhatPass1Counted | src/ext-qasm.c:616-618 | for a program that opens with `.org n`, the file holds as many bytes as pass 1 counted past n |
| Qasm.Assemble | src/ext-qasm.c:579-618 | the run exits exactly when pass 1 does, and the file is never longer than the buffer; `SavesWhatPass1Counted` gives its length |
| Qasm.Assembler.constructor | src/ext-qasm.c:19-45 | no lines, no symbols, a zeroed buffer, `org` and `pc` at $C000 |
| Qasm.Assembler.AddLine | src/ext-qasm.c:177-182 | exits exactly when 128 lines are held; otherwise keeps the first 79 characters of the line |
| Qasm.Assembler.ReadInput | src/ext-qasm.c:593-614 | the lines kept are those `Read` gives |
| Qasm.Assembler.Pass1 | src/ext-qasm.c:340-433 | `pass1` starts with `org` unset and `pc` at 0 and ends in the state `Pass1Run` gives; it reports an exit exactly when that run stops at a full symbol table |
| Qasm.Assembler.EmitAt | src/ext-qasm.c:436-448 | `emit_at(b, pc++)` does what `Put` says |
| Qasm.Assembler.EmitAll | src/ext-qasm.c:531-546 | a line's bytes are emitted as `PutAll` says |
| Qasm.Assembler.Step | src/ext-qasm.c:459-549 | one line of pass 2 does what `Pass2Step` says |
| Qasm.Assembler.Pass2 | src/ext-qasm.c:450-565 | `pass2_and_list` starts at `org` without clearing the buffer and emits each line's bytes, as `Pass2Run` says |
| Qasm.Assembler.SaveBin | src/ext-qasm.c:568-576 | `save_bin` writes what `Saved` says |
| Qasm.Assembler.Run | src/ext-qasm.c:616-618 | `pass1`, `pass2_and_list` and `save_bin` give what `Assemble` says |
| Qasm.Pass1RunNext | src/ext-qasm.c:344 | pass 1 on one more line is one more `Pass1Line` |
| Qasm.Pass2RunNext | src/ext-qasm.c:458 | pass 2 on one more line is one more `Pass2Step` |
| Qasm.Pass1Stops | src/ext-qasm.c:163 | a line that exits stops the whole run |
| HexSend.SerialPort.constructor | tools/sendfile.py:32-35 | a freshly opened port has received nothing |
| HexSend.SerialPort.Write | tools/sendfile.py:36-42 | `ser.write` appends its bytes to what the port has received |
| HexReceive.OutFile.constructor | tools/receivefile.py:42 | the output file opened with `"wb"` starts empty |
| HexReceive.OutFile.Write | tools/receivefile.py:58 | `f.write(data)` appends the data to the file's contents |
| CourierReceiver.Courier.constructor | src/ext-courier-receiver.c:17-21 | the line buffer starts empty and nothing has been written |
| CourierB64.Receiver.constructor | src/ext-courier.c:78 | the line starts empty and nothing has been written |
| CourierB64.Encode | src/ext-courier.c:57-63 | the RFC 4648 encoding the decoder reads: whole groups of 4 characters, at least one for non-empty data |
| Install.Port.constructor | tools/install.py:14-32 | the opened port has the given input and faults ahead of it, and nothing written, logged or elapsed |
| MidiA1.MidiOut.constructor | src/midi/wersja.A1/midi_out.c:120-154 | `midi_init`: an empty ring, the transmitter idle and the line high |
| MidiA2.MidiOut.constructor | src/midi/wersja.A2/midi_out.c:100-134 | `midi_init`: an empty ring, the transmitter idle and no byte in flight |
| MidiB1.MidiOut.constructor | src/midi/wersja.B1/midi_out.c:25-55 | `midi_init`: an empty ring, the state idle and the line high |
| MidiB1.MidiOut.SendMessage | src/midi/wersja.B1/midi_out.c:270-297 | a message is queued byte by byte as `SendAll` says, the line untouched |
| DirList.WriteDate | src/ext-dir.c:102-111 | the first ten characters of the buffer become `YYYY-MM-DD`, the rest untouched |
| DirList.WriteTime | src/ext-dir.c:112-121 | the last ten characters become ` hh:mm:ss` and a NUL, the first ten untouched |

## Left out

- Serial ports, files, XRAM and the RIA are not modelled as devices. What a program reads is a parameter, and what it writes is a recorded sequence. Timeouts are a step counter (`Install`) or an idle flag in the input (the couriers).
- VIA registers, interrupt masking (`sei`/`cli`, saved flags) and real timing are not modelled. Each interrupt is one call of the handler, and the pin levels it drives are a list of bits.
- The assembly halves of the wersja.A2, B2 and B3 drivers are not part of this model: their start routine and interrupt handler are missing. For B2 and B3 the model counts the calls the C code makes to the start routine.
- The melody demos and `delay` loops in the `main` functions of the wersja.* drivers are user-interface code and are not modelled.
- `mktime`, `sscanf`'s library internals beyond the `%Nd` conversions used, and `clock_settime` are parameters (`Calendar`, `SetTime`).
- What the shell commands print (`help`, `cls`, `xr`, `mr`, `dir`'s volume label) is not modelled, except the `hexdump` lines.
- The FatFs calls in `dir` (`f_chdrive`, `f_getcwd`, `f_opendir`, `f_readdir`, `f_closedir`) are parameters.
- `.include`: the contents of the included files are not modelled.
  - ext-qasm.c: an include line is dropped from the typed lines.
  - ext-mass.c and ext-hass.c: the `main` reading loop from stdin and files is not modelled, and the passes start from the stored lines.
- The listing files are not modelled, except the ext-qasm.c row layout (`Qasm.Pad`, `Qasm.RowAligned`):
  - the listing's bytes read from `outbuf`;
  - the ext-qasm.c rows for blank and label-only lines;
  - ext-hass.c's listing contents.
- The opcode table of ext-hass.c is not modelled: its header `ext-hass-opcodes.h` is not part of this model. ext-hass.c reads its table through `g_def->count` and `g_def->vars[i]`, the variant-list layout, so it is modelled with the variant-list table `Opcodes.Ops` of `ext-mass-opcodes.h` standing in for the missing header (`HassDialect`). The 14-column table `Opcodes.OpTable` is modelled and checked for its own sake and feeds no assembler.
- MassPasses.Saved: the XRAM after the output area is a parameter, `after`, the bytes from the end of the area to the end of XRAM at the save. A `len` that would run past $FFFF is cut at the end of `after`: what `write_xram` does with such a range is decided by the RIA firmware, which is not part of this model.
- `save_bin` in ext-qasm.c passes `len` to `fwrite` without bounding it by `MAXOUT`: reading past `outbuf` is undefined behaviour in C. `Qasm.Saved` keeps at most the 8192 bytes of the buffer.
- The `printf` messages of the assemblers (unknown mnemonic, branch out of range, writes before `org`) are not modelled. In ext-hass.c their effect on the status flag is modelled.
- DirMask.MatchMask: proved equal to the wildcard meaning only for names without `*`, because a `*` in the name makes the C loop's literal comparison and its backtracking interact in ways the glob reading does not capture.
- MassPasses.RunsAgree: stated for ext-mass.c only (`!d.symbolFits`), for lines whose labels fit 47 characters and whose `.org` names a plain number (`Regular`), and, as written (`complete` false), for programs without an `(abs,X)` instruction (`Emitted`): each such line leaves pass 2 two bytes behind pass 1 (`MassOperands.AbsIndXDropped`); with the operand emitted, the corrected pass 2 of the Findings row src/ext-mass.c:778-799, that last restriction goes. Longer labels are cut differently by the two passes, and `.org label` or `.org <n` diverge (`QasmLines.OrgLabelSplits`, `QasmLines.OrgOperatorSplits` show the same code in ext-qasm.c).
- MassPasses.ProgramAgrees: same restrictions as `RunsAgree`, `(abs,X)` included. ext-hass.c's zero-page choice by symbol value can make the passes size an operand differently.
- MassPasses.SavesWhatPass1Counted: same restrictions as `RunsAgree`, `(abs,X)` included (as written, `out.bin` is two bytes short per such line), and only for ext-mass.c, whose save does not depend on the status flag.
- Qasm.RunsAgree: only for `Regular` lines (labels that fit and a plain-number `.org`), for the same reason.
- Qasm.ProgramAgrees: only for `Regular` lines, for the same reason.
- QasmLines.LineSizes: only for `Regular` lines, for the same reason.
- MassLines.LineSizes: only for `Regular` lines, for the same reason, and, as written, only for lines that are no `(abs,X)` instruction (`NoAbsIndX`), which pass 2 emits two bytes short.
- Calendar.NeighboursConsecutive: the months are consecutive outright only for a year strictly between -32768 and 32767; at the ends `year - 1` and `year + 1` wrap in the 16-bit `int` (`Calendar.NeighboursWrap`), so there they are consecutive only up to a whole 16-bit turn of the year, which the lemma states for every year.
- Calendar.Atoi: the digits are accumulated without the 32-bit bound of cc65's `long`; only the low 16 bits are kept, and 2^16 divides 2^32, so the returned `int` is the same.
- CourierReceiver.Device: a line already idle before the first byte arrives is not modelled. The C loop then reads `RIA.rx` with no byte ready and handles that value as data before it stops. The model ends at once with nothing written. The stale value is decided by the RIA firmware. A caller can put it at the head of `stream`.
- Missing `calendar` arguments: the C code calls `atoi` on `argv` entries past the last argument. This happens for `/q` or `/n` given a year but no month, and for `/p` missing its year or month. The model reads each missing argument as 0 (`Calendar.Arg`).
- The qasm opcode table has no `INX`, `INY`, `DEX` or `DEY` rows, and the model keeps it that way (`QasmLines.QOpsWellFormed`).
- QasmLines.IndexAfterParenIgnored: `(v),X` is accepted as `(v)`. No corrected version is modelled: the code does not say whether the operand should be refused or read as `(v,X)`.

## Findings

| source | as written | input that shows it | evidently intended | confidence | as-written member | corrected member |
|---|---|---|---|---|---|---|
| src/ext-courier.c:109-122 | the first `=` is stored, the line is decoded and the transfer ends | a file whose length is 1 modulo 3, whose last group is `xx==`: the group is decoded with one `=` and is incomplete, so its byte is lost | end the transfer once the padded group is complete | not executed | CourierB64.TransmissionAsWritten | CourierB64.TransmissionIntended |
| src/ext-courier-receiver.c:137-141 | the STX byte sent by `sendfile.py` is kept in the first line | any file sent by `sendfile.py` to this receiver: the first record reads `\x02:...`, fails the `:` test and its chunk is lost. That `sendfile.py` is the sender meant for ext-courier-receiver.c is assumed: neither names the other, and the only receiver that waits for STX, ext-rx.c, echoes what it reads instead of writing a file | skip the STX byte before the first start code | not executed | CourierReceiver.StxSwallowsFirstRecord | CourierReceiver.IntendedRoundTrip |
| src/ext-courier-receiver.c:138-144 | the 520-byte buffer holds 519 characters | a record of 255 data bytes is 521 characters: it is cut and rejected | room for the longest record (521 characters) | not executed | CourierReceiver.LongRecordDropped | CourierReceiver.IntendedRoundTrip |
| src/ext-dir.c:198-206 | `/da` selects mode 1, which sorts newest first | two entries of different dates listed with `dir x * /da` (the flags are read from the third argument on, see the next row) | `/da` ascending (oldest first), `/dd` descending | not executed | DirList.DaSortsNewestFirst | DirList.DaSortsOldestFirstIntended |
| src/ext-dir.c:155-199 | the path is read from `argv[1]` and the flags from `argv[2]` on, while the first argument typed is `argv[0]`, as the `/?` test on line 146 shows | `dir *.rp6502` lists every entry with mask `*`; `dir /da` is not sorted by date | the path from the first argument and the flags after it, as the usage examples `dir *.rp6502` and `dir /da` show | not executed | DirList.SingleArgumentIgnored | DirList.ArgumentsIntended |
| src/midi.c:126-128 | `delay_counter` is never set back after it passes the threshold | 15626 consecutive calls of `midi()`: every call from then on plays a turn | reset the counter, so one turn every 15625 calls | not executed | MidiDemo.TickNeverPauses | MidiDemo.RunFixedPeriod |
| src/ext-mass.c:766-775 | the variant scan runs to `count`, which is `sizeof` the array (two bytes per variant) | `INC` with no operand: the scan runs into INX's variants and yields $E8. This assumes the compiler lays the variant arrays out one after another in declaration order, as `Opcodes.VarsFrom` takes as given; C does not promise that layout | scan the mnemonic's own variants only | not executed | Opcodes.IncScansIntoInx | Opcodes.LookupAppend |
| src/ext-mass.c:778-799 | pass 2 has no branch for the `(abs,X)` mode, so it emits only the opcode | `JMP ($1234,X)`: three bytes counted in pass 1, one emitted | emit the two address bytes like `(abs)` | not executed | MassOperands.AbsIndXDropped | MassOperands.SizeMatches |
| src/ext-qasm.c:415-418 | `NAME .equ k` is read as an instruction with an unknown mnemonic | `COUNT .equ 5`: COUNT stays undefined | define NAME as k, as the `.equ` syntax message asks | not executed | QasmLines.NamedEquIgnored | QasmLines.NamedEquDefines |
| src/ext-qasm.c:594-595 | a typed line of 79 characters fills `g_buf`; the next `fgets` returns the bare newline, which ends input | a 79-character line followed by more lines: the later lines are lost | treat a newline that only completes a long line as part of it | not executed | Qasm.LongLineEndsInput | Qasm.ReadsLinesFixed |
