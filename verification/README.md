# qn902x-tools in Dafny

A model of the byte-level core of the Quintic QN902x tools:

- the NVDS block codec of `nvdsparser.py`;
- the programming client of `qntool.py`: the divisor computation, the bootloader frame, the reply decoder, the command wrappers, the handshake and the three command-line jobs;
- the older NVDS client of `nvdstool.py`, with its own reply decoder and its fixed handshake.

Everything is pure functions over immutable sequences. The serial port is replaced by a `Link` (`transport.dfy`):
- its `input` is the stream of elements the device sends, where `Byte(b)` is one byte and `Gap` is a read timeout that ends the current read early;
- its `sent` log records every write (`Send(bytes)`) and every reopening of the port at a new rate (`Open(baud)`).

Every operation returns a `Step`: `Done(value, link)`, or `Failed(fault, link)` for an exception, with the link as far as it got. `Session.Packets` is the device's view of a write log: the packets it decodes from the frames written, in order. The command sequences are stated in that view.

Modules:

| module | contents |
|---|---|
| `Bytes` | bytes, Python's clamped slices `Take`/`Drop`, 0xFF fill |
| `Results` | faults, `Result`, `Option` |
| `Struct` | `struct.pack`/`unpack` for `<H`, `<L` and `b` |
| `Crc16` | CRC-16/XMODEM, defined bit by bit |
| `Nvds` | `loads`, `dumps`, `describe` |
| `Transport` | the serial line |
| `Frame` | `build_packet`, with `Unframe`, the device's decoder, as its partner |
| `Session` | `send_command` and the sync loop both clients share |
| `QnTool`, `QnToolMain` | qntool.py |
| `ReadBack` | what qntool reads back from a well-behaved device |
| `NvdsTool` | nvdstool.py |

Three behaviours of the code that the model keeps as written:
- `dumps` raises nothing when the encoding is longer than a block. The fill at nvdsparser.py:74 repeats 0xFF `4096 - len(data)` times, which is no bytes when that count is negative, so the result is the unpadded encoding (`Nvds.Dumps`).
- A 0x04 (failure) result to a program or erase command is returned by `read_packet` (qntool.py:121-124) and ignored by the command line (qntool.py:250, 255, 267, 279). A first byte other than 0x01 raises.
- Both decoders check the CRC over the four header bytes as received and the payload (qntool.py:137, nvdstool.py:114). These are the bytes `build_packet` covers, so both directions check the same thing. Neither checks that the pad byte is 0x00. qntool reads the start byte separately; nvdstool slices it off its five-byte header.

## Model

| member | source | states |
|---|---|---|
| Bytes.Take | nvdsparser.py:50 | Python's `s[:n]` never fails: it is the first `n` elements, or all of them when there are fewer |
| Bytes.Drop | nvdsparser.py:50 | Python's `s[n:]`: what `s[:n]` leaves, so the two together give back `s` |
| Bytes.FlattenAppend | qntool.py:253-255 | joining the chunks with one more chunk appended appends it to the joined string |
| Struct.PackU16 | nvdsparser.py:67 | `struct.pack('<H', v)` succeeds exactly for 0 <= v < 65536, and unpacks back to `v`; otherwise it fails with that value |
| Struct.Le16OfU16 | nvdsparser.py:41 | packing the `<H` value read from two bytes gives those two bytes back |
| Struct.PackU32 | qntool.py:74 | `struct.pack('<L', v)` succeeds exactly for 0 <= v < 2^32, four bytes that unpack back to `v`; otherwise it fails with that value |
| Struct.Le32OfU32 | qntool.py:191 | packing the `<L` value read from four bytes gives those four bytes back |
| Struct.S8Byte | qntool.py:96 | the byte `struct.pack('b', v)` writes reads back as the signed value `v` |
| Crc16.CheckValue | qntool.py:97 | the CRC of the ASCII string "123456789" is 0x31C3, the published CRC-16/XMODEM check value |
| Nvds.Pad | nvdsparser.py:52-54 | the padding after a value of `size` bytes is below 4 and brings the value to a multiple of 4; there is none for a multiple of 4 |
| Nvds.Next | nvdsparser.py:41-54 | the next header starts at a multiple of 4, at least 4 bytes on |
| Nvds.TakeEntrySlices | nvdsparser.py:50-54 | the entry read after a marker-6 header is exactly what Python's clamped slices give: the value is `data[:size]`, and `4 - size % 4` padding bytes are skipped unread when `size % 4 != 0` |
| Nvds.TakeEntry | nvdsparser.py:50-54 | the entry keeps the header's key, its value is never longer than the declared size, and the rest is strictly shorter than the input |
| Nvds.ReadEntry | nvdsparser.py:41-48 | fewer than four bytes is a failed unpack; the loop stops exactly at a header with key and marker both 0xFF, so key 0xFF with marker 6 is an ordinary entry; any other marker than 6 fails with that marker |
| Nvds.ParseCons | nvdsparser.py:40-56 | an area whose first header reads an entry parses to that entry followed by what the rest parses to |
| Nvds.Loads | nvdsparser.py:33-36 | input whose first four bytes are not "NVDS" fails with a missing signature; otherwise the dictionary is built from the parsed entries |
| Nvds.ToMap | nvdsparser.py:56 | every parsed key is in the dictionary, and every key maps to the value of some entry with that key |
| Nvds.LaterEntryWins | nvdsparser.py:56 | an entry no later entry overrides keeps its value in the dictionary: on duplicate keys the last one wins |
| Nvds.DistinctKeysKept | nvdsparser.py:56 | with distinct keys, the dictionary holds every entry's own value |
| Nvds.EmptyBlock | nvdsparser.py:33-45 | "NVDS" followed at once by FF FF and two more bytes loads as the empty dictionary; with fewer bytes the header unpack fails |
| Nvds.EncodeEntry | nvdsparser.py:66-72 | an entry encodes exactly when its value is shorter than 65536 bytes, to `Next(len)` bytes; otherwise the `struct.pack` fails with the length |
| Nvds.EncodeEntryLayout | nvdsparser.py:66-72 | the bytes written for one entry are key, 6, the length as LE16, the value, then 0xFF padding to a multiple of 4 |
| Nvds.EncodedFields | nvdsparser.py:41-54 | read back, the encoded entry's fields sit where `loads` looks for them, whatever follows |
| Nvds.ReadEncodedEntry | nvdsparser.py:41-54 | one `loads` turn on an encoded entry returns that entry and exactly the bytes after it |
| Nvds.EncodeEntries | nvdsparser.py:66-72 | the entries encode exactly when every value fits the 16-bit size, to `EncodedSize(es)` bytes |
| Nvds.EncodeCons | nvdsparser.py:66-72 | the entry area is the first entry's encoding followed by the rest's |
| Nvds.Dumps | nvdsparser.py:60-76 | the block is written exactly when the values fit their size field; it is 4096 bytes when the encoding fits and the bare encoding, with no error, when it does not |
| Nvds.DumpsSplit | nvdsparser.py:64-76 | the block starts with "NVDS", then holds the entry area, then the 0xFF fill up to 4096 bytes |
| Nvds.ParseEncoded | nvdsparser.py:40-56 | an encoded area followed by at least the FF FF of a sentinel parses back to the same entries, in order |
| Nvds.ParseEncodedShort | nvdsparser.py:41 | an encoded area followed by fewer than four bytes runs off the end: the header unpack fails |
| Nvds.RoundTrip | nvdsparser.py:28-76 | `loads` of `dumps(es)` gives back `es` in order exactly when the block has room for the 4-byte sentinel; otherwise it fails with a short header |
| Nvds.LoadsDumps | nvdsparser.py:28-76 | the dictionary `loads(dumps(es))` returns is the dictionary of `es` when the encoding leaves room for the sentinel |
| Nvds.CanonicalEntryBytes | nvdsparser.py:61-72 | an entry whose padding is all 0xFF is byte for byte what `dumps` writes for it |
| Nvds.CanonicalReencodes | nvdsparser.py:61-62 | a canonical area is the encoding of the entries it parses to, followed by 0xFF |
| Nvds.EncodedIsCanonical | nvdsparser.py:64-76 | what `dumps` writes, followed by 0xFF with room for the sentinel, is canonical |
| Nvds.BlockRoundTrip | nvdsparser.py:61-62 | dumping the entry list a block parses to, in the block's order, gives the block back exactly for the 4096-byte blocks that parse and whose padding, sentinel size and tail are all 0xFF |
| Nvds.Describe | nvdsparser.py:78-80 | keys 1..19 get their registry label and every other key gets "Unknown" |
| Transport.Read | qntool.py:134 | `ser.read(n)` returns at most `n` bytes, those at the head of the line; it returns fewer only at a timeout, which is used up, or at the end of the input |
| Transport.ReadWire | qntool.py:134 | reading `n` bytes that are on the line returns them and leaves what follows |
| Transport.ReceiveByte | qntool.py:106 | `ser.read(1)` returns the next byte, or nothing at a timeout or at the end of the input; it consumes one element |
| Transport.ReceiveOne | qntool.py:106 | reading one byte is the general `ser.read(n)` with `n = 1` |
| Frame.BuildPacket | qntool.py:94-98 | `build_packet` fails exactly when the command does not fit a signed byte or the payload a 16-bit length; otherwise the frame is `0x71`, cmd, len LE16, 0x00, payload, CRC LE16, `len + 7` bytes, with the CRC over bytes 1 to 4 + len, and the device decodes it back to the packet |
| Frame.UnframeEncode | qntool.py:94-98 | a frame decodes to a packet exactly when it is that packet's encoding |
| Frame.BaudFrame | nvdstool.py:74 | the baud command with `2C 08 00 00` is the frame `71 34 04 00 00 2C 08 00 00 AA 59` |
| Session.SendCommand | qntool.py:100-103 | the frame is written exactly when `build_packet` succeeds, and then the device sees exactly that packet; otherwise nothing is written |
| Session.PacketsAppend | qntool.py:100-103 | the device's view of two logs in a row is its views of each, in order |
| Session.PacketsOfSyncs | qntool.py:60 | the 0x33 writes of the sync loop never look like a command to the device |
| Session.SyncRun | qntool.py:58-70 | the sync loop makes at least one pass, and fails only with `Timeout` (the deadline) or `Silent` (a line that has ended) |
| Session.SyncLoop | qntool.py:58-70 | the loop writes one 0x33 per pass and nothing else, at least one, and consumes a prefix of the line; it fails only by an unexpected byte, the deadline or a silent line |
| Session.SyncRunAnswer | qntool.py:59-65 | the loop ends on the first byte after the gaps before it |
| Session.SyncLoopAnswer | qntool.py:58-67 | after `n` passes ending on a byte, the line consumed is `n - 1` gaps and then that byte; the loop succeeds exactly when it is 0x01 and otherwise fails with that byte |
| Session.SyncRunTimeout | qntool.py:69-70 | the deadline fails the loop only when it is enabled, after `limit + 1` empty reads, all of them gaps |
| Session.SyncRunSilent | qntool.py:57-70 | without a deadline the loop goes silent only on a line of gaps that has ended |
| Session.SyncAnswered | qntool.py:58-65 | `k` gaps within the deadline and then a byte `b`: `k + 1` syncs are written and the loop ends on `b`, with success exactly for 0x01 |
| Session.SyncTimesOut | qntool.py:67-70 | a line of gaps and then nothing fails the loop by the deadline after exactly `limit + 1` syncs |
| Session.SyncGoesSilent | qntool.py:57-70 | a line of gaps that ends, without a deadline, fails as silent after one sync per element and one more |
| QnTool.FloorDiv | qntool.py:89-91 | Python 2 integer `/`: the quotient rounded towards minus infinity, for either sign of divisor |
| QnTool.CalcDiv | qntool.py:87-92 | `calc_div` fails only for a zero baud rate |
| QnTool.DivisorRegister | qntool.py:74 | the register packs exactly when `calc_div` gives a value below 2^32, into four bytes that unpack to it |
| QnTool.CalcDivFields | qntool.py:89-92 | for a positive baud rate the upper bits are the floor quotient `clock / (16 * baud)`, and the low byte is the fraction, 0..64, within half a step of the remainder in 64ths |
| QnTool.RoundedFraction | qntool.py:91 | the rounded fraction of a remainder below the divisor is at most 64 |
| QnTool.DefaultDivisor | qntool.py:74-77 | on 16 MHz at 115200 baud the register is 0x082C, packed `2C 08 00 00`, the literal in the source's comment |
| QnTool.ReadFrame | qntool.py:126-141 | a full reply is accepted only after the start byte 0x71, and only as a payload |
| QnTool.ReadPacket | qntool.py:105-141 | it fails unless the first element is the byte 0x01; with `only_confirm` it consumes exactly that byte; otherwise it fails without a start byte, returns 0x03 or 0x04 after exactly two bytes, and fails on any other start byte than 0x71 |
| QnTool.ReadFrameWire | qntool.py:126-139 | a header, payload and checksum on the line are read in order and consumed exactly |
| QnTool.FrameChecksum | qntool.py:126-139 | a complete reply is accepted exactly when its last two bytes are the CRC over header and payload; either way it is consumed and nothing more |
| QnTool.ReadPacketRoundTrip | qntool.py:105-141 | `read_packet()` on 0x01 and a `build_packet` frame returns the frame's payload and leaves the rest of the line |
| QnTool.Call | qntool.py:100-111 | a command whose fields fit is written as exactly one packet the device sees; one that does not fit writes nothing and fails; only a confirm-only call returns nothing |
| QnTool.CallWord | qntool.py:190-192 | a word argument outside 0..2^32-1 fails before anything is written; otherwise the device sees the command with the word packed `<L` |
| QnTool.SetProgramAddress | qntool.py:190-192 | the device sees command 0x3b with the address as `<L`, confirm only |
| QnTool.SectorErase | qntool.py:194-196 | the device sees command 0x42 with the sector count as `<L`, and a reply is read |
| QnTool.SetLoadTarget | qntool.py:169-172 | the device sees command 0x39 with the target as `<L`, confirm only |
| QnTool.Program | qntool.py:186-188 | a chunk below 64 KiB is sent as command 0x45; a longer one fails before anything is written |
| QnTool.Reboot | qntool.py:165-167 | the device sees command 0x4a with no payload, confirm only |
| QnTool.GetBootloaderVersion | qntool.py:174-176 | the device sees command 0x36 with no payload, and a reply is read |
| QnTool.GetChipId | qntool.py:178-180 | the device sees command 0x37 with no payload, and a reply is read |
| QnTool.GetFlashId | qntool.py:182-184 | the device sees command 0x38 with no payload, and a reply is read |
| QnTool.ValidateNvds | qntool.py:158-163 | a block passes exactly when it starts with "NVDS" and is 4096 bytes long; the signature is checked first |
| QnTool.DumpsValidates | qntool.py:158-163 | a block `dumps` writes from entries that fit passes `validate_nvds` |
| QnTool.Chunks | qntool.py:253-255 | the chunks number `ceil(len / 256)`, each holds 1 to 256 bytes, and joined they give back the data |
| QnTool.ChunkAt | qntool.py:253-255 | chunk `i` is `data[256 i : 256 i + 256]`, cut short by the end of the data |
| QnTool.ValidBlockChunks | qntool.py:253-255 | a block that passes `validate_nvds` is programmed as exactly 16 full 256-byte chunks, in order |
| QnTool.Programs | qntool.py:253-255 | one program command per chunk, in the chunks' order |
| QnTool.ProgramAll | qntool.py:253-255 | the program loop sends one 0x45 packet per chunk, in order |
| QnTool.Repeat | qntool.py:147-149 | `n` rounds of one command send `n` copies of its packet |
| QnTool.Collect | qntool.py:149 | a payload reply is appended to what was read; any other reply cannot be appended and fails |
| QnTool.ReadPages | qntool.py:147-149 | the page loop sends `n` page requests `46` with `00 01 00 00` |
| QnTool.ReadNvds | qntool.py:143-156 | reading the block sends the address 0 and then exactly 16 page requests |
| QnTool.Erase | qntool.py:248-250 | the erase sends the address, then the sector count |
| QnTool.ProgramFrom | qntool.py:252-255 | the address is set, then each chunk is programmed in order |
| QnTool.WriteNvds | qntool.py:236-257 | a block that fails validation is refused, with nothing written, unless forced; otherwise the device sees address 0, erase of 1 sector, address 0, and one program command per 256-byte chunk |
| QnTool.Unknowns | qntool.py:270-275 | the two undocumented commands 0x4c and 0x4d are sent with their fixed payloads |
| QnTool.PrepareUpload | qntool.py:262-275 | the upload starts with address 0x1000, erase of 15 sectors, address 0x1100, then 0x4c and 0x4d |
| QnTool.ProgramImage | qntool.py:259-279 | the upload sends the preparation and then the image in 256-byte chunks, in order |
| QnTool.SwitchBaud | qntool.py:76-85 | the baud switch writes the 0x34 frame, reopens at the new rate, and writes the byte-identical frame again |
| QnTool.AfterSync | qntool.py:74-85 | after the sync, the handshake succeeds only when the divisor packs, and then writes the identical 0x34 frames around the reopening |
| QnTool.Connect | qntool.py:48-85 | a handshake succeeds only when the divisor register packs |
| QnTool.ConnectSends | qntool.py:48-85 | a successful handshake writes, in order, the reopening at 9600 baud, one or more 0x33, the 0x34 frame, the reopening at the working rate and the same frame again |
| QnToolMain.RunJob | qntool.py:231-279 | only a read has something to save, and a refused write fails at once with the validation fault |
| QnToolMain.Run | qntool.py:228-281 | a failed handshake fails the run with nothing more sent, and only a read returns data |
| ReadBack.AnswersLast | qntool.py:147-149 | the answer to the last request sits between the earlier answers and the rest of the line |
| ReadBack.CallAnswered | qntool.py:105-141 | a command answered with a well-formed frame returns the frame's payload and consumes exactly its bytes |
| ReadBack.RepeatAnswered | qntool.py:147-149 | `n` rounds of a command, each answered with a payload frame, read back the payloads joined in order and nothing more |
| ReadBack.ReadPagesAnswered | qntool.py:147-149 | page requests each answered with a payload frame read back the pages joined in order |
| ReadBack.ReadNvdsAnswered | qntool.py:143-156 | a device that confirms the address and answers the 16 page requests with payload frames gives the pages joined in order, whatever they hold: an invalid block is still returned |
| NvdsTool.ReadPacket | nvdstool.py:96-118 | it fails unless the first element is the byte 0x01; it returns no data exactly when the 0x01 is followed by a timeout or by the end of the line, and that timeout is used up |
| NvdsTool.ConfirmOnly | nvdstool.py:101-105 | 0x01 followed by silence returns no data and consumes the silence |
| NvdsTool.HeaderCutShort | nvdstool.py:101-107 | a header of one to four bytes followed by silence fails the unpack |
| NvdsTool.WrongStart | nvdstool.py:101-110 | a full five-byte header whose first byte is not 0x71 fails, naming the byte found, and nothing past the header is read |
| NvdsTool.GapAfterWire | nvdstool.py:101 | reading more bytes than arrive before a timeout returns those bytes and uses up the timeout |
| NvdsTool.FrameChecksum | nvdstool.py:107-116 | a complete reply is accepted exactly when its last two bytes are the CRC over the header after the start byte and the payload; either way it is consumed and nothing more |
| NvdsTool.ReadPacketRoundTrip | nvdstool.py:96-118 | `read_packet()` on 0x01 and a `build_packet` frame returns the payload and leaves the rest of the line |
| NvdsTool.FiveByteHeader | nvdstool.py:101-114 | a frame splits into the five bytes this decoder reads as header, the payload, and the CRC over the last four header bytes and the payload |
| NvdsTool.Call | nvdstool.py:91-94 | a command whose fields fit is written as exactly one packet the device sees; one that does not fit writes nothing and fails |
| NvdsTool.ReadPages | nvdstool.py:125-127 | the page loop sends `n` page requests `46` with `00 01 00 00` |
| NvdsTool.ReadNvds | nvdstool.py:120-132 | reading the block sends 0x3b with four zero bytes and then exactly 16 page requests |
| NvdsTool.PagesStep | nvdstool.py:125-127 | one more answered page request appends its page to what was read |
| NvdsTool.ReadPagesAnswered | nvdstool.py:125-127 | page requests each answered with a payload frame read back the pages joined in order and nothing more |
| NvdsTool.CallAnswered | nvdstool.py:126-127 | a page request answered with a payload frame returns that payload and consumes exactly its bytes |
| NvdsTool.ReadNvdsAnswered | nvdstool.py:120-132 | a device that only confirms the address and then answers the 16 requests with payload frames gives the pages joined in order |
| NvdsTool.FixedDivisorIsDefault | nvdstool.py:74 | the hard-coded `2C 08 00 00` is the register the programming client computes for 16 MHz at 115200 baud |
| NvdsTool.SwitchBaud | nvdstool.py:74-83 | the baud switch writes the 0x34 frame, reopens at the new rate, and writes the byte-identical frame again |
| NvdsTool.AfterSync | nvdstool.py:72-83 | after the sync, one more 0x33, then the two identical 0x34 frames with `2C 08 00 00` around the reopening |
| NvdsTool.ConnectSends | nvdstool.py:46-83 | a successful handshake writes, in order, the reopening at 9600 baud, one or more 0x33, the extra 0x33, the fixed 0x34 frame, the reopening at the working rate and the same frame again |
| NvdsTool.HandshakePackets | nvdstool.py:46-83 | of everything the handshake writes, the device decodes only the two copies of the baud command: the reopenings, the 0x33 syncs and the extra 0x33 carry no packet |
| NvdsTool.NoFrame | nvdstool.py:58 | a write that is not a well-formed frame, such as a lone 0x33, adds nothing to what the device decodes |
| NvdsTool.SendFrame | nvdstool.py:91-94 | writing a well-formed frame adds exactly the packet it carries to what the device decodes |
| NvdsTool.ConnectPackets | nvdstool.py:46-83 | after a successful `connect()` the device has decoded `34 2C 08 00 00` twice and nothing else |
| NvdsTool.Run | nvdstool.py:150-159 | a failed handshake fails the run with its fault, and the write mode never succeeds: it raises after connecting |
| NvdsTool.RunSends | nvdstool.py:150-155 | a successful read run makes the device decode the two baud commands, the program address 0 and the 16 page requests, in that order and nothing else |

## Left out

- The serial port itself is left out: opening, closing, flushing, and the timeouts set on the port. A read timeout is a `Gap` in the input, and reopening at a rate is one `Open` event in the log.
- The wall-clock deadline of the sync loop is left out. It is counted in empty reads, `limit`, instead of seconds.
- Session.SyncRun: when the deadline is disabled and the line has ended, the source loops forever. The model stops with the fault `Silent` instead.
- The `crc16` package is a foreign library. It is replaced by a definition of CRC-16/XMODEM, checked against its published check value.
- Logging and `argparse` are left out. The command line's choices are parameters: the job, the clock in MHz, the rate and `force`.
- Reading and writing files is left out. The block or image is a parameter, and the read data is the result.
- The floating-point progress percentages are left out.
- The meaning of commands 0x4c and 0x4d is unknown. Their payloads are opaque constants.
- Python 2 `str` quirks are left out. Data is bytes, and `describe` returns the label instead of a 1-tuple.
- In nvdstool.py, `--baudrate` has no `type=int`. The model takes the rate as an integer.
- The builtin `exit(1)` for a refused write is a `Failed` result carrying the validation fault.
- Nvds.ParseEntries carries no contract of its own. Its behaviour is stated through `ReadEntry`, `ParseCons`, `ParseEncoded` and `RoundTrip`. That the parsed values are never longer than their declared sizes is stated only per entry, by `TakeEntry`.
- Nvds.Dumps: nvdsparser.py takes a dictionary and iterates it in the dictionary's order. The model takes a sequence of entries, so the order is a parameter and repeated keys are possible. A key is a byte, so the `struct.error` that nvdsparser.py raises for a key outside 0..255 is not modelled.
- Nvds.BlockRoundTrip: the round trip is stated for the entry list a block parses to, not for the dictionary `loads` returns. For a canonical block that repeats a key, `loads` keeps only the later value, and dumping that dictionary does not give the block back. Even with distinct keys, `dumps(loads(block)) == block` also needs the dictionary to iterate in the block's order, which Python 2 does not promise.
- The error-detecting strength of CRC-16/XMODEM is not proved. For example, it is not proved that flipping one bit of a frame's payload always fails the checksum. Only the standard check value 0x31C3 anchors the definition. A flip in the length field changes how many bytes are read, so such a property could not cover every header byte.
- Nvds.LoadEntries carries no contract of its own. `Loads` and `RoundTrip` state what it returns.
- NvdsTool.Connect carries no contract of its own. `NvdsTool.ConnectSends` states its log.
- QnToolMain.Run: that the reboot is the last command sent after a successful job is not proved. The contract states only the failed handshake and the saved data.
- NvdsTool.Run: nvdstool.py writes the block read to a file. The model returns it.
