# JoySerTrans file transfer, modelled in Dafny

JoySerTrans moves a file from a PC to an MSX computer over a serial cable
plugged into one of the MSX joystick ports. Two programs take part:

- `Sender` (.NET) sends the file.
  - It checks that the name is an MS-DOS 8.3 name.
  - It sends a 19-byte header:
    - a 13-byte name field holding the ASCII name and a terminating 0;
    - the low 32 bits of the file size, little-endian;
    - a 16-bit checksum of the first 17 bytes, low byte first.
  - It then sends the file in chunks of at most 1024 bytes, each followed by its 2-byte checksum.
  - After every frame it reads the peer's answer:
    - 0 accepts the frame;
    - 1 asks for the frame again, and sending stops after six sends;
    - any other value aborts.
- `jget` (MSX-DOS 2, C and Z80 assembly) receives the file.
  - It checks the header's CRC, creates the output file (unless one was named on the command line), and only then accepts the header.
  - It then receives the chunks, checking each against its CRC, and writes those that pass.
  - It answers every frame with a 4-byte acknowledgement: one status byte repeated four times.
  - Every serial transfer runs with the turbo R processor switched to Z80 mode. The captured mode is restored afterwards and again when the program terminates.

The project is nine modules, one per file:

| module | file | what it holds |
|---|---|---|
| `Wrappers` | wrappers.dfy | `Option` and `Result` |
| `Bytes` | bytes.dfy | little-endian encodings of 16- and 32-bit values and their round trips |
| `Protocol` | protocol.dfy | the shared constants and the chunking rule |
| `Catalogue` | catalogue.dfy | the bytes "123456789" against which CRC check values are quoted |
| `Xmodem` | xmodem.dfy | the receiver's `crc16`: CRC-16/XMODEM, as a function and as the Z80 register algorithm |
| `X25` | x25.dfy | the sender's `CalculateCrc`: the reflected CRC with seed 0xFFFF, complemented and byte-swapped |
| `Receiver` | receiver.dfy | `jget`'s `main` and the routines it calls, as a state machine over a `Session` |
| `Sender` | sender.dfy | `Send`, `SendCore`, `sendData` and the name and header encoders |
| `Link` | link.dfy | the two sides side by side: what one sends against what the other accepts |

## How the outside world is modelled

**Receiver.** The receiver's surroundings are scripts in an `Env`.
- `rx` holds one result per serial receive call: a status and the bytes that arrived.
  - The bytes are cut or zero-padded to the length asked for.
  - An exhausted script answers status 1 ("RTS line timeout"), as a silent line would.
- `tx` holds one status per 4-byte send. An exhausted script answers success.
- `writes` holds one DOS answer per `WriteToFile`: an error code and, for a failed write, how many bytes reached the disk anyway. An exhausted script answers success.
- The outcome of opening the command-line path and of creating the header's file is given as a handle or a DOS error.
- `dos2` says whether MSX-DOS 2 is running, and `cpu` the processor mode the machine starts in.

What the program does is recorded in an event trace. Every serial event records the processor mode in force. The file is a byte log. A successful write appends the whole chunk; a failed one appends at most a prefix of it.

**Sender.** The sender's surroundings are parameters:
- the file's contents;
- whether the file and the port open;
- the peer's answers, one per `ReadByte`. An exhausted script is a read that times out.

Exceptions are `Result` failures. The `HeaderSent` and `DataSent` events, like the file and port openings and closings, are entries in a trace.

Points where the code's behaviour is easy to misread:
- `crc16` with a count of 0 would run over 65536 bytes instead of returning its seed, so every call passes at least one byte.
- A header rejected after a file was opened from the command line exits with 5 and leaves that file open.
- The 13-byte name field is padded with zeros.
- The two programs use different CRCs (see "## Findings").
- A failed write exits with 0 when its error code goes out (see "## Findings"). `Receiver.WriteFailedAsWritten` and `Receiver.StoreChunkAsWritten` model that exit. `StoreChunk`, and every member built on it, uses the corrected exit `Receiver.WriteFailed` instead.

## Model

| member | source | states |
|---|---|---|
| Protocol.ChunkSize | msx/jget.c:133 | the next chunk is `min(remaining, 1024)`: at most 1024 and at most `remaining`, positive whenever something is owed, equal to `remaining` up to 1024 and to 1024 above |
| Protocol.ChunkPlanCoversSize | msx/jget.c:133-157 | the chunk sizes of a transfer add up to the file size; there are ceil(size/1024) of them; each is 1..1024; all but the last are full |
| Protocol.ChunkPlanOf2500 | msx/jget.c:155-156 | a 2500-byte file travels as chunks of 1024, 1024 and 452 bytes |
| Protocol.ChunksRoundTrip | dotNet/JoySerTrans/Sender.cs:111-121 | the chunks the sender reads, concatenated in order, give back the file, and their sizes follow the receiver's chunk plan |
| Bytes.Le16RoundTrip | dotNet/JoySerTrans/Sender.cs:103-104 | a CRC stored low byte first and read back as the receiver reads it is the same value |
| Bytes.LeBytesRoundTrip | dotNet/JoySerTrans/Sender.cs:99-100 | reading back `count` little-endian bytes of `n` gives `n mod 256^count`: a wider value is truncated, never garbled |
| Bytes.Le32 | dotNet/JoySerTrans/Sender.cs:99-100 | the size field is four bytes whose little-endian value is the length modulo 2^32 |
| Bytes.ReadLe32 | msx/jget.c:54-58 | the size the receiver reads from the header is below 2^32 |
| Xmodem.RotateStepShifts | msx/jget.c:277-289 | one pass of `rotlp` on the registers A and E (`SLA E`, `ADC A,A`, XOR 0x21 and 0x10 on carry) is one bit of the MSB-first shift register with polynomial 0x1021 |
| Xmodem.XorIntoHigh | msx/jget.c:274 | `XOR D` with the fetched byte XORs the byte into the high half of the CRC |
| Xmodem.RotateByte | msx/jget.c:275-290 | the eight passes of `rotlp` shift the CRC by eight bits |
| Xmodem.Crc16 | msx/jget.c:257-302 | given 1 to 65535 bytes, the routine returns CRC-16/XMODEM (seed 0, polynomial 0x1021, no final XOR) of exactly the first `length` bytes; a count of 0 is excluded because the count is decremented after a byte is processed |
| Xmodem.CheckValue | msx/jget.c:259-261 | the routine's CRC of "123456789" is 0x31C3, the catalogue check value of CRC-16/XMODEM |
| X25.StepBit32Agrees | dotNet/JoySerTrans/Sender.cs:149-157 | one pass of the inner loop on the `uint` register keeps it below 2^16 and acts as one step of the reflected 16-bit register with polynomial 0x8408 |
| X25.FinishAgrees | dotNet/JoySerTrans/Sender.cs:160-164 | the complement, the shift and the `ushort` cast at the end give the complemented register with its two bytes swapped |
| X25.ShiftByte | dotNet/JoySerTrans/Sender.cs:149-157 | the inner loop feeds one byte, least significant bit first |
| X25.FeedBytes | dotNet/JoySerTrans/Sender.cs:141-158 | the `do ... while` loop over `length >= 1` bytes leaves the register of the seed 0xFFFF fed with exactly those bytes |
| X25.CalculateCrc | dotNet/JoySerTrans/Sender.cs:134-165 | the result is the byte-swapped complement of the register over the first `length` bytes, and 0 for length 0 |
| X25.CheckValue | dotNet/JoySerTrans/Sender.cs:134-165 | over "123456789" the complemented register is 0x906E, the catalogue check value of CRC-16/X-25, and `CalculateCrc` returns it byte-swapped as 0x6E90 |
| Receiver.Ack | msx/jget.c:219-223 | an acknowledgement is a 4-byte block whose every byte is the status |
| Receiver.ToZ80 | msx/jget.c:215-217 | before a transfer the processor is in Z80 mode when the captured mode is not Z80, or when the processor is already in the captured mode; only the mode and the trace change |
| Receiver.RestoreCpu | msx/jget.c:225-227 | after a transfer the captured mode is back when it is not Z80; with Z80 captured nothing is switched |
| Receiver.Terminate | msx/jget.c:185-195 | the trace grows by exactly these events, in this order: the switch back to the captured mode (only when it is not Z80), the closing of the open handle itself (only when it is nonzero), and the exit with the given code; it creates, writes and acknowledges nothing |
| Receiver.SerialReceive | msx/jget.c:304-317 | the status goes to `result` and the arriving bytes fill the buffer. The trace grows by exactly the switch to Z80 (when the processor was not already in it), the receive event, and the switch back; the captured mode is kept afterwards. No file event and no acknowledgement |
| Receiver.ProcessReceiveError | msx/jget.c:237-255 | execution goes on exactly when the status is 0, with nothing changed; statuses 1, 2 and 3 terminate with that code; any other status terminates with 4 |
| Receiver.SerialSendByte | msx/jget.c:213-235 | the trace grows by the switch to Z80, the four-byte block, and the switch back, then by `Terminate(5)`'s events if the send fails; execution goes on exactly when the send status is 0, which then sits in `result`; the block overwrites the first four bytes of `BUFFER`; a chunk's 0 keeps "every acceptance after the header's follows a successful write" only when the last event before it is such a write; the trace keeps every serial transfer in Z80 mode and every 0 after a file opening, provided a 0 is sent only once a file is open |
| Receiver.WriteToFile | msx/files.c:73-87 | one `Wrote` event is recorded; the DOS error code of the write goes to `result`; when it is 0 the file grows by all the data; otherwise it grows by the prefix DOS managed to store, and never beyond the data |
| Receiver.CreateFile | msx/files.c:4-23 | execution goes on with the new handle exactly when creation succeeds, counting one creation; a DOS error terminates with that error |
| Receiver.CreateFileAndGetPath | msx/files.c:27-70 | execution goes on with the handle of the command-line file exactly when it opens; a DOS error terminates with that error; no creation is counted |
| Receiver.WriteFailedAsWritten | msx/jget.c:146-150 | as written: after a failed write the DOS error goes out as the acknowledgement, but the program then exits with 0 whenever that send succeeded |
| Receiver.StoreChunkAsWritten | msx/jget.c:146-156 | as written: when the write fails and its error goes out, the program exits with 0 while `remaining` is unchanged and the file holds at most a prefix of the chunk; a pass that goes on stores the whole chunk and lowers `remaining` by it |
| Receiver.WriteFailed | msx/jget.c:146-150 | after a failed write the error code goes out as the acknowledgement and the program terminates with that same code (5 if the send fails); the file is unchanged |
| Receiver.ChunkStep | msx/jget.c:135-156 | one pass of the loop. A frame failing its CRC is answered with 1 and leaves `remaining`, `chunkSize` and the file unchanged; the trace grows by exactly the receive and the 1 block, each between its processor switches, with no write and no 0. A passing frame is written, answered with 0, and `remaining` drops by `chunkSize`; the trace grows by exactly the receive, the chunk's successful write, then the 0 block. Every 0 sent comes right after a successful write. Any halt has a nonzero code and grows the file by at most a prefix of a passing frame's chunk. With a good receive and every send and write succeeding, the loop goes on |
| Receiver.ReceiveFrame | msx/jget.c:135-136 | a receive error ends the program with a nonzero code and the file unchanged; otherwise only the buffer (the frame), the processor mode, the receive script and the trace (exactly the receive between its processor switches) change |
| Receiver.StoreChunk | msx/jget.c:146-156 | once a frame passes: on success the trace grows by the chunk's successful write and then the 0 block between its processor switches, in that order; the file grows by the chunk, `remaining` drops by the chunk size and the next chunk size follows the chunking rule; a halt leaves the file grown by at most a prefix of the chunk, and carries a nonzero code (the corrected write-failure exit) |
| Receiver.StepAccounting | msx/jget.c:134-157 | one pass keeps `file + Accepted(rx, remaining)` and `|file| + remaining` invariant, and keeps a line that delivers everything delivering |
| Receiver.ChunkLoop | msx/jget.c:134-157 | when the loop completes, `remaining` is 0 and the file holds exactly the frames that passed, in order, which are as many bytes as were owed; an early stop has a nonzero code and leaves a prefix of them; every chunk's 0 follows that chunk's successful write; a line that delivers everything, with every send and write succeeding, makes the loop complete; a size of 0 runs no pass |
| Receiver.SelectConfig | msx/jget.c:85-100 | speed "4" selects the 57600 bps routines, any other first character `c` the slow routines with index `c - '0'` (wrapping as a byte); port "2" selects port 2 |
| Receiver.SlowSpeedDigits | msx/jget.c:88-91 | the digits 0 to 3 select the slow speed index 0 to 3 |
| Receiver.ParseHeader | msx/jget.c:54-58 | the header struct is a 13-byte name field, a size below 2^32 and the CRC |
| Receiver.RejectHeader | msx/jget.c:114-118 | a bad header is answered with 2 and `main` returns 5. Nothing is created or written and no 0 is sent. When the answer goes out, `Terminate` is not called, so nothing is closed |
| Receiver.AcceptHeader | msx/jget.c:125-133 | called before anything has been accepted, as `main` does. A good header sets `remaining` to its size. The file is created unless one is open, and only then is the header answered with 0. A failed creation halts with a nonzero code. The loop starts with the chunk size of the full size |
| Receiver.HeaderGate | msx/jget.c:110-133 | called before anything has been accepted, as `main` does. Execution goes on only with a good receive and a header whose CRC over the first 17 bytes matches its CRC field. A mismatch halts with 5 after answering 2, creating nothing and sending no 0 |
| Receiver.Setup | msx/jget.c:85-107 | nothing goes over the line; the command-line file opens or the program terminates with the DOS error; the processor mode is captured |
| Receiver.Transfer | msx/jget.c:110-161 | called before anything has been accepted, as `main` does. Every path ends in the captured mode, and every 0 but the header's follows a successful write. A bad header exits with 5 without creating or accepting. Exit code 0 means the file is exactly the data the line delivered, the announced size long. A clean line makes the exit code 0 |
| Receiver.JGet | msx/jget.c:72-162 | `main`: without DOS 2 or with fewer than two arguments it returns 0 doing nothing. Every serial transfer, receives and sends alike, runs in Z80 mode, no 0 goes out before a file is open, and every 0 after the header's comes right after a successful write, processor switches aside. The processor ends in its starting mode. Exit code 0 means the file holds exactly the announced size of delivered data. A clean line with every send and write succeeding ends with 0 |
| Sender.FileNameIsTail | dotNet/JoySerTrans/Sender.cs:43 | `Path.GetFileName` is the longest tail of the path holding no separator |
| Sender.NameSplits | dotNet/JoySerTrans/Sender.cs:44-47 | the file name is its base name followed by its extension (or a lone final dot); an extension is a dot followed by no other dot |
| Sender.DefaultNameIsUpper | dotNet/JoySerTrans/Sender.cs:43 | with no name given, the name has the length of the path's file name; each letter a-z becomes its capital (code minus 32) and every other character is kept |
| Sender.CheckNameMeans83 | dotNet/JoySerTrans/Sender.cs:44-49 | a name without separators passes the check exactly when it is 8.3: at most 8 characters before its last dot (or in all, with no dot) and at most 3 after it |
| Sender.Is83Passes | dotNet/JoySerTrans/Sender.cs:44-49 | every 8.3 name without separators passes the check |
| Sender.CheckedNameIs83 | dotNet/JoySerTrans/Sender.cs:44-49 | a name without separators that passes is 8.3: at most 8 characters before its last dot and 3 after it, so it fits the 13-byte field with its 0 |
| Sender.NameField | dotNet/JoySerTrans/Sender.cs:95-97 | the name field holds the name's ASCII bytes followed by zeros |
| Sender.EncodeHeader | dotNet/JoySerTrans/Sender.cs:95-104 | a name below 19 characters gives a 19-byte header: the name field, the length modulo 2^32 little-endian at 13..16, and `CalculateCrc` of bytes 0..16 low byte first at 17..18; a longer name throws |
| Sender.SendData | dotNet/JoySerTrans/Sender.cs:66-91 | with k leading answers of 1: six or more make the frame go out six times and fail with "Too many CRC errors"; otherwise it goes out k+1 times, and the next answer decides (0 returns, other values fail with that code, none is a timeout). It succeeds exactly when the answers accept the frame: fewer than six 1s in a row, then 0 |
| Sender.FrameChunk | dotNet/JoySerTrans/Sender.cs:115-117 | a frame is the chunk followed by its checksum, low byte first |
| Sender.SendChunks | dotNet/JoySerTrans/Sender.cs:111-121 | on success the frames sent are the chunks of the file in order; each goes out one to six times and is announced once with its size plus 2. On failure the trace is the complete traffic of the chunks before the failing one, then the failing frame's writes, and nothing after them. A peer accepting every frame makes the loop succeed |
| Sender.StalledSplit | dotNet/JoySerTrans/Sender.cs:111-121 | the traffic of a chunk loop that stops at a chunk is the complete traffic of the chunks before it, then the stopping frame's writes |
| Sender.DataTraceAnnounces | dotNet/JoySerTrans/Sender.cs:119-120 | the chunk traffic announces every chunk exactly once, in order, with its size plus 2 |
| Sender.Transmit | dotNet/JoySerTrans/Sender.cs:95-121 | every frame goes out at most six times. A name of 19 or more characters fails before anything is sent. A header the peer does not accept fails with its writes as the whole trace: no announcement, no chunk. An accepted header is announced once before any chunk goes out; then on success every chunk follows, and on failure the chunks up to the failing one, ending with that frame's writes |
| Sender.AfterHeader | dotNet/JoySerTrans/Sender.cs:107-121 | after an accepted header: the trace is the header's writes, `HeaderSent`, then every chunk on success, or the chunks up to the failing one on failure, ending with its writes |
| Sender.Open | dotNet/JoySerTrans/Sender.cs:43-59 | a bad name throws before anything is opened; then the file opens, then the port |
| Sender.SendCore | dotNet/JoySerTrans/Sender.cs:39-122 | a bad name throws before anything is opened. A success traces exactly: file opened, port opened, the header's sends, `HeaderSent`, then each chunk's sends and `DataSent`. Once both are open, a name too long for the header ends the trace with the two openings, a refused header ends it with the header's writes, and a failed chunk loop ends it with the failing frame's writes. A peer accepting everything makes it succeed. Nothing is closed |
| Sender.DeliveryHeaderOnce | dotNet/JoySerTrans/Sender.cs:106-107 | in a successful transfer `HeaderSent` fires exactly once |
| Sender.DeliveryAnnouncements | dotNet/JoySerTrans/Sender.cs:106-121 | in a successful transfer the `DataSent` events announce exactly the chunk sizes plus 2, in file order |
| Sender.CoreOpenings | dotNet/JoySerTrans/Sender.cs:53-59 | the core opens the file at most once and the port at most once, and closes neither |
| Sender.ClosingBalances | dotNet/JoySerTrans/Sender.cs:26-36 | closing the port and then the file, whichever were opened, leaves every opening matched by a closing at the end |
| Sender.SendAsWritten | dotNet/JoySerTrans/Sender.cs:21-37 | as written nothing is ever closed: once the file opens, the trace stays unbalanced |
| Sender.Send | dotNet/JoySerTrans/Sender.cs:21-37 | with the intended cleanup every trace is balanced. A success is exactly the delivery followed by the port and file closings. A refused header is exactly the openings, the header's writes and the closings; a failed chunk loop is the openings, the interrupted transmission and the closings. A peer accepting everything makes it succeed |
| Link.HeaderFieldsRoundTrip | dotNet/JoySerTrans/Sender.cs:95-100 | the receiver reads back the sender's name bytes, the 0 after them, and the length modulo 2^32 |
| Link.SenderFrameVerdict | msx/jget.c:138-139 | a sender frame passes the receiver's check exactly when the two CRCs agree on the chunk |
| Link.SenderHeaderVerdict | msx/jget.c:113-114 | a sender header passes the receiver's gate exactly when the two CRCs agree on its first 17 bytes |
| Link.SenderFrameRejected | dotNet/JoySerTrans/Sender.cs:115-117 | the sender's frame of "123456789" fails the receiver's check |
| Link.XmodemFrameAccepted | msx/jget.c:138-139 | a chunk followed by its CRC-16/XMODEM, low byte first, passes the receiver's check and gives the chunk back |
| Link.XmodemHeaderAccepted | msx/jget.c:113-114 | the sender's header layout with the receiver's CRC passes the gate and gives back the length modulo 2^32 and the name |
| Link.FrameTrafficDelivers | msx/jget.c:134-157 | such frames, in the sender's chunking, deliver the whole file, and the receiver keeps exactly it |
| Link.CleanTransfer | msx/jget.c:72-162 | with the receiver's CRC on every frame and a clean line, `jget` exits with 0 holding exactly the file sent, in the mode it started in |
| Link.AckStreamIndex | msx/jget.c:219-223 | byte i of the receiver's answers on the line repeats answer i / 4 |
| Link.SecondFrameAsWritten | dotNet/JoySerTrans/Sender.cs:74-75 | as written, once the first frame is answered with 0 the second frame counts as accepted at its first send, whatever the receiver answers it |
| Link.BlockRepliesRoundTrip | msx/jget.c:219-223 | taking the first byte of every 4-byte block gives back the receiver's answers in order |
| Link.SecondFrameByBlocks | dotNet/JoySerTrans/Sender.cs:66-91 | read block by block, the second frame is accepted at once only when the receiver answered 0, is sent again on 1, and fails with the receiver's code otherwise |

## Left out

- Console output (`printf`, the title, the usage text, the "." and "!" progress marks, the messages of `Terminate`'s callers) is not modelled; `SerialSendByte`'s `printOnError` only chooses a message and is dropped.
- `IsDos2`, `GetCpu`, `TerminateCore` and the BIOS/DOS bodies of `SetCpu` are state reads and writes: DOS 2 and the starting processor mode are inputs, and termination is an `Exited` event. `SetCpu`'s `and #3` / `or #128` is reflected only as the three processor modes and a turbo-LED flag on the event.
- The serial primitives (`SerialReceive57k/Slow`, `SerialSend57k/Slow`, `SerialSetSpeedSlow`, `SelectPort2...`) are bit-banging with timing; they are the scripted `rx` and `tx` answers and the configuration events.
- `BUFFER` at 0x8000 is a byte sequence; the header struct is read from the received bytes.
- msx/files.c is modelled by the outcome of each call only: `CreateFile` and `CreateFileAndGetPath` give a handle or terminate, `WriteToFile` gives a DOS error code and the count of bytes stored, `CloseFile` is a `Closed` event. How `CreateFileAndGetPath` builds the drive letter and path is not modelled. `ReadFromFile`, `OpenFile` and `FileIsEmpty` are not called by `jget`.
- The two Program.cs files (argument parsing and progress output), .NET `SerialPort`/`FileStream`, the write and read timeouts (a read timeout is an exhausted answer script) and the `#if SIMULATE` branch are not modelled.
- `HeaderSent` and `DataSent` are recorded as trace events; their subscribers are not modelled.
- Sender.FileName: only the two Windows separators are modelled; volume prefixes such as `C:` and .NET's invalid-character checks are not.
- Sender.ToUpper: upper-cases a-z only; culture-dependent and non-ASCII case mapping is not modelled.
- Sender.Ascii: a character is a Unicode scalar value here, so a character outside the Basic Multilingual Plane, two UTF-16 units and one '?' in .NET, counts as one character and one byte.
- Sender.CheckedNameIs83: requires the name to hold no separator; a caller-given name with a directory part is checked on its last component only, as `Path` does, and is not claimed to be 8.3.
- Sender.CheckNameMeans83, Sender.Is83Passes: require the name to hold no separator, for the same reason.
- Sender.SendChunks: `fileStream.Read` is modelled as returning as much as is left of the file, up to 1024 bytes, which is what a `FileStream` on a local file does; short reads are not modelled.
- Sender.EncodeHeader: a name of 13 to 18 characters is stored as written, its tail overwritten by the length and the CRC; the receiver then reads the name without its 0. Names that pass the check are at most 12 characters, so this only arises with separators in a caller-given name.
- Receiver.StoreChunk: uses the corrected write-failure exit `Receiver.WriteFailed`, so its "a halt carries a nonzero code" does not hold of the code as written, which exits with 0 when a failed write's error goes out (msx/jget.c:148-149, `Receiver.StoreChunkAsWritten`).
- Receiver.ChunkStep: built on `Receiver.StoreChunk`; its "any halt has a nonzero code" holds of the corrected write-failure exit only.
- Receiver.ChunkLoop: built on `Receiver.ChunkStep`; its "an early stop has a nonzero code" holds of the corrected write-failure exit only.
- Receiver.Transfer: built on `Receiver.ChunkLoop`; "exit code 0 means the file is complete" holds of the corrected write-failure exit only. As written, a failed write whose error goes out also exits with 0, with the file short.
- Receiver.JGet: built on `Receiver.Transfer`, with the same limit: as written, exit code 0 can also follow a failed write.
- The receive, send and write scripts stand for hardware and DOS; an exhausted receive script is status 1, an exhausted send or write script is success.
- Xmodem.Crc16: the count register BC is 16 bits, so a `length` of 0 is excluded rather than modelled as 65536 bytes; every call in `jget` passes 17 or a positive chunk size.

## Findings

| source | as written | input that shows it | evidently intended | confidence | as-written member | corrected member |
|---|---|---|---|---|---|---|
| msx/jget.c:146-150 | `SerialSendByte(result, ...)` stores its own send status in the global `result`, so the following `Terminate(result)` exits with 0 when the acknowledgement went out | a chunk whose write fails with DOS error 0xC0 (disk full) while the send succeeds: the program exits with 0 | exit with the DOS error that was echoed | high, not executed | Receiver.WriteFailedAsWritten | Receiver.WriteFailed |
| dotNet/JoySerTrans/Sender.cs:21-37, 54, 58 | `SendCore` opens into locals `fileStream` and `port` that shadow the fields, so the `finally` block of `Send` finds both fields null and closes nothing | any call whose name passes the check and whose file opens: the file (and the port) stay open after `Send` returns or throws | the `finally` block closes whatever was opened | high, not executed | Sender.SendAsWritten | Sender.Send |
| dotNet/JoySerTrans/Sender.cs:102-104, 115-117 | the sender checksums frames with the reflected CRC (0x8408, seed 0xFFFF, complemented, byte-swapped) while `jget` checks CRC-16/XMODEM (msx/jget.c:113-114, 138-139) | the chunk "123456789": the sender appends 0x6E90, `jget` computes 0x31C3 and answers 1 | both sides use the same CRC, the receiver's CRC-16/XMODEM | medium, not executed | Link.SenderFrameRejected | Link.XmodemFrameAccepted |
| dotNet/JoySerTrans/Sender.cs:74-75 | `sendData` reads one byte per frame while `jget` answers every frame with four (msx/jget.c:219-223), so the three spare bytes answer the following frames | a header answered 0 and a first chunk answered 1: the sender reads the header block's second byte, 0, and treats the chunk as accepted | one answer per frame, the sender consuming the whole 4-byte block | medium, not executed | Link.SecondFrameAsWritten | Link.SecondFrameByBlocks |
