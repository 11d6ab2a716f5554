# Powerware UPS client: frames, response decoder, descriptor, status strings

A Dafny model of the protocol core of the Powerware UPS client in
`main.c`. The client talks to the UPS over USB with a serial-style framed
protocol:

- **Command frames** `[0xAB, len, payload..., chk]` (`chksum`,
  `sendrdcmd`, `sendwrcmd`). The checksum byte makes the frame's bytes
  sum to zero modulo 256. `validpkt` is the matching test for a received
  frame.
- **The response decoder** `readresp`. It reads frames
  `[0xAB, op, len, seq, payload..., chk]` from a byte stream. It skips to
  the start byte and drops a frame whose opcode is not the echo
  `cmd - 0x30`. It appends each frame's payload at a cursor into the
  caller's buffer that is never reset, so fragments concatenate. A bad
  running checksum fails the whole read. The read stops at the first
  frame whose sequence byte has bit 0x80 set.
- **The descriptor decoder** `init`. It walks a cursor over the answer to
  command 0x31 field by field (with `getu16` for the little-endian 16-bit
  sizes) and accepts only if the cursor lands exactly on the reply's
  length.
- **The status strings** `overallstatus` (an exact-value switch) and
  `topologystr` (the names of the set bits of the topology byte, written
  into a static buffer with `seprint`).

Modules:

- `Bytes`: `uchar`/`ushort`, wrapping sums, `getu16`.
- `Frame`: `chksum`, `sendrdcmd`, `sendwrcmd`, `validpkt`.
- `Response`: the `Biobuf` stream and `readresp`, proved against the
  functional reading `Decode`.
- `ResponseProps`: what `readresp` promises.
- `Descriptor`: the `init` walk as functions (`Parse`), and the `Ups`
  record with `Init` proved against them.
- `DescriptorProps`: an encoder and the round trip through `init`.
- `Status`: `overallstatus` and `topologystr` with its static buffer.
- `Results`: the failure-carrying `Option`/`Result` types.

The C works on a `Biobuf`, a 4096-byte stack buffer and a 1024-byte
static buffer. The model has a `Biobuf` class over a `seq<byte>` with a
read position, `array<byte>` buffers, and a `TopologyBuffer` class that
holds the static `array<char>`. `Bgetc` returning a negative value is the
end of that sequence.

## Model

| member | source | states |
|---|---|---|
| Bytes.GetU16LE16 | main.c:225-234 | `getu16` reads back any 16-bit value stored low byte first, whatever surrounds it |
| Bytes.GetU16 | main.c:225-234 | the two bytes `getu16` reads are exactly the low-byte-first encoding of its result; with `GetU16LE16` this is a round trip |
| Bytes.NegateStep | main.c:43-46 | subtracting one more byte from the `uchar` accumulator negates the longer sum modulo 256 |
| Bytes.NegateUnique | main.c:37-47 | exactly one byte closes a sum to zero modulo 256, so the checksum byte is unique |
| Bytes.ByteSumAppend | main.c:37-47 | the byte sum of a concatenation is the sum of the parts' sums |
| Frame.Chksum | main.c:37-47 | the first `buf[1] + 2` bytes plus the result sum to 0 modulo 256 |
| Frame.SendRdCmd | main.c:56-66 | the frame is exactly `[0xAB, 1, cmd, chk]` and sums to 0 modulo 256 |
| Frame.SendWrCmd | main.c:136-146 | the frame is `cmdlen + 3` bytes `[0xAB, cmdlen, cmd[..cmdlen]..., chk]` summing to 0 modulo 256; the 128-byte local buffer requires `cmdlen <= 125` |
| Frame.ValidPkt | main.c:68-78 | true exactly when the first `5 + pkt[2]` bytes sum to 0 modulo 256 |
| Response.FindStartFirst | main.c:89-95 | the scan stops at the first start byte at or after the position, and finds none only when there is none |
| Response.FindStart | main.c:89-95 | a position it finds is a start byte at or after where the scan began; `FindStartFirst` states it is the first |
| Response.Echoes | main.c:99 | the opcode test `c != cmd - 0x30` in `int`; what it admits is stated by `ResponseProps.StartByteEchoes` and `ResponseProps.NoAnswerBelow0x30` |
| Response.FrameAt | main.c:96-124 | a frame that resynchronises resumes two bytes after its start; an accepted payload fits the room left and lies inside the stream |
| Response.FrameAtAccept | main.c:96-125 | a frame that echoes `cmd`, fits, is complete and sums to zero is accepted with its payload and its last-fragment bit |
| Response.DecodeFrom | main.c:89-125 | one round of the read: resync continues, a fatal frame fails, an accepted frame ends the read or continues with its payload appended |
| Response.Decode | main.c:80-126 | the functional reading of `readresp`, round by round as `DecodeFrom` states; its bounds are `ResponseProps.DecodeBounds`, its reassembly `ResponseProps.Reassembly` |
| Response.Biobuf.Getc | main.c:91 | `Bgetc` gives the next byte and advances, or -1 at the end of the stream without advancing |
| Response.ReadPayload | main.c:110-117 | succeeds exactly when `len` bytes fit before `buflen` and the stream holds them; then stores those stream bytes at `bp`, extends the running sum, and leaves every byte before `bp` and from `bp'` on unchanged |
| Response.ReadFrame | main.c:96-124 | after a start byte: a stray opcode rescans two bytes on; a fatal frame aborts; an accepted frame appends its payload and completes exactly at the last-fragment bit, as `FrameAt` says; nothing before `bp` or from `bp'` on is written |
| Response.SkipToStart | main.c:89-95 | stops just past the first start byte, or at the end of the stream when there is none |
| Response.ReadResp | main.c:80-126 | returns `\|p\| <= buflen` with `buf[..r] == p` when `Decode` gives `p`, and -1 when it fails; on success nothing from `buf[r]` on is written, and in every case nothing at or past `buflen` |
| ResponseProps.DecodeBounds | main.c:87-119 | a successful read keeps what the buffer held, never passes `buflen`, and consumes at least one byte |
| ResponseProps.FindStartSkip | main.c:89-95 | bytes other than 0xAB are skipped |
| ResponseProps.SkipNoise | main.c:89-95 | noise before the start byte does not change the read |
| ResponseProps.MismatchDropped | main.c:96-100 | a start byte followed by a non-echo byte is dropped with that byte, even when it is itself 0xAB, and is not an error |
| ResponseProps.StartByteEchoes | main.c:99 | 0xAB echoes only the request 0xDB, since the echo is `cmd - 0x30` without wrap-around |
| ResponseProps.ForeignFrameAbsorbed | main.c:89-100 | a frame for another opcode with no start byte after its opcode is skipped whole |
| ResponseProps.ForeignFrameBytes | main.c:89-100 | the bytes of such a frame, position by position |
| ResponseProps.NoAnswerBelow0x30 | main.c:99 | for a request opcode below 0x30 every read fails |
| ResponseProps.CorruptFrameFatal | main.c:96-122 | a complete, fitting, echoing frame that does not sum to zero fails the read, whatever follows |
| ResponseProps.ValidPktAgrees | main.c:68-122 | for such a frame, `readresp` accepts exactly when `validpkt` holds, and fails as corrupt exactly when it does not |
| ResponseProps.ResponseFrame | main.c:96-120 | a device frame has `\|p\| + 5` bytes, starts with 0xAB and carries the payload length |
| ResponseProps.ResponseFrameSums | main.c:118-122 | every such frame passes the checksum test |
| ResponseProps.FrameAtResponseFrame | main.c:96-125 | `readresp` accepts such a frame with its payload and last-fragment bit |
| ResponseProps.WellFormedTail | main.c:123-124 | in a well-formed reply only the last fragment carries bit 0x80 |
| ResponseProps.CarriedRound | main.c:110-125 | one accepted fragment either ends the read or continues it with its payload appended |
| ResponseProps.ReassemblyCarried | main.c:110-125 | accepted fragments read back as the in-order concatenation of their payloads, ending after the last |
| ResponseProps.FragmentsSplit | main.c:110-120 | the wire bytes of a reply split into its first frame and the rest |
| ResponseProps.CarriesCons | main.c:110-125 | a response frame followed by accepted fragments is accepted in turn |
| ResponseProps.FragmentsCarried | main.c:110-125 | fragments on the wire whose payloads fit are accepted one after another |
| ResponseProps.Reassembly | main.c:110-125 | a fragmented reply reads back as the in-order concatenation of its payloads after what the buffer held, and the read stops right after the last fragment |
| ResponseProps.FrameContinues | main.c:96-125 | a fitting response frame without the last-fragment bit is accepted and the read goes on right after it with its payload appended |
| ResponseProps.CutFrameFails | main.c:90-120 | a stream that ends inside a response frame fails the read, whether or not its payload would have fitted |
| ResponseProps.CutReplyFails | main.c:87-126 | a stream that, from the reply's start on, holds only a proper prefix of the reply's bytes fails the read |
| ResponseProps.TruncatedReplyFails | main.c:87-126 | a stream cut anywhere before the last fragment of a reply is complete fails the read, so no partial reply is ever returned |
| ResponseProps.OverflowFails | main.c:110-112 | a complete response frame whose payload outgrows the room left in the buffer fails with `ResponseTooLarge` |
| ResponseProps.OverflowReplyFails | main.c:87-126 | a complete reply whose payloads, after what the buffer held, outgrow `buflen` fails with `ResponseTooLarge`, even though every frame arrives |
| ResponseProps.SumRangeShift | main.c:96-120 | a frame's sum does not depend on what precedes it in the stream |
| ResponseProps.FindStartShift | main.c:89-95 | the start-byte scan behind a prefix finds the same byte, moved |
| ResponseProps.FrameAtLocal | main.c:96-124 | a frame depends only on the stream from its start byte on |
| ResponseProps.FrameAtShift | main.c:96-124 | a frame behind a prefix reads the same with its positions moved |
| ResponseProps.ShiftResync | main.c:96-100 | a resynchronising round behind a prefix |
| ResponseProps.ShiftFatal | main.c:96-122 | a failing round behind a prefix |
| ResponseProps.ShiftAccept | main.c:110-125 | an accepting round behind a prefix |
| ResponseProps.DecodeShift | main.c:80-126 | a read depends only on the stream from its position on; a prefix only moves the positions |
| ResponseProps.NoisePrefix | main.c:89-95 | noise without a start byte before a reply gives the same reply, positions moved |
| ResponseProps.FrameAtExtend | main.c:96-124 | a frame that does not fail reads the same with bytes appended |
| ResponseProps.DecodeIgnoresRest | main.c:80-126 | the stream after the last frame of a successful read is never looked at |
| ResponseProps.SumRangeExtend | main.c:96-120 | a frame's sum does not depend on what follows |
| ResponseProps.FindStartPrefix | main.c:89-95 | the first start byte is found again with bytes appended |
| DescriptorProps.U16AtConsumed | main.c:281-321 | the two bytes a successful `getu16` read moves past are the encoding of the value it returns (the converse of `U16Suffix`) |
| DescriptorProps.RatingConsumed | main.c:253-264 | the bytes a rating read moves past are the flag, the rating and the phase bytes as `RatingBytes` lays them out: three with a non-zero flag, the rating byte being the first phase byte, five with a zero flag (the converse of `RatingSuffix`) |
| Descriptor.UntilNul | main.c:266-268 | the id kept is the longest NUL-free prefix of the copied bytes |
| Descriptor.CountedPrefix | main.c:247-289 | a counted skip reads the same over any prefix it stops within |
| Descriptor.U16AtPrefix | main.c:281-321 | a 16-bit read reads the same over any prefix it stops within |
| Descriptor.RatingPrefix | main.c:253-264 | the rating read reads the same over any prefix it stops within |
| Descriptor.IdFieldPrefix | main.c:266-269 | the id read reads the same over any prefix it stops within |
| Descriptor.PlatformPrefix | main.c:247-264 | the CPU list and rating read the same over any prefix they stop within |
| Descriptor.NamesPrefix | main.c:266-279 | the id, maps and alarms read the same over any prefix they stop within |
| Descriptor.TablesPrefix | main.c:281-299 | the configuration, statistics and log sizes read the same over any prefix they stop within |
| Descriptor.BlocksPrefix | main.c:301-321 | the block sizes read the same over any prefix they stop within |
| Descriptor.WalkParts | main.c:247-321 | the four parts of the walk succeed one after the other, at strictly increasing cursors from past the first byte to where the walk stops |
| Descriptor.WalkExtend | main.c:247-321 | a walk that succeeds over a prefix walks the same over the whole buffer |
| Descriptor.WalkPrefix | main.c:247-321 | a walk that stops within a prefix walks the same over that prefix alone |
| Descriptor.Walk | main.c:247-321 | the cursor walk of `init`; `WalkParts`, `WalkStopsWithin` and `WalkFailsTruncated` state where it stops and how it fails |
| Descriptor.Parse | main.c:247-322 | the walk plus `assert(i == n)`; `InitParts`, `WalkBufferIsParse`, `PrefixRejected`, `TrailingBytesRejected` and `DescriptorProps.ParseEncode` state what it accepts |
| Descriptor.WalkBufferIsParse | main.c:243-322 | walking the whole 4096-byte buffer and landing on `n` is exactly parsing the `n`-byte reply, to the same descriptor |
| Descriptor.InitParts | main.c:247-322 | any failing part fails the decode; when all four succeed, it succeeds exactly when the cursor ends at `n`, with the fields the parts read |
| Descriptor.TrailingBytesRejected | main.c:322 | bytes after a descriptor make the final cursor check fail |
| Descriptor.WalkStopsWithin | main.c:318-322 | a successful walk stops within its bytes |
| Descriptor.WalkFailsTruncated | main.c:247-321 | the walk fails only for want of bytes |
| Descriptor.PrefixRejected | main.c:247-322 | every strict prefix of a descriptor fails to decode, for want of bytes |
| Descriptor.ReadPlatform | main.c:247-264 | the cursor steps over the CPU count and rating give what `Platform` says |
| Descriptor.ReadNames | main.c:266-279 | the id, map and alarm reads give what `Names` says |
| Descriptor.ReadTables | main.c:281-299 | the configuration, statistics-map and log reads give what `Tables` says |
| Descriptor.ReadBlocks | main.c:301-321 | the block-size reads, with the skipped byte, give what `Blocks` says |
| Descriptor.Ups.Store | main.c:248-320 | every `Ups` field is assigned from the descriptor |
| Descriptor.Ups.Init | main.c:236-323 | succeeds exactly when the `n`-byte reply parses, and then the `Ups` fields are the parsed descriptor |
| DescriptorProps.RatingBytes | main.c:253-264 | the flag, rating and phase bytes take three bytes with a non-zero flag and five with a zero one |
| DescriptorProps.UntilNulPadded | main.c:266-268 | a NUL-free id followed by padding that starts with NUL reads back as the id |
| DescriptorProps.CountedSuffix | main.c:247-251 | a count and its items read back as the count, the cursor stopping where the rest starts |
| DescriptorProps.RatingSuffix | main.c:253-264 | the encoded rating reads back as the raw rating |
| DescriptorProps.IdSuffix | main.c:266-269 | the encoded id reads back as the id |
| DescriptorProps.U16Suffix | main.c:281-321 | an encoded 16-bit size reads back |
| DescriptorProps.U16Last | main.c:318-322 | the last size reads back and the cursor lands on the end |
| DescriptorProps.StepsParse | main.c:247-322 | fields that read as a descriptor's, each where the last one stopped, and end at the reply's end, parse as that descriptor |
| DescriptorProps.ParseEncode | main.c:247-322 | `init` reads back every descriptor that can be sent, whatever the bytes it skips hold |
| DescriptorProps.WideReplyEncodes | main.c:247-322 | a 39-byte reply with a two-byte rating is the encoding of its descriptor |
| DescriptorProps.WideReplyParses | main.c:247-322 | that reply decodes to 5000 VA, id "TEST", and the sizes it carries |
| DescriptorProps.NarrowReplyEncodes | main.c:253-264 | a reply with a one-byte rating, which is also the first phase byte, is the encoding of its descriptor |
| DescriptorProps.NarrowReplyParses | main.c:247-322 | that reply decodes to 1500 VA and id "UPS", cut at the NUL in the id field |
| DescriptorProps.SampleRepliesRejected | main.c:322 | the wide reply cut by one byte fails for want of bytes; the narrow one with a stray byte after it fails the cursor check |
| Status.OverallStatus | main.c:148-194 | a byte gets a name other than "UNKNOWN" exactly when it is one of the 19 case values: no masking, no ranges |
| Status.StatusRoundTrip | main.c:148-194 | each case value is read back from its name, so no two case values share a name |
| Status.StatusCodeNames | main.c:148-194 | any name that is read back is the name of the byte it gives, and that byte is a case value |
| Status.TopBitsNames | main.c:196-205 | each bit name is 1 to 21 characters with no NUL and no comma |
| Status.TopBitsDistinct | main.c:196-205 | the eight bit names are distinct |
| Status.ListingIsPrefixed | main.c:217-221 | the `seprint` calls write ",name" for each set bit, in bit order |
| Status.FlagsMember | main.c:217-221 | a bit's name is listed exactly when the bit is set |
| Status.FlagsEmpty | main.c:217-221 | no name is listed exactly when the byte is zero |
| Status.PrefixedJoin | main.c:220-222 | dropping the leading comma of ",a,b..." leaves the names joined by commas |
| Status.CStringUntilNul | main.c:222 | the C string over NUL-free text followed by NUL is that text |
| Status.ListingNoNul | main.c:217-221 | the written names contain no NUL |
| Status.TopologyNames | main.c:207-223 | for a non-zero byte the result is the names of the set bits, bit 0 first, comma-joined with no leading comma, whatever the buffer held |
| Status.TopologyZero | main.c:214-222 | for zero only the first character is overwritten and the result is whatever the buffer held after it |
| Status.CStringSuffix | main.c:222 | a C string depends only on the characters from where it starts |
| Status.TopologyBuffer.Seprint | main.c:220 | `seprint(s, e, ",%s", name)` writes as much of the piece as fits before the last character, then NUL, and returns the position of that NUL |
| Status.TopologyBuffer.TopologyStr | main.c:207-223 | the buffer becomes `Written` of the old one; the result is the comma-joined names for a non-zero byte, and the old buffer's C string at position 1 for zero |
| Status.TopologyStrFixed | main.c:207-223 | the buffer is left as `topologystr` leaves it, and the result is the comma-joined names of the set bits for every byte, "" for zero |
| Status.TopologyExample | main.c:196-222 | 0x81 lists "bypass-installed" and "utility-present", in that order |
| Status.StaleTopology | main.c:207-223 | as written, zero after 0x81 still reads the two names the previous call left |
| Status.ZeroOnFreshBuffer | main.c:210-222 | on a still-zeroed buffer zero reads as no names |
| Status.SkipBit | main.c:218-219 | a clear bit writes nothing |
| Status.AppendBit | main.c:220 | the `seprint` of a set bit's ",name" extends the written listing by that name |

## Left out

- `setdesc`/`usbcmd` and the send half of `pwread`: USB transport calls. `SendRdCmd` and `SendWrCmd` return the frame they would hand over.
- `stats` (main.c:325-351), `threadmain` (which has its call of `init` commented out), `usage`, `Bfdopen` and endpoint discovery: device I/O and orchestration. `stats` reads `buf[0]` and `buf[1]` without checking the length it read.
- The `print`, `fprint` and `sysfatal` calls. `Ups.Init` takes the `n`-byte reply as input. A failed `pwread` on entry (`n < 0`, then `sysfatal`) is outside it.
- Threading (`thread.h`, `threadexitsall`): there is no concurrency in the core.
- `mallocz` and `strncpy` in `init`. The id is modelled as the copied bytes before the first NUL, which is the C string `strncpy` leaves in a zero-filled `v + 1`-byte buffer.
- Descriptor.Ups.Init: reads past the end of the buffer are undefined in the C. Here they fail with `Truncated`. Every byte the C reads lies before where the walk stops, so such a read can only happen when the final check `i == n` would fail anyway (`WalkBufferIsParse`).
- Descriptor.Ups.Init: the fields are assigned after the walk rather than between reads. No field is read back during the walk, so the final state is the same.
- Frame.SendWrCmd: requires `cmdlen + 3 <= 128`. The C copies into `buf[128]` without a check, so a larger command writes past the buffer, and no error result exists to model.
- Frame.ValidPkt: requires the packet to hold `5 + pkt[2]` bytes, which the C reads unchecked.

## Findings

| source | as written | input that shows it | evidently intended | confidence | as-written member | corrected member |
|---|---|---|---|---|---|---|
| main.c:207-223 | `topologystr(0)` writes NUL at `buf[0]` only and returns `buf + 1`, the text a previous call left in the static buffer | `topologystr(0x81)` then `topologystr(0)` returns "bypass-installed,utility-present" | an empty string for a zero byte (no bit set) | not executed; latent here, because `stats` calls it once per run on a zeroed buffer (`Status.ZeroOnFreshBuffer`) | Status.StaleTopology | Status.TopologyStrFixed |
