# HaiLuck keyboard flashing, modelled in Dafny

fwupd's HaiLuck plugin updates the firmware of HaiLuck keyboard controllers
over HID feature reports. This project models the keyboard device of that
plugin (`plugins/hailuck/fu-hailuck-kbd-device.c`) and proves what its
operations put on the wire and what they promise about the firmware image.

The model is split into five modules:

- `Frames`: the six-byte short frames on report 0x05 (detach, attach, erase,
  read-block-start, write-block-start, with the 16-bit length little-endian
  in bytes 4 and 5) and the long frames on report 0x06 (a block read or
  write: two header bytes, then the payload at offset 2). `Parse` gives the
  command a frame describes. It is defined independently, and `FrameIff`
  proves that a frame describes a command exactly when it is that command's
  frame. For a Set_Report, `Parse` is how the controller reads the frame it
  receives. The block-read header goes into the host's buffer only: a HID
  Get_Report sends the controller just its report number and length, and
  the reply overwrites the buffer.
- `Chunks`: the 2048-byte packets of `fu_chunk_array_new`. They tile the
  image in order, and joining their data gives the image back.
- `Transport`: the feature-report channel seen from the host. Each
  Set_Report, Get_Report, wait and USB reset the host makes is one `Request`
  in a log. A `Port` oracle over that log decides whether a request succeeds
  and, for a Get_Report, what comes back. `Run` makes a plan of requests
  and stops at the first one that fails. A Set_Report is logged as the
  command the controller reads from its frame. A Get_Report (`GetFeature`)
  is logged as the request the host's buffer describes, which the
  controller knows only by report number and length.
- `Sequencer`: the command sequences of `dump_firmware` and
  `write_firmware` (`DumpCommands`, `WriteCommands`). It also covers
  rebuilding the image from the block-read replies (`Assemble`), the
  byte-wise comparison (`Compare`) and the whole flash as one function
  (`Flash`).
- `HaiLuckKbd`: the device as a class. `KbdDevice` holds the port, the
  firmware size (0x4000), the request log and the wait-for-replug flag. Each
  source function is a method that changes the log in place:
  - `ReadBlock` and `WriteBlock` build their zeroed buffer and copy at
    offset 2.
  - `DumpFirmware` fills a buffer of `firmwareSizeMax` bytes packet by
    packet in a loop.
  - `WriteFirmware` erases, writes the image, rewrites the first packet and
    reads the image back.

  The two firmware operations are split into helper methods (`ReadBlocks`,
  `ReadPacket`, `WriteHead`, `WritePackets`, `WritePacket`,
  `AnnounceLength`, `RetryFirstPacket`). Each helper is proved against the
  prefix of the ghost command sequence it carries out (`Progress`).
  Every method's `ensures` ties its result and the new log to
  `Run` of that method's commands.

## Model

| member | source | states |
|---|---|---|
| Frames.ToU16 | plugins/hailuck/fu-hailuck-kbd-device.c:132-138 | passing a `gsize` length to a `guint16` parameter (here and again at line 254) keeps a length below 65536 unchanged and otherwise agrees with it modulo 65536 |
| Frames.DecodeLength | plugins/hailuck/fu-hailuck-kbd-device.c:183-184 | bytes 4 and 5 of a short frame are the low and high byte of the length it carries |
| Frames.LengthLittleEndianExample | plugins/hailuck/fu-hailuck-kbd-device.c:183-184 | the length 0x1234 is sent as 0x34 then 0x12 |
| Frames.DetachFrame | plugins/hailuck/fu-hailuck-kbd-device.c:26-29 | the detach frame is six bytes and describes Detach on report 0x05, which `FrameIff` makes unique |
| Frames.AttachFrame | plugins/hailuck/fu-hailuck-kbd-device.c:42-45 | the attach frame is six bytes and describes Attach on report 0x05, which `FrameIff` makes unique |
| Frames.EraseFrame | plugins/hailuck/fu-hailuck-kbd-device.c:161-165 | the erase frame is six bytes and describes Erase on report 0x05, which `FrameIff` makes unique |
| Frames.ReadBlockStartFrame | plugins/hailuck/fu-hailuck-kbd-device.c:90-97 | six bytes: report 0x05, the read-block-start opcode, two zero bytes, then a length that decodes back to the one given |
| Frames.WriteBlockStartFrame | plugins/hailuck/fu-hailuck-kbd-device.c:178-185 | six bytes: report 0x05, the write-block-start opcode, two zero bytes, then a length that decodes back to the one given |
| Frames.ReadBlockRequest | plugins/hailuck/fu-hailuck-kbd-device.c:108-112 | the block-read buffer is `size + 2` bytes: report 0x06, the read-block opcode, then `size` zero bytes |
| Frames.WriteBlockFrame | plugins/hailuck/fu-hailuck-kbd-device.c:196-205 | the block-write frame is `|data| + 2` bytes: report 0x06, the write-block opcode, then exactly `data` from offset 2 |
| Frames.FrameIff | plugins/hailuck/fu-hailuck-kbd-device.c:26-205 | for all the frame builders (detach, attach, read-block-start, read-block, erase, write-block-start, write-block): a frame on a report number describes a command if and only if they are that command's frame and report number |
| Frames.ParseFrame | plugins/hailuck/fu-hailuck-kbd-device.c:26-205 | for all the frame builders: every command's frame, on its report number, describes that command |
| Frames.FrameParse | plugins/hailuck/fu-hailuck-kbd-device.c:26-205 | for all the frame builders: a frame that describes a command is that command's frame, on that command's report number |
| Chunks.ChunkArray | plugins/hailuck/fu-hailuck-kbd-device.c:143 | the packets `fu_chunk_array_new` makes of a `len`-byte buffer with packet size 2048, as at line 258 too: packet `i` is at `i * 2048` and is `min(2048, len - i * 2048)` bytes long, and its contract keeps every packet inside the buffer; the lemmas below prove that they tile it |
| Chunks.ChunkArrayPrefixSum | plugins/hailuck/fu-hailuck-kbd-device.c:143 | the first `k` packets together hold `min(k * 2048, len)` bytes |
| Chunks.ChunkArrayTiles | plugins/hailuck/fu-hailuck-kbd-device.c:143 | the packets are numbered in order, none is empty or longer than 2048 bytes, each starts where the ones before it end, and together they are exactly `len` bytes |
| Chunks.ChunkArrayCovers | plugins/hailuck/fu-hailuck-kbd-device.c:143 | together the packets cover the whole image |
| Chunks.ChunkArrayFull | plugins/hailuck/fu-hailuck-kbd-device.c:258 | every packet but the last is a full 2048 bytes |
| Chunks.ChunkAt | plugins/hailuck/fu-hailuck-kbd-device.c:258 | packet `i` starts at `i * 2048`, inside the image, and ends at `min((i + 1) * 2048, len)` |
| Chunks.JoinChunks | plugins/hailuck/fu-hailuck-kbd-device.c:258 | the packets' data, joined in order, is the image |
| Transport.Transfer | plugins/hailuck/fu-hailuck-kbd-device.c:23-215 | the requests one command makes: its frame (a Get_Report of `size + 2` bytes for a block read, a Set_Report otherwise), then a 2 s wait after an erase (line 170), a 10 ms wait after a block read or write (lines 124, 213), a USB reset after attach (line 51), and nothing else; it has no contract of its own, and `DecodePlan` and `TransferReplies` state what it carries and what it brings back |
| Transport.Run | plugins/hailuck/fu-hailuck-kbd-device.c:249-279 | makes a plan's requests one after another and stops at the first that fails, as each call's `return FALSE` does; it has no contract of its own, and `RunStopsAtFirstFailure` states its properties |
| Transport.Perform | plugins/hailuck/fu-hailuck-kbd-device.c:113-117 | a Get_Report that succeeds fills the host's buffer exactly |
| Transport.RunStopsAtFirstFailure | plugins/hailuck/fu-hailuck-kbd-device.c:249-279 | a plan's log is a prefix of the plan; every request before the last one made succeeded; a failed run ends with the failed request; a successful run made the whole plan |
| Transport.DecodePlan | plugins/hailuck/fu-hailuck-kbd-device.c:247-279 | the commands a plan's requests carry are the commands it was built from, in order |
| Sequencer.FirstPass | plugins/hailuck/fu-hailuck-kbd-device.c:258-273 | one block write per packet, in order, with the first packet corrupted; its contract says there is one command per packet, and `FirstPassWritesImage` proves that together they write the image with byte 0 zeroed |
| Sequencer.WriteCommands | plugins/hailuck/fu-hailuck-kbd-device.c:247-279 | the whole write sequence: its length is the packet count plus four, it starts with the erase and it ends with the first packet as it is in the image; `WriteOrder` gives every step |
| Sequencer.DumpCommands | plugins/hailuck/fu-hailuck-kbd-device.c:136-152 | the dump sequence: one command per packet plus the size announcement, which comes first and carries the firmware size as a `guint16`; `DumpOrder` gives every step |
| Sequencer.Assemble | plugins/hailuck/fu-hailuck-kbd-device.c:144-152 | the buffer the dump fills, written as the block replies' payloads concatenated in order; it has no contract of its own, and `AssembleSpans` and `AssembleCovers` prove that packet `i`'s span of it is reply `i`'s payload |
| Sequencer.Flash | plugins/hailuck/fu-hailuck-kbd-device.c:247-284 | the whole `write_firmware` as one function: the write, then the readback only if the write went through, then the comparison only if the readback did; its contract says only an image of exactly the readback size `fwsz` can pass |
| Sequencer.Corrupt | plugins/hailuck/fu-hailuck-kbd-device.c:262-263 | the corrupted copy has the packet's length, first byte 0x00, and the rest of the packet unchanged |
| Sequencer.FirstChunk | plugins/hailuck/fu-hailuck-kbd-device.c:261 | the first packet is the first `min(2048, |fw|)` bytes of the image |
| Sequencer.Compare | plugins/hailuck/fu-hailuck-kbd-device.c:284 | the comparison passes if and only if the readback equals the image; a failure is never a transfer failure and, for equal sizes, names the first differing offset with both bytes |
| Sequencer.TransferReplies | plugins/hailuck/fu-hailuck-kbd-device.c:113-121 | only a block read brings back a reply, and when it succeeds that reply is one frame of `size + 2` bytes |
| Sequencer.RunPrefixFails | plugins/hailuck/fu-hailuck-kbd-device.c:249-279 | once a command fails, the commands after it change nothing |
| Sequencer.DumpOrder | plugins/hailuck/fu-hailuck-kbd-device.c:136-152 | the dump first announces the size, then reads packets 0, 1, … in order, each with its own size |
| Sequencer.DumpPrefix | plugins/hailuck/fu-hailuck-kbd-device.c:144-152 | after the first `k` block reads of a dump went through, there are `k` replies, each a full frame for its packet |
| Sequencer.AssembleSpans | plugins/hailuck/fu-hailuck-kbd-device.c:143-152 | the image rebuilt from `n` block replies is `min(n * 2048, len)` bytes, and packet `i`'s span of it is reply `i`'s payload |
| Sequencer.AssembleCovers | plugins/hailuck/fu-hailuck-kbd-device.c:142-155 | with one reply per packet, the rebuilt image is exactly `len` bytes and each packet's span is its reply's payload |
| Sequencer.DumpReadsImage | plugins/hailuck/fu-hailuck-kbd-device.c:128-156 | a successful dump returns `fwsz` bytes, one reply per packet, and each packet's span of the result is its reply's payload |
| Sequencer.DumpAnnouncesItsLength | plugins/hailuck/fu-hailuck-kbd-device.c:132-143 | the announced length equals the firmware size, which is also the sum of the packet sizes |
| Sequencer.WriteOrder | plugins/hailuck/fu-hailuck-kbd-device.c:247-279 | the write is: erase, announce the length, the corrupted first packet, packets 1 onwards from the image, announce the length again, then the first packet as in the image |
| Sequencer.CorruptionVisible | plugins/hailuck/fu-hailuck-kbd-device.c:260-264 | the corrupted first packet differs from the image's if and only if the image's first byte is not already 0x00 |
| Sequencer.FirstPassWritesImage | plugins/hailuck/fu-hailuck-kbd-device.c:258-273 | the first pass writes exactly the image with byte 0 set to 0x00 |
| Sequencer.WriteCommandsWrite | plugins/hailuck/fu-hailuck-kbd-device.c:258-279 | all the data written is the image with byte 0 zeroed, followed by the original first packet; so the last packet written is the first packet as in the image |
| Sequencer.WriteAnnouncesItsLength | plugins/hailuck/fu-hailuck-kbd-device.c:254-276 | both length announcements carry the image size, which is the number of bytes the first pass writes |
| Sequencer.WriteCommandsHaveNoRead | plugins/hailuck/fu-hailuck-kbd-device.c:247-279 | the write phase makes no Get_Report |
| Sequencer.WriteTwoPackets | plugins/hailuck/fu-hailuck-kbd-device.c:247-279 | for a 4096-byte image the write is erase, announce 4096, the corrupted first half, the second half, announce 4096, then the first half |
| Sequencer.FlashPasses | plugins/hailuck/fu-hailuck-kbd-device.c:282-284 | a flash passes if and only if the write and the readback went through and the readback is the image; only an image of the firmware size can pass |
| Sequencer.FlashRunsOnePlan | plugins/hailuck/fu-hailuck-kbd-device.c:247-284 | the log of a flash is that of running the write and then the readback as one plan, and no transfer failed if and only if that plan ran to the end |
| Sequencer.FlashStopsAtFirstFailure | plugins/hailuck/fu-hailuck-kbd-device.c:249-284 | a flash makes a prefix of the write-then-readback plan; every request before its last succeeded; a failed transfer ends with the failed request; otherwise the whole plan was made |
| Sequencer.FlashSends | plugins/hailuck/fu-hailuck-kbd-device.c:247-284 | the commands the host's requests carry during a flash are a prefix of the write commands followed by the dump commands, and all of them when no transfer failed |
| HaiLuckKbd.CorruptedCopy | plugins/hailuck/fu-hailuck-kbd-device.c:262-263 | the duplicated first packet with its first byte set to 0x00 |
| HaiLuckKbd.KbdDevice.constructor | plugins/hailuck/fu-hailuck-kbd-device.c:287-294 | a new device has the firmware size 0x4000, an empty log and no replug pending |
| HaiLuckKbd.KbdDevice.SetReport | plugins/hailuck/fu-hailuck-kbd-device.c:186-188 | one Set_Report: the log grows by it and the result says whether it succeeded |
| HaiLuckKbd.KbdDevice.GetReport | plugins/hailuck/fu-hailuck-kbd-device.c:113-117 | one Get_Report into the buffer: the log grows by it and on success the buffer holds the reply |
| HaiLuckKbd.KbdDevice.Sleep | plugins/hailuck/fu-hailuck-kbd-device.c:124 | a wait is logged and cannot fail |
| HaiLuckKbd.KbdDevice.ResetBus | plugins/hailuck/fu-hailuck-kbd-device.c:51 | one USB reset: the log grows by it and the result says whether it succeeded |
| HaiLuckKbd.KbdDevice.Detach | plugins/hailuck/fu-hailuck-kbd-device.c:23-37 | sends the detach frame; on success the device waits for a replug |
| HaiLuckKbd.KbdDevice.Attach | plugins/hailuck/fu-hailuck-kbd-device.c:39-55 | sends the attach frame, then resets the bus only if it succeeded; on success the device waits for a replug |
| HaiLuckKbd.KbdDevice.ReadBlockStart | plugins/hailuck/fu-hailuck-kbd-device.c:85-101 | sends the read-block-start frame for the given length |
| HaiLuckKbd.KbdDevice.ReadBlock | plugins/hailuck/fu-hailuck-kbd-device.c:103-126 | one block read: on success the destination span is the reply's bytes from offset 2 and nothing else in the destination changes; on failure the destination is untouched and no wait follows |
| HaiLuckKbd.KbdDevice.Erase | plugins/hailuck/fu-hailuck-kbd-device.c:158-172 | sends the erase frame, then waits 2 s only if it succeeded |
| HaiLuckKbd.KbdDevice.WriteBlockStart | plugins/hailuck/fu-hailuck-kbd-device.c:174-189 | sends the write-block-start frame for the given length |
| HaiLuckKbd.KbdDevice.WriteBlock | plugins/hailuck/fu-hailuck-kbd-device.c:191-215 | sends the block-write frame carrying `data`, then waits 10 ms only if it succeeded |
| HaiLuckKbd.KbdDevice.DumpFirmware | plugins/hailuck/fu-hailuck-kbd-device.c:128-156 | the log is that of running the dump commands; the dump succeeds if and only if every request did, and then returns the replies' payloads in packet order |
| HaiLuckKbd.KbdDevice.ReadBlocks | plugins/hailuck/fu-hailuck-kbd-device.c:142-152 | the loop over packets ends with the whole dump run and, on success, the buffer holding the assembled replies |
| HaiLuckKbd.KbdDevice.ReadPacket | plugins/hailuck/fu-hailuck-kbd-device.c:145-150 | one loop step: on success the filled prefix grows by one packet; on failure the whole dump run has ended |
| HaiLuckKbd.KbdDevice.WriteImage | plugins/hailuck/fu-hailuck-kbd-device.c:247-279 | the write phase makes the write commands in order and stops at the first failure |
| HaiLuckKbd.KbdDevice.WriteHead | plugins/hailuck/fu-hailuck-kbd-device.c:247-265 | erase, announce the length, and write the corrupted first packet, stopping at the first failure |
| HaiLuckKbd.KbdDevice.WritePackets | plugins/hailuck/fu-hailuck-kbd-device.c:267-273 | packets 1 onwards, in order, stopping at the first failure |
| HaiLuckKbd.KbdDevice.WritePacket | plugins/hailuck/fu-hailuck-kbd-device.c:269-271 | one packet write after the steps before it; a failure ends the run |
| HaiLuckKbd.KbdDevice.AnnounceLength | plugins/hailuck/fu-hailuck-kbd-device.c:252-255 | the length announcement, after the steps before it |
| HaiLuckKbd.KbdDevice.RetryFirstPacket | plugins/hailuck/fu-hailuck-kbd-device.c:275-279 | announce the length again, then write the first packet as it is in the image |
| HaiLuckKbd.KbdDevice.WriteFirmware | plugins/hailuck/fu-hailuck-kbd-device.c:229-285 | the outcome and the new log are those of `Flash`: the write phase, then a readback of the firmware size compared with the image |

## Left out

- Status and progress reporting (`fu_device_set_status`, `fu_device_set_progress_full`) are left out, because they do not affect what is sent.
- HID timeouts are left out. A request that times out is a failed request in the `Port` oracle.
- The waits (`g_usleep`, `fu_device_sleep_with_progress`) are logged as `Settle` requests of 10 ms and 2000 ms, because time is not modelled.
- The USB and HID stack is left out. Whether a request succeeds, and what a Get_Report returns, is an oracle over the log.
- `probe`, `setup`, `class_init` and the rest of `init` are left out. Only the firmware size 0x4000 from `init` is kept, as the constructor's `firmwareSizeMax`.
- `prepare_firmware` and the failure of `fu_firmware_get_image_default_bytes` are left out, because the image is given to `WriteFirmware` as bytes.
- `fu-hailuck-common.h` is not part of this model. The report-id and opcode values in `Frames` are taken to be those it defines, and they cannot be checked against it here. The proofs need:
  - the five short-frame command codes (detach, attach, erase, read-block-start, write-block-start) to be pairwise distinct;
  - the two long-frame opcodes (read-block, write-block) to be distinct;
  - `REPORT_ID_SHORT` and `REPORT_ID_LONG` to equal 0x05 and 0x06. Those are the report numbers each call passes as a literal, at lines 31, 47, 98, 113, 166, 186 and 206.
- `fu-chunk.c` is not part of this model. `ChunkArray` states the chunking it performs: 2048-byte packets from address 0.
- `fu_memcpy_safe` can fail only when the copy does not fit. The buffers here are sized for the copy, so that error path is not reachable and is not modelled.
- `fu_common_bytes_compare` is not part of this model. `Compare` reports a size mismatch, or else the first differing offset and its two bytes, and not the message text. A `NULL` readback (a failed dump) is `Fail(TransferFailed)`.
- The log records each feature report as the command its frame describes, not its raw bytes. `FrameIff` shows that nothing is lost for the frames the host builds. For a Get_Report that frame is the host's buffer, and only its report number and length reach the controller.
- HaiLuckKbd.KbdDevice.WriteFirmware: requires a non-empty image. The source takes the first packet of the image without checking that there is one.
- The remove delay and the touchpad device are left out.
