/** The HaiLuck keyboard as fwupd drives it: a device object whose
    operations put frames on the feature-report channel, one request at a
    time, and stop at the first one that fails. */
module HaiLuckKbd {
  import opened Frames
  import opened Chunks
  import opened Transport
  import opened Sequencer

  /** The firmware size the device is created with; `dump_firmware` reads back this many bytes. */
  const FirmwareSize: nat := 0x4000

  // ---- facts about running requests, used by the methods below ----

  lemma RunOne(port: Port, log: seq<Request>, r: Request)
    ensures var x := Run(port, log, [r]);
      && x.log == log + [r]
      && (x.ok <==> Perform(port, log + [r]).Some?)
      && (x.ok ==> x.replies == if r.GetFeature? then [Perform(port, log + [r]).value] else [])
  {
    assert [r][1..] == [];
  }

  lemma RunTwo(port: Port, log: seq<Request>, a: Request, b: Request)
    ensures Run(port, log, [a, b]) == Then(port, Run(port, log, [a]), [b])
  {
    assert [a] + [b] == [a, b];
    RunAppend(port, log, [a], [b]);
  }

  /** Running the first `k + 1` commands is running the first `k`, then the next one. */
  lemma Advance(port: Port, log: seq<Request>, cmds: seq<Command>, k: nat)
    requires k < |cmds|
    ensures Run(port, log, Plan(cmds[..k + 1])) == Then(port, Run(port, log, Plan(cmds[..k])), Transfer(cmds[k]))
  {
    assert cmds[..k + 1] == cmds[..k] + [cmds[k]];
    RunPlanSnoc(port, log, cmds[..k], cmds[k]);
  }

  /** The first `k` commands, sent one after another until one fails. */
  ghost function Progress(port: Port, log: seq<Request>, cmds: seq<Command>, k: nat): Exchange
    requires k <= |cmds|
  {
    if k == 0 then Exchange(true, log, [])
    else Then(port, Progress(port, log, cmds, k - 1), Transfer(cmds[k - 1]))
  }

  lemma {:induction false} ProgressRuns(port: Port, log: seq<Request>, cmds: seq<Command>, k: nat)
    requires k <= |cmds|
    ensures Progress(port, log, cmds, k) == Run(port, log, Plan(cmds[..k]))
  {
    if k == 0 {
      assert cmds[..0] == [];
    } else {
      ProgressRuns(port, log, cmds, k - 1);
      Advance(port, log, cmds, k - 1);
    }
  }

  /** One more command: sent only if all before it went through. */
  lemma ProgressStep(port: Port, log: seq<Request>, cmds: seq<Command>, k: nat, c: Command)
    requires k < |cmds| && cmds[k] == c
    ensures var x := Progress(port, log, cmds, k);
      Progress(port, log, cmds, k + 1) == if x.ok then
        var y := Run(port, x.log, Transfer(c)); Exchange(y.ok, y.log, x.replies + y.replies)
      else x
  {
  }

  /** The step after a successful prefix. */
  lemma ProgressNext(port: Port, log: seq<Request>, cmds: seq<Command>, k: nat, c: Command)
    requires k < |cmds| && cmds[k] == c && Progress(port, log, cmds, k).ok
    ensures var x, y := Progress(port, log, cmds, k), Run(port, Progress(port, log, cmds, k).log, Transfer(c));
      Progress(port, log, cmds, k + 1) == Exchange(y.ok, y.log, x.replies + y.replies)
  {
  }

  /** Nothing is sent after a failure. */
  lemma {:induction false} ProgressStops(port: Port, log: seq<Request>, cmds: seq<Command>, k: nat, n: nat)
    requires k <= n <= |cmds| && !Progress(port, log, cmds, k).ok
    ensures Progress(port, log, cmds, n) == Progress(port, log, cmds, k)
  {
    if k < n {
      ProgressStops(port, log, cmds, k, n - 1);
      var x := Progress(port, log, cmds, n - 1);
      assert !x.ok;
      assert Progress(port, log, cmds, n) == Then(port, x, Transfer(cmds[n - 1]));
    }
  }

  /** Sending all the commands one after another is running their plan. */
  lemma ProgressAll(port: Port, log: seq<Request>, cmds: seq<Command>)
    ensures Progress(port, log, cmds, |cmds|) == Run(port, log, Plan(cmds))
  {
    ProgressRuns(port, log, cmds, |cmds|);
    assert cmds[..|cmds|] == cmds;
  }

  /** One more packet read into the dump buffer: the filled prefix grows by
      that packet, and it is what the replies so far assemble to. */
  lemma FillStep(fwsz: nat, i: nat, before: seq<Byte>, after: seq<Byte>, replies: seq<seq<Byte>>, reply: seq<Byte>)
    requires i < |ChunkArray(fwsz)| && |before| == |after| == fwsz
    requires before[..Min(i * PacketSize, fwsz)] == Assemble(replies)
    requires var c := ChunkArray(fwsz)[i];
      && after[c.address..c.address + c.size] == Payload(reply)
      && after[..c.address] == before[..c.address]
    ensures after[..Min((i + 1) * PacketSize, fwsz)] == Assemble(replies + [reply])
  {
    var c := ChunkArray(fwsz)[i];
    ChunkAt(fwsz, i);
    AssembleAppend(replies, reply);
    SpanFilled(before, after, c.address, c.size, Payload(reply));
  }

  /** Writing one packet's span of a buffer extends the filled prefix by that span. */
  lemma SpanFilled(before: seq<Byte>, after: seq<Byte>, at: nat, size: nat, p: seq<Byte>)
    requires |before| == |after| && at + size <= |after|
    requires after[at..at + size] == p
    requires after[..at] == before[..at]
    ensures after[..at + size] == before[..at] + p
  {
    assert after[..at + size] == after[..at] + after[at..at + size];
  }

  /** A fresh copy of a packet with its first byte set to 0x00, so that the
      device's checksum over the image fails until the packet is rewritten. */
  method CorruptedCopy(data: seq<Byte>) returns (copy: seq<Byte>)
    requires |data| > 0
    ensures copy == Corrupt(data)
  {
    var buf := new Byte[|data|](j requires 0 <= j < |data| => data[j]);
    buf[0] := 0x00;
    copy := buf[..];
  }

  /** Once every packet is in, the assembled prefix is the whole buffer. */
  lemma AssembledWhole(fwsz: nat, buf: seq<Byte>, replies: seq<seq<Byte>>)
    requires |buf| == fwsz && buf[..Min(|ChunkArray(fwsz)| * PacketSize, fwsz)] == Assemble(replies)
    ensures buf == Assemble(replies)
  {
    ChunkArrayCovers(fwsz);
    assert buf == buf[..fwsz];
  }

  /** One dump packet: the read of chunk `i` either extends the assembled prefix or ends the run. */
  lemma PacketStep(port: Port, log0: seq<Request>, d: seq<Command>, i: nat, fwsz: nat, before: seq<Byte>, after: seq<Byte>)
    requires i < |ChunkArray(fwsz)| && |before| == |after| == fwsz && DumpShaped(fwsz, d)
    requires var x := Progress(port, log0, d, i + 1);
      x.ok && before[..Min(i * PacketSize, fwsz)] == Assemble(x.replies)
    requires var c, x := ChunkArray(fwsz)[i], Progress(port, log0, d, i + 1);
      var y := Run(port, x.log, Transfer(d[i + 1]));
      && after[..c.address] == before[..c.address]
      && (y.ok ==> |y.replies| == 1 && after[c.address..c.address + c.size] == Payload(y.replies[0]))
    ensures var x, y := Progress(port, log0, d, i + 1), Progress(port, log0, d, i + 2);
      y.log == Run(port, x.log, Transfer(d[i + 1])).log && y.ok == Run(port, x.log, Transfer(d[i + 1])).ok
    ensures Progress(port, log0, d, i + 2).ok ==>
      after[..Min((i + 1) * PacketSize, fwsz)] == Assemble(Progress(port, log0, d, i + 2).replies)
    ensures !Progress(port, log0, d, i + 2).ok ==> Progress(port, log0, d, |d|) == Progress(port, log0, d, i + 2)
  {
    assert d[i + 1] == Command.ReadBlock(ChunkArray(fwsz)[i].size);
    var x := Progress(port, log0, d, i + 1);
    ProgressNext(port, log0, d, i + 1, d[i + 1]);
    var y := Run(port, x.log, Transfer(d[i + 1]));
    if y.ok {
      assert y.replies == [y.replies[0]];
      FillStep(fwsz, i, before, after, x.replies, y.replies[0]);
    } else {
      ProgressStops(port, log0, d, i + 2, |d|);
    }
  }

  class KbdDevice {
    /** The controller and its bus. */
    const port: Port
    /** The number of bytes `dump_firmware` reads back. */
    const firmwareSizeMax: nat
    /** Every request made of the device so far, in order. */
    var log: seq<Request>
    /** Set once the device was told to leave or enter bootloader mode and will re-enumerate. */
    var waitForReplug: bool

    /** A new device: the firmware size is 0x4000 bytes. */
    constructor (port: Port)
      ensures this.port == port && firmwareSizeMax == FirmwareSize
      ensures log == [] && !waitForReplug
    {
      this.port := port;
      firmwareSizeMax := FirmwareSize;
      log := [];
      waitForReplug := false;
    }

    // ---- the transport: each call is one request ----

    /** HID Set_Report(Feature) of `frame` on report number `report`. */
    method SetReport(report: Byte, frame: seq<Byte>) returns (ok: bool)
      modifies this`log
      ensures var x := Run(port, old(log), [SetRequest(report, frame)]);
        ok == x.ok && log == x.log
    {
      log := log + [SetRequest(report, frame)];
      ok := port.accepts(log);
      RunOne(port, old(log), SetRequest(report, frame));
    }

    /** HID Get_Report(Feature) on report number `report` into `buf`; it fails
        unless the reply fills `buf` exactly, and then `buf` holds the reply. */
    method GetReport(report: Byte, buf: array<Byte>) returns (ok: bool)
      modifies this`log, buf
      ensures var x := Run(port, old(log), [GetRequest(report, old(buf[..]))]);
        ok == x.ok && log == x.log && (ok ==> x.replies == [buf[..]])
    {
      log := log + [GetRequest(report, buf[..])];
      var reply := port.answer(log);
      ok := reply.Some? && |reply.value| == buf.Length;
      if ok {
        forall i | 0 <= i < buf.Length {
          buf[i] := reply.value[i];
        }
        assert buf[..] == reply.value;
      }
      RunOne(port, old(log), GetRequest(report, old(buf[..])));
    }

    /** A mandatory wait; it cannot fail. */
    method Sleep(ms: nat)
      modifies this`log
      ensures var x := Run(port, old(log), [Settle(ms)]);
        x.ok && log == x.log && x.replies == []
    {
      log := log + [Settle(ms)];
      RunOne(port, old(log), Settle(ms));
    }

    /** A reset of the USB port the device sits on. */
    method ResetBus() returns (ok: bool)
      modifies this`log
      ensures var x := Run(port, old(log), [BusReset]);
        ok == x.ok && log == x.log
    {
      log := log + [BusReset];
      ok := port.accepts(log);
      RunOne(port, old(log), BusReset);
    }

    // ---- one command each ----

    /** Switch to bootloader mode; the device will re-enumerate. */
    method Detach() returns (ok: bool)
      modifies this
      ensures var x := Run(port, old(log), Transfer(Command.Detach));
        ok == x.ok && log == x.log
      ensures waitForReplug == (old(waitForReplug) || ok)
    {
      ParseFrame(Command.Detach);
      ok := SetReport(0x05, DetachFrame());
      if ok {
        waitForReplug := true;
      }
    }

    /** Switch back to runtime mode and reset the port; the device will re-enumerate. */
    method Attach() returns (ok: bool)
      modifies this
      ensures var x := Run(port, old(log), Transfer(Command.Attach));
        ok == x.ok && log == x.log
      ensures waitForReplug == (old(waitForReplug) || ok)
    {
      ParseFrame(Command.Attach);
      RunTwo(port, log, SetRequest(0x05, AttachFrame()), BusReset);
      ok := SetReport(0x05, AttachFrame());
      if !ok {
        return;
      }
      ok := ResetBus();
      if ok {
        waitForReplug := true;
      }
    }

    /** Announce a readback of `length` bytes. */
    method ReadBlockStart(length: U16) returns (ok: bool)
      modifies this`log
      ensures var x := Run(port, old(log), Transfer(Command.ReadBlockStart(length)));
        ok == x.ok && log == x.log
    {
      ParseFrame(Command.ReadBlockStart(length));
      ok := SetReport(0x05, ReadBlockStartFrame(length));
    }

    /** Erase the flash, then wait for it. */
    method Erase() returns (ok: bool)
      modifies this`log
      ensures var x := Run(port, old(log), Transfer(Command.Erase));
        ok == x.ok && log == x.log
    {
      ParseFrame(Command.Erase);
      RunTwo(port, log, SetRequest(0x05, EraseFrame()), Settle(EraseSettleMs));
      ok := SetReport(0x05, EraseFrame());
      if ok {
        Sleep(EraseSettleMs);
      }
    }

    /** Announce a write of `length` bytes. */
    method WriteBlockStart(length: U16) returns (ok: bool)
      modifies this`log
      ensures var x := Run(port, old(log), Transfer(Command.WriteBlockStart(length)));
        ok == x.ok && log == x.log
    {
      ParseFrame(Command.WriteBlockStart(length));
      ok := SetReport(0x05, WriteBlockStartFrame(length));
    }

    /** Send one packet: a zeroed buffer of `|data| + 2` bytes, the header, and
        `data` copied in at offset 2; then wait. */
    method WriteBlock(data: seq<Byte>) returns (ok: bool)
      modifies this`log
      ensures var x := Run(port, old(log), Transfer(Command.WriteBlock(data)));
        ok == x.ok && log == x.log
    {
      var buf := new Byte[|data| + 2](_ => 0);
      buf[0] := ReportIdLong;
      buf[1] := CmdWriteBlock;
      forall i | 0 <= i < |data| {
        buf[i + 2] := data[i];
      }
      assert buf[..] == WriteBlockFrame(data);
      ParseFrame(Command.WriteBlock(data));
      RunTwo(port, log, SetRequest(0x06, buf[..]), Settle(BlockSettleMs));
      ok := SetReport(0x06, buf[..]);
      if ok {
        Sleep(BlockSettleMs);
      }
    }

    /** Fetch one packet of `size` bytes into `dst[at..at + size]`: a zeroed
        buffer of `size + 2` bytes with the header goes out, the reply comes
        back in it, and its bytes from offset 2 are copied out; then wait.
        On failure `dst` is left as it was. */
    method ReadBlock(dst: array<Byte>, at: nat, size: nat) returns (ok: bool)
      requires at + size <= dst.Length
      modifies this`log, dst
      ensures var x := Run(port, old(log), Transfer(Command.ReadBlock(size)));
        && ok == x.ok && log == x.log
        && (ok ==> |x.replies| == 1 && dst[at..at + size] == Payload(x.replies[0]))
      ensures dst[..at] == old(dst[..at]) && dst[at + size..] == old(dst[at + size..])
      ensures !ok ==> dst[..] == old(dst[..])
    {
      var buf := new Byte[size + 2](_ => 0);
      buf[0] := ReportIdLong;
      buf[1] := CmdReadBlock;
      assert buf[..] == ReadBlockRequest(size);
      ghost var log0 := log;
      ParseFrame(Command.ReadBlock(size));
      RunTwo(port, log0, GetRequest(0x06, buf[..]), Settle(BlockSettleMs));
      ok := GetReport(0x06, buf);
      if !ok {
        return;
      }
      ghost var reply, before := buf[..], dst[..];
      forall i | 0 <= i < size {
        dst[at + i] := buf[i + 2];
      }
      assert dst[..at] == before[..at] && dst[at + size..] == before[at + size..];
      assert dst[at..at + size] == Payload(reply);
      Sleep(BlockSettleMs);
    }

    // ---- the two firmware operations ----

    /** Read the firmware back: announce `firmwareSizeMax` bytes, then fill a
        zeroed buffer of that size packet by packet, in place. Any failed
        request ends the dump with an error. */
    method DumpFirmware() returns (r: Result<seq<Byte>>)
      modifies this`log
      ensures var d := Run(port, old(log), Plan(DumpCommands(firmwareSizeMax)));
        && log == d.log
        && (r.Ok? <==> d.ok)
        && (r.Ok? ==> r.value == Assemble(d.replies))
        && (r.Err? ==> r.error == TransferFailed)
    {
      var fwsz := firmwareSizeMax;
      ghost var log0 := log;
      ghost var d := DumpCommands(fwsz);
      ghost var n := |d|;
      ProgressAll(port, log0, d);
      DumpOrder(fwsz);
      ProgressStep(port, log0, d, 0, Command.ReadBlockStart(ToU16(fwsz)));
      var ok := ReadBlockStart(ToU16(fwsz));
      if !ok {
        ProgressStops(port, log0, d, 1, n);
        return Err(TransferFailed);
      }
      TransferReplies(port, log0, Command.ReadBlockStart(ToU16(fwsz)));

      var fwbuf := new Byte[fwsz](_ => 0);
      ok := ReadBlocks(fwbuf, d, log0);
      if !ok {
        return Err(TransferFailed);
      }
      return Ok(fwbuf[..]);
    }

    /** The block reads of a dump, packet by packet into `buf`, after the
        length announcement has succeeded. The first failed read ends it.
        Here and in `ReadPacket` the packet size is written as the literal
        0x800 (`PacketSize`), which keeps the prefix bounds linear. */
    method ReadBlocks(buf: array<Byte>, ghost d: seq<Command>, ghost log0: seq<Request>) returns (ok: bool)
      requires buf.Length == firmwareSizeMax && DumpShaped(firmwareSizeMax, d)
      requires var x := Progress(port, log0, d, 1);
        x.ok && log == x.log && x.replies == []
      modifies this`log, buf
      ensures var x := Progress(port, log0, d, |d|);
        && ok == x.ok && log == x.log
        && (ok ==> buf[..] == Assemble(x.replies))
    {
      var fwsz := firmwareSizeMax;
      var chunks := ChunkArray(fwsz);
      var i := 0;
      while i < |chunks|
        invariant 0 <= i <= |chunks|
        invariant Progress(port, log0, d, i + 1).ok
        invariant log == Progress(port, log0, d, i + 1).log
        invariant buf[..Min(i * 0x800, fwsz)] == Assemble(Progress(port, log0, d, i + 1).replies)
      {
        ok := ReadPacket(buf, i, d, log0);
        if !ok {
          return;
        }
        i := i + 1;
      }
      AssembledWhole(fwsz, buf[..], Progress(port, log0, d, |d|).replies);
      return true;
    }

    /** Block read `i` of a dump: packet `i` lands at its offset in `buf`,
        after the packets before it. */
    method ReadPacket(buf: array<Byte>, i: nat, ghost d: seq<Command>, ghost log0: seq<Request>) returns (ok: bool)
      requires buf.Length == firmwareSizeMax && i < |ChunkArray(firmwareSizeMax)| && DumpShaped(firmwareSizeMax, d)
      requires var x := Progress(port, log0, d, i + 1);
        x.ok && log == x.log && buf[..Min(i * 0x800, firmwareSizeMax)] == Assemble(x.replies)
      modifies this`log, buf
      ensures ok ==> var x := Progress(port, log0, d, i + 2);
        x.ok && log == x.log && buf[..Min((i + 1) * 0x800, firmwareSizeMax)] == Assemble(x.replies)
      ensures !ok ==> var x := Progress(port, log0, d, |d|);
        !x.ok && log == x.log
    {
      var chk := ChunkArray(firmwareSizeMax)[i];
      ghost var before := buf[..];
      ok := ReadBlock(buf, chk.address, chk.size);
      PacketStep(port, log0, d, i, firmwareSizeMax, before, buf[..]);
    }

    /** The write phase of a flash: erase, announce the image length, write
        every packet with the first one's first byte zeroed in a copy,
        announce the length again, then write the first packet as it is in
        the image. The first failed request ends it. */
    method WriteImage(fw: seq<Byte>, ghost cmds: seq<Command>) returns (ok: bool)
      requires |fw| > 0 && WriteShaped(fw, cmds)
      modifies this`log
      ensures var x := Progress(port, old(log), cmds, |cmds|);
        ok == x.ok && log == x.log
    {
      ghost var log0 := log;
      ok := WriteHead(fw, cmds);
      if !ok {
        ProgressStops(port, log0, cmds, 3, |cmds|);
        return;
      }
      ok := WritePackets(fw, cmds, log0);
      if !ok {
        ProgressStops(port, log0, cmds, |cmds| - 2, |cmds|);
        return;
      }
      ok := RetryFirstPacket(fw, cmds, log0);
    }

    /** The first three steps of the write phase: erase, announce the image
        length, then write the first packet from a copy whose first byte is
        zeroed. The first failed request ends it. */
    method WriteHead(fw: seq<Byte>, ghost cmds: seq<Command>) returns (ok: bool)
      requires |fw| > 0 && WriteShaped(fw, cmds)
      modifies this`log
      ensures var x := Progress(port, old(log), cmds, 3);
        ok == x.ok && log == x.log
    {
      ghost var log0 := log;
      ProgressStep(port, log0, cmds, 0, Command.Erase);
      ok := Erase();
      if !ok {
        ProgressStops(port, log0, cmds, 1, 3);
        return;
      }

      ok := AnnounceLength(ToU16(|fw|), cmds, 1, log0);
      if !ok {
        ProgressStops(port, log0, cmds, 2, 3);
        return;
      }

      var chk0 := ChunkArray(|fw|)[0];
      var chk0Data := CorruptedCopy(ChunkData(fw, chk0));
      ok := WritePacket(chk0Data, cmds, 2, 3, log0);
    }

    /** The last two steps of the write phase, after all packets went
        through: announce the image length again, then write the first
        packet as it is in the image. */
    method RetryFirstPacket(fw: seq<Byte>, ghost cmds: seq<Command>, ghost log0: seq<Request>) returns (ok: bool)
      requires |fw| > 0 && WriteShaped(fw, cmds)
      requires var x := Progress(port, log0, cmds, |cmds| - 2); x.ok && log == x.log
      modifies this`log
      ensures var x := Progress(port, log0, cmds, |cmds|);
        ok == x.ok && log == x.log
    {
      var chunks := ChunkArray(|fw|);
      ok := AnnounceLength(ToU16(|fw|), cmds, |chunks| + 2, log0);
      if !ok {
        ProgressStops(port, log0, cmds, |chunks| + 3, |chunks| + 4);
        return;
      }
      ok := WritePacket(ChunkData(fw, chunks[0]), cmds, |chunks| + 3, |chunks| + 4, log0);
    }

    /** Packets 1 onwards of the write phase, in order, after the first
        three steps of `cmds` went through. The first failed request ends it. */
    method WritePackets(fw: seq<Byte>, ghost cmds: seq<Command>, ghost log0: seq<Request>) returns (ok: bool)
      requires 0 < |ChunkArray(|fw|)| && |ChunkArray(|fw|)| + 2 <= |cmds|
      requires forall i :: 1 <= i < |ChunkArray(|fw|)| ==> cmds[i + 2] == Command.WriteBlock(ChunkData(fw, ChunkArray(|fw|)[i]))
      requires var x := Progress(port, log0, cmds, 3); x.ok && log == x.log
      modifies this`log
      ensures var x := Progress(port, log0, cmds, |ChunkArray(|fw|)| + 2);
        ok == x.ok && log == x.log
    {
      var chunks := ChunkArray(|fw|);
      var i := 1;
      while i < |chunks|
        invariant 1 <= i <= |chunks|
        invariant Progress(port, log0, cmds, i + 2).ok
        invariant log == Progress(port, log0, cmds, i + 2).log
      {
        ok := WritePacket(ChunkData(fw, chunks[i]), cmds, i + 2, |chunks| + 2, log0);
        if !ok {
          return;
        }
        i := i + 1;
      }
      return true;
    }

    /** Step `k` of the write phase, a packet, after the steps before it went through. */
    method WritePacket(data: seq<Byte>, ghost cmds: seq<Command>, k: nat, ghost n: nat, ghost log0: seq<Request>) returns (ok: bool)
      requires k < n <= |cmds| && cmds[k] == Command.WriteBlock(data)
      requires var x := Progress(port, log0, cmds, k); x.ok && log == x.log
      modifies this`log
      ensures var x := Progress(port, log0, cmds, k + 1);
        ok == x.ok && log == x.log
      ensures !ok ==> Progress(port, log0, cmds, n) == Progress(port, log0, cmds, k + 1)
    {
      ProgressNext(port, log0, cmds, k, Command.WriteBlock(data));
      ok := WriteBlock(data);
      if !ok {
        ProgressStops(port, log0, cmds, k + 1, n);
      }
    }

    /** Step `k` of the write phase, the length announcement, after the steps before it went through. */
    method AnnounceLength(len: U16, ghost cmds: seq<Command>, k: nat, ghost log0: seq<Request>) returns (ok: bool)
      requires k < |cmds| && cmds[k] == Command.WriteBlockStart(len)
      requires var x := Progress(port, log0, cmds, k); x.ok && log == x.log
      modifies this`log
      ensures var x := Progress(port, log0, cmds, k + 1);
        ok == x.ok && log == x.log
    {
      ProgressNext(port, log0, cmds, k, Command.WriteBlockStart(len));
      ok := WriteBlockStart(len);
    }

    /** Flash an image: the write phase, then a readback of `firmwareSizeMax`
        bytes compared with the image. Any failed request ends it. */
    method WriteFirmware(fw: seq<Byte>) returns (r: Outcome)
      requires |fw| > 0
      modifies this`log
      ensures r == Flash(port, old(log), fw, firmwareSizeMax).outcome
      ensures log == Flash(port, old(log), fw, firmwareSizeMax).log
    {
      ProgressAll(port, log, WriteCommands(fw));
      WriteOrder(fw);
      var ok := WriteImage(fw, WriteCommands(fw));
      if !ok {
        return Fail(TransferFailed);
      }
      var fwNew := DumpFirmware();
      if fwNew.Err? {
        return Fail(TransferFailed);
      }
      r := Compare(fw, fwNew.value);
    }
  }
}
