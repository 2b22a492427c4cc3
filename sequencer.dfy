/** The command sequences of `dump_firmware` and `write_firmware`, and what
    each guarantees about the bytes that travel. */
module Sequencer {
  import opened Frames
  import opened Chunks
  import opened Transport

  datatype Error =
    | TransferFailed                                          // a Set_Report, Get_Report or reset failed
    | SizeMismatch(imageSize: nat, readbackSize: nat)            // readback length differs from the image's
    | ByteMismatch(offset: nat, image: Byte, readback: Byte)  // first differing byte of the readback

  datatype Outcome = Pass | Fail(error: Error)

  datatype Result<T> = Ok(value: T) | Err(error: Error)

  /** The first packet with its first byte forced to 0x00. */
  function Corrupt(chunk: seq<Byte>): (r: seq<Byte>)
    requires |chunk| > 0
    ensures |r| == |chunk| && r[0] == 0x00 && r[1..] == chunk[1..]
  {
    chunk[0 := 0x00]
  }

  /** The first packet of an image. */
  function FirstChunk(fw: seq<Byte>): (d: seq<Byte>)
    requires |fw| > 0
    ensures d == fw[..Min(PacketSize, |fw|)]
  {
    ChunkData(fw, ChunkArray(|fw|)[0])
  }

  /** The first pass of `write_firmware`: every packet in order, the first
      one with its first byte forced to 0x00. */
  function FirstPass(fw: seq<Byte>): (r: seq<Command>)
    requires |fw| > 0
    ensures |r| == |ChunkArray(|fw|)| > 0
  {
    var cs := ChunkArray(|fw|);
    seq(|cs|, i requires 0 <= i < |cs| =>
      WriteBlock(if i == 0 then Corrupt(ChunkData(fw, cs[0])) else ChunkData(fw, cs[i])))
  }

  /** What `write_firmware` sends: erase, announce the length, the first
      pass, announce the length again, then the first packet as it is in
      the image. */
  function WriteCommands(fw: seq<Byte>): (r: seq<Command>)
    requires |fw| > 0
    ensures |r| == |ChunkArray(|fw|)| + 4 && r[0] == Erase && r[|r| - 1] == WriteBlock(FirstChunk(fw))
  {
    var len := ToU16(|fw|);
    [Erase, WriteBlockStart(len)] + FirstPass(fw) + [WriteBlockStart(len), WriteBlock(FirstChunk(fw))]
  }

  /** What `dump_firmware` sends for a `fwsz`-byte readback: announce the
      length, then one block read per packet. */
  function DumpCommands(fwsz: nat): (d: seq<Command>)
    ensures |d| == |ChunkArray(fwsz)| + 1 && d[0] == ReadBlockStart(ToU16(fwsz))
  {
    var cs := ChunkArray(fwsz);
    [ReadBlockStart(ToU16(fwsz))] + seq(|cs|, i requires 0 <= i < |cs| => ReadBlock(cs[i].size))
  }

  /** The image rebuilt from block-read replies: each reply's bytes after its header, in order. */
  function Assemble(replies: seq<seq<Byte>>): seq<Byte>
  {
    if replies == [] then [] else Assemble(replies[..|replies| - 1]) + Payload(replies[|replies| - 1])
  }

  /** The first offset where two equally long, different byte strings differ. */
  function FirstDifference(a: seq<Byte>, b: seq<Byte>): (k: nat)
    requires |a| == |b| && a != b
    ensures k < |a| && a[k] != b[k] && a[..k] == b[..k]
  {
    if a[0] != b[0] then 0
    else
      assert a[1..] != b[1..] by { assert a == [a[0]] + a[1..] && b == [b[0]] + b[1..]; }
      1 + FirstDifference(a[1..], b[1..])
  }

  /** Byte-for-byte comparison of the image with its readback. */
  function Compare(image: seq<Byte>, readback: seq<Byte>): (r: Outcome)
    ensures r.Pass? <==> image == readback
    ensures r.Fail? ==> r.error != TransferFailed
    ensures r.Fail? && |image| == |readback| ==>
      exists k :: 0 <= k < |image| && r.error == ByteMismatch(k, image[k], readback[k]) && image[..k] == readback[..k]
  {
    if |image| != |readback| then Fail(SizeMismatch(|image|, |readback|))
    else if image == readback then Pass
    else
      var k := FirstDifference(image, readback);
      Fail(ByteMismatch(k, image[k], readback[k]))
  }

  // ---- Running plans made of commands ----

  lemma RunPlanSnoc(port: Port, log: seq<Request>, cmds: seq<Command>, c: Command)
    ensures Run(port, log, Plan(cmds + [c])) == Then(port, Run(port, log, Plan(cmds)), Transfer(c))
  {
    assert (cmds + [c])[..|cmds|] == cmds;
    RunAppend(port, log, Plan(cmds), Transfer(c));
  }

  /** Once a prefix of the commands has failed, the rest are never sent. */
  lemma RunPrefixFails(port: Port, log: seq<Request>, a: seq<Command>, b: seq<Command>)
    requires !Run(port, log, Plan(a)).ok
    ensures Run(port, log, Plan(a + b)) == Run(port, log, Plan(a))
  {
    PlanAppend(a, b);
    RunAppend(port, log, Plan(a), Plan(b));
  }

  /** Only a block read brings back a reply, and a successful one brings back a full frame. */
  lemma TransferReplies(port: Port, log: seq<Request>, c: Command)
    ensures var x := Run(port, log, Transfer(c));
      && (!c.ReadBlock? ==> x.replies == [])
      && (c.ReadBlock? && x.ok ==> |x.replies| == 1 && |x.replies[0]| == c.size + 2)
  {
    var t := Transfer(c);
    var h := log + [t[0]];
    var first := Perform(port, h);
    if first.Some? {
      var x, rest := Run(port, log, t), Run(port, h, t[1..]);
      assert x.replies == (if t[0].GetFeature? then [first.value] else []) + rest.replies;
      if |t| == 2 {
        var h2 := h + [t[1]];
        assert t[1..][0] == t[1] && t[1..][1..] == [];
        assert !t[1].GetFeature?;
        if Perform(port, h2).Some? {
          assert Run(port, h2, []).replies == [];
        }
        assert rest.replies == [];
      } else {
        assert t[1..] == [];
      }
    }
  }

  // ---- dump_firmware ----

  lemma {:induction false} AssembleAppend(a: seq<seq<Byte>>, r: seq<Byte>)
    ensures Assemble(a + [r]) == Assemble(a) + Payload(r)
  {
    assert (a + [r])[..|a|] == a;
  }

  /** Each reply is a full frame for the packet at its position. */
  ghost predicate FullFrames(replies: seq<seq<Byte>>, cs: seq<Chunk>)
  {
    |replies| <= |cs| && forall i :: 0 <= i < |replies| ==> |replies[i]| == cs[i].size + 2
  }

  lemma FullFramesSnoc(replies: seq<seq<Byte>>, r: seq<Byte>, cs: seq<Chunk>)
    requires FullFrames(replies, cs) && |replies| < |cs| && |r| == cs[|replies|].size + 2
    ensures FullFrames(replies + [r], cs)
  {
  }

  /** One more successful block read adds one full frame to the replies. */
  lemma ReadStep(port: Port, log: seq<Request>, cmds: seq<Command>, cs: seq<Chunk>, size: nat)
    requires var x0 := Run(port, log, Plan(cmds));
      x0.ok ==> FullFrames(x0.replies, cs) && |x0.replies| < |cs| && cs[|x0.replies|].size == size
    ensures var x0, x := Run(port, log, Plan(cmds)), Run(port, log, Plan(cmds + [ReadBlock(size)]));
      x.ok ==> x0.ok && FullFrames(x.replies, cs) && |x.replies| == |x0.replies| + 1
  {
    var c := ReadBlock(size);
    RunPlanSnoc(port, log, cmds, c);
    var x0 := Run(port, log, Plan(cmds));
    if x0.ok {
      TransferReplies(port, x0.log, c);
      var y := Run(port, x0.log, Transfer(c));
      if y.ok {
        FullFramesSnoc(x0.replies, y.replies[0], cs);
        assert y.replies == [y.replies[0]];
      }
    }
  }

  /** The length announcement of a dump brings back no reply. */
  lemma DumpAnnounceReplies(port: Port, log: seq<Request>, fwsz: nat)
    ensures Run(port, log, Plan(DumpCommands(fwsz)[..1])).replies == []
  {
    var c := DumpCommands(fwsz)[0];
    assert DumpCommands(fwsz)[..1] == [] + [c];
    RunPlanSnoc(port, log, [], c);
    TransferReplies(port, log, c);
  }

  /** `d` has the shape of a dump of `fwsz` bytes: the length announcement,
      then one block read per packet, in order. */
  ghost predicate DumpShaped(fwsz: nat, d: seq<Command>)
  {
    var cs := ChunkArray(fwsz);
    && |d| == |cs| + 1
    && d[0] == ReadBlockStart(ToU16(fwsz))
    && (forall i :: 0 <= i < |cs| ==> d[i + 1] == ReadBlock(cs[i].size))
  }

  /** The dump sequence, step by step. */
  lemma DumpOrder(fwsz: nat)
    ensures DumpShaped(fwsz, DumpCommands(fwsz))
  {
  }

  lemma DumpCommandsSnoc(fwsz: nat, k: nat)
    requires 0 < k <= |ChunkArray(fwsz)|
    ensures DumpCommands(fwsz)[..k + 1] == DumpCommands(fwsz)[..k] + [ReadBlock(ChunkArray(fwsz)[k - 1].size)]
  {
    var d := DumpCommands(fwsz);
    assert d[k] == ReadBlock(ChunkArray(fwsz)[k - 1].size);
  }

  /** After the first `k` block reads of a dump succeeded, there are `k`
      replies, each a full frame for its packet. */
  ghost predicate DumpedFrames(port: Port, log: seq<Request>, fwsz: nat, k: nat)
    requires k <= |ChunkArray(fwsz)|
  {
    var x := Run(port, log, Plan(DumpCommands(fwsz)[..k + 1]));
    x.ok ==> |x.replies| == k && FullFrames(x.replies, ChunkArray(fwsz))
  }

  lemma {:induction false} DumpPrefix(port: Port, log: seq<Request>, fwsz: nat, k: nat)
    requires k <= |ChunkArray(fwsz)|
    ensures DumpedFrames(port, log, fwsz, k)
  {
    if k == 0 {
      DumpAnnounceReplies(port, log, fwsz);
    } else {
      DumpPrefix(port, log, fwsz, k - 1);
      DumpPrefixStep(port, log, fwsz, k);
    }
  }

  lemma DumpPrefixStep(port: Port, log: seq<Request>, fwsz: nat, k: nat)
    requires 0 < k <= |ChunkArray(fwsz)| && DumpedFrames(port, log, fwsz, k - 1)
    ensures DumpedFrames(port, log, fwsz, k)
  {
    var cs, d := ChunkArray(fwsz), DumpCommands(fwsz);
    DumpCommandsSnoc(fwsz, k);
    ReadStep(port, log, d[..k], cs, cs[k - 1].size);
  }

  lemma FullFramesPrefix(rs: seq<seq<Byte>>, cs: seq<Chunk>, j: nat)
    requires FullFrames(rs, cs) && j <= |rs|
    ensures FullFrames(rs[..j], cs)
  {
    var pre := rs[..j];
    assert forall i :: 0 <= i < |pre| ==> pre[i] == rs[i];
  }

  /** Replies that are full frames for the first `k` packets rebuild the
      first `k` packets' worth of bytes. */
  lemma {:induction false} AssembleLength(rs: seq<seq<Byte>>, len: nat)
    requires FullFrames(rs, ChunkArray(len))
    ensures |Assemble(rs)| == Min(|rs| * PacketSize, len)
    decreases |rs|
  {
    if rs != [] {
      var cs, k := ChunkArray(len), |rs|;
      var init, last := rs[..k - 1], rs[k - 1];
      FullFramesPrefix(rs, cs, |rs| - 1);
      AssembleLength(init, len);
      ChunkAt(len, k - 1);
      assert |Assemble(init)| == cs[k - 1].address;
      assert |Payload(last)| == cs[k - 1].size;
      assert Assemble(rs) == Assemble(init) + Payload(last);
    }
  }

  /** Each full-frame reply lands in the span of its packet. */
  lemma AssembleSpan(rs: seq<seq<Byte>>, len: nat, i: nat)
    requires FullFrames(rs, ChunkArray(len)) && i < |rs|
    ensures var c := ChunkArray(len)[i];
      c.address + c.size <= |Assemble(rs)| && ChunkData(Assemble(rs), c) == Payload(rs[i])
  {
    var c := ChunkArray(len)[i];
    var a, p := Assemble(rs[..i]), Payload(rs[i]);
    AssembledUpTo(rs, len, i);
    AssembleStep(rs, i);
    SpanOfAppend(a, p, c);
    AssemblePrefix(rs, i + 1);
    SpanOfPrefix(Assemble(rs), a + p, c);
  }

  /** The replies before reply `i` rebuild the bytes before packet `i`, and
      reply `i` carries exactly packet `i`'s bytes. */
  lemma AssembledUpTo(rs: seq<seq<Byte>>, len: nat, i: nat)
    requires FullFrames(rs, ChunkArray(len)) && i < |rs|
    ensures var c := ChunkArray(len)[i];
      |Assemble(rs[..i])| == c.address && |Payload(rs[i])| == c.size
  {
    FullFramesPrefix(rs, ChunkArray(len), i);
    AssembleLength(rs[..i], len);
    ChunkAt(len, i);
  }

  lemma AssembleStep(rs: seq<seq<Byte>>, i: nat)
    requires i < |rs|
    ensures Assemble(rs[..i + 1]) == Assemble(rs[..i]) + Payload(rs[i])
  {
    var pre := rs[..i + 1];
    assert pre[..i] == rs[..i] && pre[i] == rs[i];
  }

  /** The bytes the first `j` replies assemble to begin the bytes all of them assemble to. */
  lemma {:induction false} AssemblePrefix(rs: seq<seq<Byte>>, j: nat)
    requires j <= |rs|
    ensures Assemble(rs[..j]) <= Assemble(rs)
    decreases |rs| - j
  {
    if j < |rs| {
      var init := rs[..|rs| - 1];
      assert rs[..j] == init[..j];
      AssemblePrefix(init, j);
      assert Assemble(rs) == Assemble(init) + Payload(rs[|rs| - 1]);
    } else {
      assert rs[..j] == rs;
    }
  }

  lemma AssembleSpans(rs: seq<seq<Byte>>, len: nat)
    requires FullFrames(rs, ChunkArray(len))
    ensures |Assemble(rs)| == Min(|rs| * PacketSize, len)
    ensures forall i :: 0 <= i < |rs| ==> ChunkData(Assemble(rs), ChunkArray(len)[i]) == Payload(rs[i])
  {
    AssembleLength(rs, len);
    forall i | 0 <= i < |rs|
      ensures var c := ChunkArray(len)[i];
        c.address + c.size <= |Assemble(rs)| && ChunkData(Assemble(rs), c) == Payload(rs[i])
    {
      AssembleSpan(rs, len, i);
    }
  }

  lemma SpanOfAppend(a: seq<Byte>, p: seq<Byte>, c: Chunk)
    requires c.address + c.size <= |a| || (c.address == |a| && c.size == |p|)
    ensures c.address + c.size <= |a| ==> ChunkData(a + p, c) == ChunkData(a, c)
    ensures c.address == |a| && c.size == |p| ==> ChunkData(a + p, c) == p
  {
    if c.address == |a| && c.size == |p| {
      assert (a + p)[|a|..|a| + |p|] == p;
    }
  }

  lemma SpanOfPrefix(big: seq<Byte>, small: seq<Byte>, c: Chunk)
    requires small <= big && c.address + c.size <= |small|
    ensures ChunkData(big, c) == ChunkData(small, c)
  {
    assert big[..|small|] == small;
    assert big[c.address..c.address + c.size] == big[..|small|][c.address..c.address + c.size];
  }

  /** A reply for every packet assembles into the whole image. */
  lemma AssembleCovers(rs: seq<seq<Byte>>, len: nat)
    requires FullFrames(rs, ChunkArray(len)) && |rs| == |ChunkArray(len)|
    ensures |Assemble(rs)| == len
    ensures forall i :: 0 <= i < |rs| ==> ChunkData(Assemble(rs), ChunkArray(len)[i]) == Payload(rs[i])
  {
    AssembleSpans(rs, len);
    ChunkArrayCovers(len);
  }

  lemma DumpReadsImage(port: Port, log: seq<Request>, fwsz: nat)
    ensures var cs, x := ChunkArray(fwsz), Run(port, log, Plan(DumpCommands(fwsz)));
      x.ok ==>
        && |Assemble(x.replies)| == fwsz
        && |x.replies| == |cs|
        && forall i :: 0 <= i < |cs| ==>
             ChunkData(Assemble(x.replies), cs[i]) == Payload(x.replies[i])
  {
    var cs, d := ChunkArray(fwsz), DumpCommands(fwsz);
    var x := Run(port, log, Plan(d));
    assert x.ok ==> |x.replies| == |cs| && FullFrames(x.replies, cs) by {
      DumpOrder(fwsz);
      assert d[..|cs| + 1] == d;
      DumpPrefix(port, log, fwsz, |cs|);
    }
    if x.ok {
      AssembleCovers(x.replies, fwsz);
    }
  }

  /** The length a dump announces is the total of the packets it reads,
      while that fits in 16 bits. */
  lemma DumpAnnouncesItsLength(fwsz: nat)
    requires fwsz < 0x1_0000
    ensures DumpCommands(fwsz)[0].length == Sum(ChunkArray(fwsz)) == fwsz
  {
    ChunkArrayTiles(fwsz);
  }

  // ---- write_firmware ----

  /** `cmds` has the shape of the write sequence for `fw`: erase, announce
      the length, the first pass (its first packet corrupted), then the length
      again and the first packet as it is in the image. */
  ghost predicate WriteShaped(fw: seq<Byte>, cmds: seq<Command>)
    requires |fw| > 0
  {
    var cs, len := ChunkArray(|fw|), ToU16(|fw|);
    && |cs| > 0 && |cmds| == |cs| + 4
    && cmds[0] == Erase
    && cmds[1] == WriteBlockStart(len) && cmds[|cs| + 2] == WriteBlockStart(len)
    && cmds[2] == WriteBlock(Corrupt(FirstChunk(fw)))
    && (forall i :: 1 <= i < |cs| ==> cmds[i + 2] == WriteBlock(ChunkData(fw, cs[i])))
    && cmds[|cs| + 3] == WriteBlock(FirstChunk(fw))
  }

  /** The write sequence, step by step. */
  lemma WriteOrder(fw: seq<Byte>)
    requires |fw| > 0
    ensures WriteShaped(fw, WriteCommands(fw))
  {
    var cs, len := ChunkArray(|fw|), ToU16(|fw|);
    var a, p, b := [Erase, WriteBlockStart(len)], FirstPass(fw), [WriteBlockStart(len), WriteBlock(FirstChunk(fw))];
    assert WriteCommands(fw) == a + p + b;
    assert |p| == |cs|;
    forall i | 1 <= i < |cs|
      ensures (a + p + b)[i + 2] == WriteBlock(ChunkData(fw, cs[i]))
    {
      assert (a + p + b)[i + 2] == p[i];
    }
    assert (a + p + b)[2] == p[0];
  }

  /** The corrupted first packet differs from the image exactly when the
      image's first byte is not already 0x00. */
  lemma CorruptionVisible(fw: seq<Byte>)
    requires |fw| > 0
    ensures Corrupt(FirstChunk(fw)) != FirstChunk(fw) <==> fw[0] != 0x00
  {
    var chk0 := FirstChunk(fw);
    if fw[0] != 0x00 {
      assert Corrupt(chk0)[0] != chk0[0];
    }
  }

  /** The bytes a command sequence writes, in order. */
  function WrittenData(cmds: seq<Command>): seq<Byte>
  {
    if cmds == [] then []
    else
      var c := cmds[|cmds| - 1];
      WrittenData(cmds[..|cmds| - 1]) + (if c.WriteBlock? then c.data else [])
  }

  lemma {:induction false} WrittenDataAppend(a: seq<Command>, b: seq<Command>)
    ensures WrittenData(a + b) == WrittenData(a) + WrittenData(b)
    decreases |b|
  {
    if b == [] {
      assert a + b == a;
    } else {
      assert (a + b)[..|a + b| - 1] == a + b[..|b| - 1];
      WrittenDataAppend(a, b[..|b| - 1]);
    }
  }

  lemma WrittenDataOne(c: Command)
    ensures WrittenData([c]) == if c.WriteBlock? then c.data else []
  {
    assert [c][..0] == [];
  }

  lemma {:induction false} FirstPassPrefix(fw: seq<Byte>, k: nat)
    requires 0 < |fw| && k <= |ChunkArray(|fw|)|
    ensures var cs, z := ChunkArray(|fw|), fw[0 := 0x00];
      WrittenData(FirstPass(fw)[..k]) == Join(z, cs[..k])
  {
    var cs, z, p := ChunkArray(|fw|), fw[0 := 0x00], FirstPass(fw);
    if k > 0 {
      FirstPassPrefix(fw, k - 1);
      assert p[..k][..k - 1] == p[..k - 1];
      assert cs[..k][..k - 1] == cs[..k - 1];
      FirstPassAt(fw, k - 1);
    }
  }

  /** Packet `i` of the first pass is chunk `i` of the image with its first byte zeroed. */
  lemma FirstPassAt(fw: seq<Byte>, i: nat)
    requires 0 < |fw| && i < |ChunkArray(|fw|)|
    ensures var cs := ChunkArray(|fw|);
      FirstPass(fw)[i] == WriteBlock(ChunkData(fw[0 := 0x00], cs[i]))
  {
    var cs, z := ChunkArray(|fw|), fw[0 := 0x00];
    if i == 0 {
      assert ChunkData(z, cs[0]) == Corrupt(ChunkData(fw, cs[0]));
    } else {
      ChunkAt(|fw|, i);
      assert ChunkData(z, cs[i]) == ChunkData(fw, cs[i]);
    }
  }

  /** The first pass writes the image with its first byte zeroed. */
  lemma FirstPassWritesImage(fw: seq<Byte>)
    requires |fw| > 0
    ensures WrittenData(FirstPass(fw)) == fw[0 := 0x00]
  {
    var cs, z, p := ChunkArray(|fw|), fw[0 := 0x00], FirstPass(fw);
    FirstPassPrefix(fw, |cs|);
    JoinChunks(z);
    assert p[..|cs|] == p && cs[..|cs|] == cs;
  }

  /** Over the whole sequence, the first packet is then written again as it
      is in the image, after the zeroed image. */
  lemma WriteCommandsWrite(fw: seq<Byte>)
    requires |fw| > 0
    ensures WrittenData(WriteCommands(fw)) == fw[0 := 0x00] + FirstChunk(fw)
  {
    var len, chk0 := ToU16(|fw|), FirstChunk(fw);
    assert WriteCommands(fw) == [Erase, WriteBlockStart(len)] + FirstPass(fw) + [WriteBlockStart(len), WriteBlock(chk0)];
    FirstPassWritesImage(fw);
    WrittenDataBracket(len, FirstPass(fw), chk0);
  }

  lemma WrittenDataBracket(len: U16, p: seq<Command>, chk0: seq<Byte>)
    ensures WrittenData([Erase, WriteBlockStart(len)] + p + [WriteBlockStart(len), WriteBlock(chk0)])
         == WrittenData(p) + chk0
  {
    var a, b := [Erase, WriteBlockStart(len)], [WriteBlockStart(len), WriteBlock(chk0)];
    WrittenDataOne(Erase);
    WrittenDataOne(WriteBlockStart(len));
    WrittenDataOne(WriteBlock(chk0));
    WrittenDataAppend([Erase], [WriteBlockStart(len)]);
    WrittenDataAppend([WriteBlockStart(len)], [WriteBlock(chk0)]);
    WrittenDataAppend(a, p);
    WrittenDataAppend(a + p, b);
  }

  /** The length announced (twice) is the image length, and so the number of
      bytes the first pass writes, while that fits in 16 bits. */
  lemma WriteAnnouncesItsLength(fw: seq<Byte>)
    requires 0 < |fw| < 0x1_0000
    ensures var cs, cmds := ChunkArray(|fw|), WriteCommands(fw);
      cmds[1] == cmds[|cs| + 2] == WriteBlockStart(|fw|)
      && |WrittenData(FirstPass(fw))| == |fw|
  {
    WriteOrder(fw);
    FirstPassWritesImage(fw);
  }

  /** The write sequence contains no block read, so a failure anywhere in it
      ends `write_firmware` before any readback is attempted. */
  lemma {:induction false} WritePlanHasNoRead(cmds: seq<Command>)
    requires forall c :: c in cmds ==> !c.ReadBlock?
    ensures forall r :: r in Plan(cmds) ==> !r.GetFeature?
    decreases |cmds|
  {
    if cmds != [] {
      var c := cmds[|cmds| - 1];
      assert c in cmds;
      WritePlanHasNoRead(cmds[..|cmds| - 1]);
    }
  }

  lemma WriteCommandsHaveNoRead(fw: seq<Byte>)
    requires |fw| > 0
    ensures forall r :: r in Plan(WriteCommands(fw)) ==> !r.GetFeature?
  {
    WritePlanHasNoRead(WriteCommands(fw));
  }

  /** A 4096-byte image: erase, announce 4096, the first half corrupted, the
      second half, announce 4096 again, then the first half as it is. */
  lemma WriteTwoPackets(fw: seq<Byte>)
    requires |fw| == 4096
    ensures WriteCommands(fw) ==
      [Erase, WriteBlockStart(4096), WriteBlock(fw[..2048][0 := 0x00]), WriteBlock(fw[2048..]),
       WriteBlockStart(4096), WriteBlock(fw[..2048])]
  {
    var cs, p := ChunkArray(4096), FirstPass(fw);
    assert |cs| == 2 && cs[1] == Chunk(1, 2048, 2048);
    assert fw[2048..4096] == fw[2048..];
    assert p == [p[0], p[1]];
  }

  // ---- the whole of write_firmware ----

  /** What one `write_firmware` comes to: its outcome and the log after it. */
  datatype Attempt = Attempt(outcome: Outcome, log: seq<Request>)

  /** Write the image, then read back `fwsz` bytes and compare. A failed
      write ends the attempt before the readback; a failed readback fails it. */
  function Flash(port: Port, log: seq<Request>, fw: seq<Byte>, fwsz: nat): (a: Attempt)
    requires |fw| > 0
    ensures a.outcome == Pass ==> |fw| == fwsz
  {
    var w := Run(port, log, Plan(WriteCommands(fw)));
    if !w.ok then Attempt(Fail(TransferFailed), w.log)
    else
      var d := Run(port, w.log, Plan(DumpCommands(fwsz)));
      if !d.ok then Attempt(Fail(TransferFailed), d.log)
      else
        DumpReadsImage(port, w.log, fwsz);
        Attempt(Compare(fw, Assemble(d.replies)), d.log)
  }

  /** A flash passes exactly when every request succeeded and the readback is
      the image byte for byte; since the readback is `fwsz` bytes long, only
      an image of exactly that size can pass. */
  lemma FlashPasses(port: Port, log: seq<Request>, fw: seq<Byte>, fwsz: nat)
    requires |fw| > 0
    ensures var w := Run(port, log, Plan(WriteCommands(fw)));
      var d := Run(port, w.log, Plan(DumpCommands(fwsz)));
      Flash(port, log, fw, fwsz).outcome == Pass <==> w.ok && d.ok && Assemble(d.replies) == fw
    ensures Flash(port, log, fw, fwsz).outcome == Pass ==> |fw| == fwsz
  {
    var w := Run(port, log, Plan(WriteCommands(fw)));
    if w.ok {
      DumpReadsImage(port, w.log, fwsz);
    }
  }

  /** The log of a flash is that of running the write and the readback as one plan. */
  lemma FlashRunsOnePlan(port: Port, log: seq<Request>, fw: seq<Byte>, fwsz: nat)
    requires |fw| > 0
    ensures Flash(port, log, fw, fwsz).log == Run(port, log, Plan(WriteCommands(fw) + DumpCommands(fwsz))).log
    ensures Flash(port, log, fw, fwsz).outcome != Fail(TransferFailed) <==>
      Run(port, log, Plan(WriteCommands(fw) + DumpCommands(fwsz))).ok
  {
    PlanAppend(WriteCommands(fw), DumpCommands(fwsz));
    RunAppend(port, log, Plan(WriteCommands(fw)), Plan(DumpCommands(fwsz)));
    var w := Run(port, log, Plan(WriteCommands(fw)));
    if w.ok {
      var d := Run(port, w.log, Plan(DumpCommands(fwsz)));
      if d.ok {
        assert Compare(fw, Assemble(d.replies)) != Fail(TransferFailed);
      }
    }
  }

  /** The first failed request ends a flash: it is the last request made, every
      one before it succeeded, and the requests made are the start of the
      write-then-readback plan. */
  lemma FlashStopsAtFirstFailure(port: Port, log: seq<Request>, fw: seq<Byte>, fwsz: nat)
    requires |fw| > 0
    ensures var a, plan := Flash(port, log, fw, fwsz), Plan(WriteCommands(fw) + DumpCommands(fwsz));
      && |log| <= |a.log| <= |log| + |plan|
      && a.log == log + plan[..|a.log| - |log|]
      && (forall k :: |log| < k < |a.log| ==> Perform(port, a.log[..k]).Some?)
      && (a.outcome == Fail(TransferFailed) ==> |log| < |a.log| && Perform(port, a.log).None?)
      && (a.outcome != Fail(TransferFailed) ==> a.log == log + plan)
  {
    var plan := Plan(WriteCommands(fw) + DumpCommands(fwsz));
    FlashRunsOnePlan(port, log, fw, fwsz);
    RunStopsAtFirstFailure(port, log, plan);
  }

  /** What the host's requests carry during a flash: the write commands and then
      the readback commands, in order, up to the first failure; all of them
      when no transfer failed. */
  lemma FlashSends(port: Port, log: seq<Request>, fw: seq<Byte>, fwsz: nat)
    requires |fw| > 0
    ensures var a := Flash(port, log, fw, fwsz);
      |log| <= |a.log| && Decode(a.log[|log|..]) <= WriteCommands(fw) + DumpCommands(fwsz)
    ensures var a := Flash(port, log, fw, fwsz);
      a.outcome != Fail(TransferFailed) ==> Decode(a.log[|log|..]) == WriteCommands(fw) + DumpCommands(fwsz)
  {
    var cmds := WriteCommands(fw) + DumpCommands(fwsz);
    FlashStopsAtFirstFailure(port, log, fw, fwsz);
    var a := Flash(port, log, fw, fwsz);
    var m := |a.log| - |log|;
    assert a.log[|log|..] == Plan(cmds)[..m];
    DecodePlanPrefix(cmds, m);
    if a.outcome != Fail(TransferFailed) {
      DecodePlan(cmds);
      assert Plan(cmds)[..m] == Plan(cmds);
    }
  }
}
