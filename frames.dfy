/** Report codec of the HaiLuck keyboard controller: the 6-byte short frames
    and the `data_sz + 2` long frames the host builds for HID feature
    reports. A Set_Report sends its frame to the controller; a Get_Report
    sends only its report number and length, and its frame stays in the
    host's buffer until the reply overwrites it. */
module Frames {

  type Byte = b: int | 0 <= b < 0x100

  /** The range of a C `guint16`. */
  type U16 = n: int | 0 <= n < 0x1_0000

  /** Report IDs: byte 0 of every frame, and the HID report number it is sent on. */
  const ReportIdShort: Byte := 0x05
  const ReportIdLong: Byte := 0x06

  /** Opcodes: byte 1 of a frame. */
  const CmdErase: Byte := 0x45
  const CmdReadBlockStart: Byte := 0x52
  const CmdWriteBlockStart: Byte := 0x57
  const CmdReadBlock: Byte := 0x72
  const CmdWriteBlock: Byte := 0x77

  /** The raw detach and attach codes, and the erase unlock pattern. */
  const DetachCode: Byte := 0x75
  const AttachCode: Byte := 0x55
  const EraseMagic: Byte := 0x45

  /** C's implicit conversion of a `gsize` argument to a `guint16` parameter. */
  function ToU16(n: nat): (r: U16)
    ensures n < 0x1_0000 ==> r == n
    ensures (n - r) % 0x1_0000 == 0
  {
    n % 0x1_0000
  }

  /** `length & 0xFF`, on a non-negative 16-bit value */
  function LowByte(length: U16): Byte
  {
    length % 0x100
  }

  /** `(length >> 8) & 0xFF`, on a non-negative 16-bit value */
  function HighByte(length: U16): Byte
  {
    length / 0x100
  }

  /** The 16-bit little-endian length carried in bytes 4 and 5 of a short frame. */
  function DecodeLength(frame: seq<Byte>): (length: U16)
    requires |frame| == 6
    ensures LowByte(length) == frame[4] && HighByte(length) == frame[5]
  {
    frame[4] as int + 0x100 * frame[5] as int
  }

  /** Length 0x1234 travels as 0x34 in byte 4 and 0x12 in byte 5. */
  lemma LengthLittleEndianExample()
    ensures LowByte(0x1234) == 0x34 && HighByte(0x1234) == 0x12
  {
  }

  function Zeros(n: nat): (z: seq<Byte>)
    ensures |z| == n && forall i :: 0 <= i < n ==> z[i] == 0
  {
    seq(n, _ => 0)
  }

  // Short frames: fixed 6-byte array initialisers.

  function DetachFrame(): (r: seq<Byte>)
    ensures |r| == 6 && Parse(ReportIdShort, r) == Some(Detach)
  {
    [ReportIdShort, DetachCode, 0x00, 0x00, 0x00, 0x00]
  }

  function AttachFrame(): (r: seq<Byte>)
    ensures |r| == 6 && Parse(ReportIdShort, r) == Some(Attach)
  {
    [ReportIdShort, AttachCode, AttachCode, AttachCode, AttachCode, AttachCode]
  }

  function EraseFrame(): (r: seq<Byte>)
    ensures |r| == 6 && Parse(ReportIdShort, r) == Some(Erase)
  {
    [ReportIdShort, CmdErase, EraseMagic, EraseMagic, EraseMagic, EraseMagic]
  }

  function ReadBlockStartFrame(length: U16): (r: seq<Byte>)
    ensures |r| == 6 && r[..4] == [ReportIdShort, CmdReadBlockStart, 0, 0]
    ensures DecodeLength(r) == length
  {
    [ReportIdShort, CmdReadBlockStart, 0x00, 0x00, LowByte(length), HighByte(length)]
  }

  function WriteBlockStartFrame(length: U16): (r: seq<Byte>)
    ensures |r| == 6 && r[..4] == [ReportIdShort, CmdWriteBlockStart, 0, 0]
    ensures DecodeLength(r) == length
  {
    [ReportIdShort, CmdWriteBlockStart, 0x00, 0x00, LowByte(length), HighByte(length)]
  }

  // Long frames: a 2-byte header, then the payload from offset 2.

  /** The buffer the host prepares for a Get_Report of `size` bytes: the
      header, then zeros. Only its report number and length go to the
      controller; the reply overwrites all of it. */
  function ReadBlockRequest(size: nat): (r: seq<Byte>)
    ensures |r| == size + 2 && r[0] == ReportIdLong && r[1] == CmdReadBlock
    ensures Payload(r) == Zeros(size)
  {
    [ReportIdLong, CmdReadBlock] + Zeros(size)
  }

  function WriteBlockFrame(data: seq<Byte>): (r: seq<Byte>)
    ensures |r| == |data| + 2 && r[0] == ReportIdLong && r[1] == CmdWriteBlock
    ensures Payload(r) == data
  {
    [ReportIdLong, CmdWriteBlock] + data
  }

  /** The bytes of a long frame after its 2-byte header. */
  function Payload(frame: seq<Byte>): (p: seq<Byte>)
    ensures |frame| >= 2 ==> |p| == |frame| - 2
  {
    if |frame| < 2 then [] else frame[2..]
  }

  /** Every request the host builds a frame for. */
  datatype Command =
    | Detach
    | Attach
    | Erase
    | ReadBlockStart(length: U16)
    | WriteBlockStart(length: U16)
    | ReadBlock(size: nat)
    | WriteBlock(data: seq<Byte>)
  {
    predicate IsShort() { !ReadBlock? && !WriteBlock? }
  }

  /** The HID report number a command is sent on: that of its report ID. */
  function ReportNumber(c: Command): (n: Byte)
    ensures n == (if c.IsShort() then ReportIdShort else ReportIdLong)
  {
    Frame(c)[0]
  }

  /** The frame the host puts on the wire for a command. */
  function Frame(c: Command): (r: seq<Byte>)
    ensures |r| == (if c.IsShort() then 6 else 2 + |Payload(r)|)
    ensures r[0] == (if c.IsShort() then ReportIdShort else ReportIdLong)
  {
    match c
    case Detach => DetachFrame()
    case Attach => AttachFrame()
    case Erase => EraseFrame()
    case ReadBlockStart(length) => ReadBlockStartFrame(length)
    case WriteBlockStart(length) => WriteBlockStartFrame(length)
    case ReadBlock(size) => ReadBlockRequest(size)
    case WriteBlock(data) => WriteBlockFrame(data)
  }

  /** The command a frame on a report number describes. For a Set_Report
      this is how the controller reads the frame it receives; for a
      Get_Report it is the request the host's buffer describes, which the
      controller knows only by report number and length. */
  function Parse(report: Byte, frame: seq<Byte>): Option<Command>
  {
    if |frame| < 2 || frame[0] != report then None
    else if report == ReportIdShort && |frame| == 6 then
      var cmd, tail := frame[1], frame[2..];
      if cmd == DetachCode && tail == [0, 0, 0, 0] then Some(Detach)
      else if cmd == AttachCode && tail == [AttachCode, AttachCode, AttachCode, AttachCode] then Some(Attach)
      else if cmd == CmdErase && tail == [EraseMagic, EraseMagic, EraseMagic, EraseMagic] then Some(Erase)
      else if cmd == CmdReadBlockStart && tail[..2] == [0, 0] then Some(ReadBlockStart(DecodeLength(frame)))
      else if cmd == CmdWriteBlockStart && tail[..2] == [0, 0] then Some(WriteBlockStart(DecodeLength(frame)))
      else None
    else if report == ReportIdLong then
      if frame[1] == CmdWriteBlock then Some(WriteBlock(frame[2..]))
      else if frame[1] == CmdReadBlock && frame[2..] == Zeros(|frame| - 2) then Some(ReadBlock(|frame| - 2))
      else None
    else None
  }

  datatype Option<T> = None | Some(value: T)

  /** A frame describes a command exactly when it is that command's frame
      on that command's report number. */
  lemma FrameIff(report: Byte, frame: seq<Byte>, c: Command)
    ensures Parse(report, frame) == Some(c) <==> report == ReportNumber(c) && frame == Frame(c)
  {
    if Parse(report, frame) == Some(c) {
      FrameParse(report, frame, c);
    } else if report == ReportNumber(c) && frame == Frame(c) {
      ParseFrame(c);
    }
  }

  /** Every command's frame is read back as that command. */
  lemma ParseFrame(c: Command)
    ensures Parse(ReportNumber(c), Frame(c)) == Some(c)
  {
    match c
    case ReadBlockStart(length) =>
      assert Frame(c)[2..][..2] == [0, 0];
    case WriteBlockStart(length) =>
      assert Frame(c)[2..][..2] == [0, 0];
    case WriteBlock(data) =>
      assert Frame(c)[2..] == data;
    case ReadBlock(size) =>
      assert Frame(c)[2..] == Zeros(size);
    case _ =>
  }

  /** A frame that describes a command is the frame of exactly that command, on its report. */
  lemma FrameParse(report: Byte, frame: seq<Byte>, c: Command)
    requires Parse(report, frame) == Some(c)
    ensures report == ReportNumber(c) && frame == Frame(c)
  {
    if c.IsShort() {
      assert report == ReportIdShort && |frame| == 6;
      var tail := frame[2..];
      assert frame == [frame[0], frame[1]] + tail;
      assert tail[..2] == [tail[0], tail[1]] && frame[4] == tail[2] && frame[5] == tail[3];
      match c
      case ReadBlockStart(length) =>
        assert tail == [0, 0, LowByte(length), HighByte(length)];
      case WriteBlockStart(length) =>
        assert tail == [0, 0, LowByte(length), HighByte(length)];
      case _ =>
    } else {
      assert frame == [frame[0], frame[1]] + frame[2..];
    }
  }
}
