/** The split of an image into consecutive packets of at most 2048 bytes
    (`fu_chunk_array_new (data, len, 0x0, 0x0, 2048)`). */
module Chunks {
  import opened Frames

  const PacketSize: nat := 0x800

  /** One packet: its index, its offset in the image, and its length. */
  datatype Chunk = Chunk(idx: nat, address: nat, size: nat)

  function Min(a: int, b: int): int { if a <= b then a else b }

  /** The packets of a `len`-byte image, in order. */
  function ChunkArray(len: nat): (cs: seq<Chunk>)
    ensures forall i :: 0 <= i < |cs| ==> cs[i].address + cs[i].size <= len
  {
    seq((len + PacketSize - 1) / PacketSize,
        i requires 0 <= i && i * PacketSize < len =>
          Chunk(i, i * PacketSize, Min(PacketSize, len - i * PacketSize)))
  }

  /** Total length of a run of packets. */
  function Sum(cs: seq<Chunk>): nat
  {
    if cs == [] then 0 else Sum(cs[..|cs| - 1]) + cs[|cs| - 1].size
  }

  /** The packets cover [0, len) in order, with no gap and no overlap:
      each starts where the ones before it end, none is empty or longer
      than a packet, and together they are exactly `len` bytes long. */
  ghost predicate Tiles(cs: seq<Chunk>, len: nat)
  {
    && (forall i :: 0 <= i < |cs| ==> cs[i].idx == i && 0 < cs[i].size <= PacketSize)
    && (forall i :: 0 <= i < |cs| ==> cs[i].address == Sum(cs[..i]))
    && Sum(cs) == len
  }

  lemma {:induction false} ChunkArrayPrefixSum(len: nat, k: nat)
    requires k <= |ChunkArray(len)|
    ensures Sum(ChunkArray(len)[..k]) == Min(k * PacketSize, len)
  {
    var cs := ChunkArray(len);
    if k > 0 {
      ChunkArrayPrefixSum(len, k - 1);
      assert cs[..k][..k - 1] == cs[..k - 1];
    }
  }

  lemma ChunkArrayTiles(len: nat)
    ensures Tiles(ChunkArray(len), len)
  {
    var cs := ChunkArray(len);
    forall i | 0 <= i < |cs|
      ensures cs[i].idx == i && 0 < cs[i].size <= PacketSize && cs[i].address == Sum(cs[..i])
    {
      ChunkAt(len, i);
      ChunkArrayPrefixSum(len, i);
    }
    ChunkArrayPrefixSum(len, |cs|);
    ChunkArrayCovers(len);
    assert cs[..|cs|] == cs;
  }

  /** The packets reach the end of the image. */
  lemma ChunkArrayCovers(len: nat)
    ensures Min(|ChunkArray(len)| * PacketSize, len) == len
  {
    var n := (len + PacketSize - 1) / PacketSize;
    assert n * PacketSize + (len + PacketSize - 1) % PacketSize == len + PacketSize - 1;
  }

  /** Every packet but the last is full. */
  lemma ChunkArrayFull(len: nat, i: nat)
    requires i + 1 < |ChunkArray(len)|
    ensures ChunkArray(len)[i].size == PacketSize
  {
  }

  /** Where packet `i` starts and ends. */
  lemma ChunkAt(len: nat, i: nat)
    requires i < |ChunkArray(len)|
    ensures var c := ChunkArray(len)[i];
      && c.address == i * PacketSize < len
      && c.address + c.size == Min((i + 1) * PacketSize, len)
  {
  }

  /** The bytes of one packet. */
  function ChunkData<T>(fw: seq<T>, c: Chunk): (d: seq<T>)
    requires c.address + c.size <= |fw|
    ensures |d| == c.size
  {
    fw[c.address..c.address + c.size]
  }

  ghost predicate InBounds(cs: seq<Chunk>, len: nat)
  {
    forall i :: 0 <= i < |cs| ==> cs[i].address + cs[i].size <= len
  }

  /** The bytes of a run of packets, concatenated in order. */
  function Join<T>(fw: seq<T>, cs: seq<Chunk>): seq<T>
    requires InBounds(cs, |fw|)
  {
    if cs == [] then [] else Join(fw, cs[..|cs| - 1]) + ChunkData(fw, cs[|cs| - 1])
  }

  lemma {:induction false} JoinPrefix<T>(fw: seq<T>, cs: seq<Chunk>, k: nat)
    requires Tiles(cs, |fw|) && InBounds(cs, |fw|) && k <= |cs|
    ensures Sum(cs[..k]) <= |fw| && Join(fw, cs[..k]) == fw[..Sum(cs[..k])]
  {
    if k > 0 {
      JoinPrefix(fw, cs, k - 1);
      JoinStep(fw, cs, k);
    }
  }

  lemma JoinStep<T>(fw: seq<T>, cs: seq<Chunk>, k: nat)
    requires InBounds(cs, |fw|) && 0 < k <= |cs| && cs[k - 1].address == Sum(cs[..k - 1])
    requires Sum(cs[..k - 1]) <= |fw| && Join(fw, cs[..k - 1]) == fw[..Sum(cs[..k - 1])]
    ensures Sum(cs[..k]) <= |fw| && Join(fw, cs[..k]) == fw[..Sum(cs[..k])]
  {
    var c := cs[k - 1];
    var e := c.address + c.size;
    SumSnoc(cs, k);
    calc {
      Join(fw, cs[..k]);
    == { JoinSnoc(fw, cs, k); }
      Join(fw, cs[..k - 1]) + fw[c.address..e];
    == { SliceExtend(fw, Join(fw, cs[..k - 1]), c.address, e); }
      fw[..e];
    ==
      fw[..Sum(cs[..k])];
    }
  }

  lemma SumSnoc(cs: seq<Chunk>, k: nat)
    requires 0 < k <= |cs|
    ensures Sum(cs[..k]) == Sum(cs[..k - 1]) + cs[k - 1].size
  {
    assert cs[..k][..k - 1] == cs[..k - 1];
  }

  lemma JoinSnoc<T>(fw: seq<T>, cs: seq<Chunk>, k: nat)
    requires InBounds(cs, |fw|) && 0 < k <= |cs|
    ensures var c := cs[k - 1];
      Join(fw, cs[..k]) == Join(fw, cs[..k - 1]) + fw[c.address..c.address + c.size]
  {
    assert cs[..k][..k - 1] == cs[..k - 1];
  }

  /** A prefix followed by the slice after it is a longer prefix. */
  lemma SliceExtend<T>(s: seq<T>, pre: seq<T>, i: nat, j: nat)
    requires i <= j <= |s| && pre == s[..i]
    ensures pre + s[i..j] == s[..j]
  {
  }

  /** Splitting an image into its packets and joining them back gives the image. */
  lemma JoinChunks(fw: seq<Byte>)
    ensures InBounds(ChunkArray(|fw|), |fw|)
    ensures Join(fw, ChunkArray(|fw|)) == fw
  {
    var cs := ChunkArray(|fw|);
    ChunkArrayTiles(|fw|);
    JoinPrefix(fw, cs, |cs|);
    assert cs[..|cs|] == cs;
  }
}
