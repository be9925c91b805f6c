/** The data streams of an IPF image with bit-oriented chunks: what a block looks
    like in bytes, and how a reader takes it apart. */
module IpfFormat {
  import opened Bits

  const CHK_END: nat := 0
  const CHK_SYNC: nat := 1
  const CHK_DATA: nat := 2
  const CHK_GAP: nat := 3
  const CHK_FLAKY: nat := 5

  /** A run of cells of one kind; the bits of a flaky run are not stored. */
  datatype Chunk = Chunk(code: nat, count: nat, bits: seq<bool>)

  predicate ChunkOk(c: Chunk)
  {
    && (c.code == CHK_SYNC || c.code == CHK_DATA || c.code == CHK_FLAKY)
    && 0 < c.count < 0x1_0000_0000
    && |c.bits| == if c.code == CHK_FLAKY then 0 else c.count
  }

  ghost predicate ChunksOk(cs: seq<Chunk>)
  {
    forall i | 0 <= i < |cs| :: ChunkOk(cs[i])
  }

  // ----- writing

  /** The count, big endian, in as many bytes as it needs. */
  function CountBytes(n: nat): (bs: seq<byte>)
  {
    if n == 0 then [] else CountBytes(n / 256) + [n % 256]
  }

  function CeilBytes(n: nat): nat
  {
    (n + 7) / 8
  }

  function BitAt(bits: seq<bool>, i: nat): bool
  {
    i < |bits| && bits[i]
  }

  /** Eight bits from 8k on, zeros behind the last. */
  function Eight(bits: seq<bool>, k: nat): (s: seq<bool>)
    ensures |s| == 8 && forall j | 0 <= j < 8 :: s[j] == BitAt(bits, 8 * k + j)
  {
    seq(8, j requires 0 <= j < 8 => BitAt(bits, 8 * k + j))
  }

  /** Byte k of bits packed from the top, zeros behind them. */
  function PackByte(bits: seq<bool>, k: nat): byte
  {
    ByteOf(Eight(bits, k))
  }

  function Pack(bits: seq<bool>): (bs: seq<byte>)
    ensures |bs| == CeilBytes(|bits|)
  {
    seq(CeilBytes(|bits|), k requires 0 <= k < CeilBytes(|bits|) => PackByte(bits, k))
  }

  function Header(c: Chunk): (h: seq<byte>)
    requires ChunkOk(c)
    ensures |h| == 1 + |CountBytes(c.count)|
  {
    CountFits(c.count);
    [c.code + 32 * |CountBytes(c.count)|] + CountBytes(c.count)
  }

  function ChunkBytes(c: Chunk): seq<byte>
    requires ChunkOk(c)
  {
    Header(c) + Pack(c.bits)
  }

  function ChunksBytes(cs: seq<Chunk>): seq<byte>
    requires forall i | 0 <= i < |cs| :: ChunkOk(cs[i])
  {
    if cs == [] then [] else ChunksBytes(cs[..|cs| - 1]) + ChunkBytes(cs[|cs| - 1])
  }

  /** A block: its chunks and a zero byte. */
  function BlockBytes(cs: seq<Chunk>): seq<byte>
    requires forall i | 0 <= i < |cs| :: ChunkOk(cs[i])
  {
    ChunksBytes(cs) + [0]
  }

  lemma CountFits(n: nat)
    requires n < 0x1_0000_0000
    ensures |CountBytes(n)| <= 4
  {
    assert |CountBytes(n)| <= 1 + |CountBytes(n / 256)|;
    var a := n / 256;
    assert |CountBytes(a)| <= 1 + |CountBytes(a / 256)|;
    var b := a / 256;
    assert |CountBytes(b)| <= 1 + |CountBytes(b / 256)|;
    var c := b / 256;
    assert c < 256;
    assert |CountBytes(c)| <= 1;
  }

  // ----- reading

  function CountOf(bs: seq<byte>): nat
  {
    if bs == [] then 0 else 256 * CountOf(bs[..|bs| - 1]) + bs[|bs| - 1]
  }

  datatype Parsed = Malformed | Parsed(chunks: seq<Chunk>, rest: seq<byte>)

  /** Takes a block apart: code in the low five bits, length of the count in the
      high three, then the count and the payload, until a zero byte. */
  function Parse(d: seq<byte>): Parsed
    decreases |d|
  {
    if d == [] then Malformed
    else if d[0] == 0 then Parsed([], d[1..])
    else
      var code, n := d[0] % 32, d[0] / 32;
      if |d| < 1 + n then Malformed
      else
        var count := CountOf(d[1..1 + n]);
        var size := if code == CHK_FLAKY then 0 else CeilBytes(count);
        if |d| < 1 + n + size then Malformed
        else
          var bits := if code == CHK_FLAKY then [] else Unpack(d[1 + n..1 + n + size], count);
          var p := Parse(d[1 + n + size..]);
          if p.Malformed? then Malformed else Parsed([Chunk(code, count, bits)] + p.chunks, p.rest)
  }

  /** The first n bits of some bytes. */
  function Unpack(bs: seq<byte>, n: nat): (s: seq<bool>)
    requires |bs| == CeilBytes(n)
    ensures |s| == n
  {
    BytesBits(bs)[..n]
  }

  // ----- reading undoes writing

  lemma {:induction false} CountBack(n: nat)
    ensures CountOf(CountBytes(n)) == n
  {
    if n > 0 {
      CountBack(n / 256);
    }
  }

  lemma UnpackPack(bits: seq<bool>)
    ensures Unpack(Pack(bits), |bits|) == bits
  {
    hide ByteOf, ToBits;
    var p, n := Pack(bits), |bits|;
    forall i | 0 <= i < n ensures BytesBits(p)[i] == bits[i] {
      var k := i / 8;
      BytesBitsAt(p, k);
      var s := Eight(bits, k);
      BitsOfByte(s);
      assert BytesBits(p)[8 * k..8 * k + 8][i % 8] == BytesBits(p)[i];
      assert s[i % 8] == BitAt(bits, 8 * k + i % 8);
    }
  }

  lemma ChunkBack(c: Chunk, rest: seq<byte>)
    requires ChunkOk(c)
    ensures var p := Parse(rest);
            Parse(ChunkBytes(c) + rest) == if p.Malformed? then Malformed else Parsed([c] + p.chunks, p.rest)
  {
    hide CountBytes, CountOf, Unpack, Pack;
    var d, n := ChunkBytes(c) + rest, |CountBytes(c.count)|;
    CountFits(c.count);
    CountBack(c.count);
    UnpackPack(c.bits);
    assert d[0] == c.code + 32 * n && d[0] % 32 == c.code && d[0] / 32 == n;
    assert d[1..1 + n] == CountBytes(c.count);
    var size := if c.code == CHK_FLAKY then 0 else CeilBytes(c.count);
    assert |Pack(c.bits)| == size;
    assert d[1 + n..1 + n + size] == Pack(c.bits);
    assert d[1 + n + size..] == rest;
  }

  /** A block parses to the chunks it was written from, whatever follows it. */
  lemma BlockBack(cs: seq<Chunk>, rest: seq<byte>)
    requires ChunksOk(cs)
    ensures Parse(BlockBytes(cs) + rest) == Parsed(cs, rest)
  {
    assert BlockBytes(cs) + rest == ChunksBytes(cs) + ([0] + rest);
    assert Parse([0] + rest) == Parsed([], rest) by {
      assert ([0] + rest)[1..] == rest;
    }
    ChunksBack(cs, [0] + rest);
    assert cs + [] == cs;
  }

  lemma {:induction false} ChunksBack(cs: seq<Chunk>, tail: seq<byte>)
    requires ChunksOk(cs) && Parse(tail).Parsed?
    ensures Parse(ChunksBytes(cs) + tail) == Parsed(cs + Parse(tail).chunks, Parse(tail).rest)
    decreases |cs|
  {
    hide Parse, ChunkBytes;
    if cs == [] {
      assert ChunksBytes(cs) + tail == tail;
      assert cs + Parse(tail).chunks == Parse(tail).chunks;
    } else {
      var front, c := cs[..|cs| - 1], cs[|cs| - 1];
      ChunkBack(c, tail);
      ChunksBack(front, ChunkBytes(c) + tail);
      assert ChunksBytes(cs) + tail == ChunksBytes(front) + (ChunkBytes(c) + tail);
      assert cs + Parse(tail).chunks == front + ([c] + Parse(tail).chunks);
    }
  }
}
