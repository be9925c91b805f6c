/** The bit-level reader: a shift register, a rolling CRC and the distance from
    the index pulse, all advanced one cell at a time. */
module StreamReader {
  import opened Bits
  import opened Crc
  import opened Mfm

  /** The register after p cells: the last 32 of them, zeros before the start. */
  function WordAt(cells: seq<bool>, p: nat): (w: seq<bool>)
    requires p <= |cells|
    ensures |w| == 32
  {
    (Zeros(32) + cells)[p..p + 32]
  }

  lemma WordStep(cells: seq<bool>, p: nat)
    requires p < |cells|
    ensures WordAt(cells, p + 1) == WordAt(cells, p)[1..] + [cells[p]]
  {
  }

  /** Once 32 cells have been read the register shows exactly those. */
  lemma WordIsLast32(cells: seq<bool>, p: nat)
    requires 32 <= p <= |cells|
    ensures WordAt(cells, p) == cells[p - 32..p]
  {
  }

  /** mfm_decode_word of the low half of the register, as a byte. */
  function LowByte(word: seq<bool>): byte
    requires |word| == 32
  {
    ByteOf(DataBits(word[16..]))
  }

  /** mfm_decode_word(word >> 16), as a byte. */
  function HighByte(word: seq<bool>): byte
    requires |word| == 32
  {
    ByteOf(DataBits(word[..16]))
  }

  /** Distance from the last index pulse, in cells, after p cells. */
  function OffsetAt(pulse: seq<bool>, p: nat): nat
    requires p <= |pulse|
  {
    if p == 0 || pulse[p - 1] then 0 else 1 + OffsetAt(pulse, p - 1)
  }

  lemma OffsetStep(pulse: seq<bool>, p: nat)
    requires p < |pulse|
    ensures OffsetAt(pulse, p + 1) == if pulse[p] then 0 else 1 + OffsetAt(pulse, p)
  {
  }

  /** Where the first index pulse behind p has just been seen; the end of the stream
      if there is none. */
  function IndexFrom(pulse: seq<bool>, p: nat): (q: nat)
    requires p <= |pulse|
    ensures p <= q <= |pulse|
    decreases |pulse| - p
  {
    if p == |pulse| then p else if pulse[p] then p + 1 else IndexFrom(pulse, p + 1)
  }

  lemma IndexStep(pulse: seq<bool>, p: nat)
    requires p < |pulse|
    ensures OffsetAt(pulse, p + 1) == 0 <==> pulse[p]
    ensures IndexFrom(pulse, p) == if pulse[p] then p + 1 else IndexFrom(pulse, p + 1)
  {
  }

  /** Length of the last complete revolution, in cells; len0 before the first. */
  function TrackLenAt(pulse: seq<bool>, p: nat, len0: nat): nat
    requires p <= |pulse|
  {
    if p == 0 then len0 else if pulse[p - 1] then OffsetAt(pulse, p - 1) + 1 else TrackLenAt(pulse, p - 1, len0)
  }

  lemma TrackLenStep(pulse: seq<bool>, p: nat, len0: nat)
    requires p < |pulse|
    ensures TrackLenAt(pulse, p + 1, len0)
         == if pulse[p] then OffsetAt(pulse, p) + 1 else TrackLenAt(pulse, p, len0)
  {
  }

  /** The bytes the reader packs from a run of cells. */
  function PackedBytes(cells: seq<bool>, n: nat): (raw: seq<byte>)
    requires |cells| == 8 * n
    ensures |raw| == n
  {
    seq(n, k requires 0 <= k < n => ByteOf(cells[8 * k..8 * k + 8]))
  }

  /** Byte k of the bytes packed from position from on. */
  function PackedAt(cells: seq<bool>, from: nat, k: nat): byte
    requires from + 8 * k + 8 <= |cells|
  {
    ByteOf(cells[from + 8 * k..from + 8 * k + 8])
  }

  lemma PackedRun(cells: seq<bool>, from: nat, n: nat, raw: seq<byte>)
    requires from + 8 * n <= |cells| && |raw| == n
    requires forall k | 0 <= k < n :: raw[k] == PackedAt(cells, from, k)
    ensures raw == PackedBytes(cells[from..from + 8 * n], n)
  {
    var run := cells[from..from + 8 * n];
    forall k | 0 <= k < n ensures raw[k] == PackedBytes(run, n)[k] {
      SliceOfSlice(cells, from, from + 8 * n, 8 * k, 8 * k + 8);
    }
  }

  /** The bytes the rolling CRC sees in a run of cells: one per 16 cells. */
  function CrcRun(cells: seq<bool>, crc: Reg): Reg
  {
    if |cells| < 16 then crc
    else
      var m := |cells| - 16;
      CrcByte(ByteOf(DataBits(cells[m..])), CrcRun(cells[..m], crc))
  }

  /** Over whole bytes the rolling CRC is the bit-serial CRC of the data bits. */
  lemma {:induction false} CrcRunIsBitSerial(cells: seq<bool>, crc: Reg)
    requires |cells| % 16 == 0
    ensures CrcRun(cells, crc) == CrcBits(DataBits(cells), crc)
  {
    hide *;
    if cells == [] {
      NoCells(crc);
    } else {
      var m := |cells| - 16;
      CrcRunIsBitSerial(cells[..m], crc);
      var d := DataBits(cells[m..]);
      assert |d| == 8;
      LastByteRun(cells, crc);
      BitsOfByte(d);
      CrcByteIsEightBits(ByteOf(d), CrcRun(cells[..m], crc));
      CrcBitsAppend(DataBits(cells[..m]), d, crc);
      DataBitsSplit(cells, m);
    }
  }

  lemma NoCells(crc: Reg)
    ensures CrcRun([], crc) == CrcBits(DataBits([]), crc)
  {
  }

  lemma LastByteRun(cells: seq<bool>, crc: Reg)
    requires cells != [] && |cells| % 16 == 0
    ensures var m := |cells| - 16;
            CrcRun(cells, crc) == CrcByte(ByteOf(DataBits(cells[m..])), CrcRun(cells[..m], crc))
  {
    hide CrcByte, ByteOf, DataBits;
  }

  /** The rolling CRC at position p, started at position from. */
  function CrcAt(cells: seq<bool>, from: nat, p: nat, seed: Reg): Reg
    requires from <= p <= |cells|
  {
    CrcRun(cells[from..p - (p - from) % 16], seed)
  }

  lemma CrcStep(cells: seq<bool>, from: nat, p: nat, seed: Reg)
    requires from <= p < |cells|
    ensures CrcAt(cells, from, p + 1, seed)
         == if (p - from) % 16 == 15 then CrcByte(LowByte(WordAt(cells, p + 1)), CrcAt(cells, from, p, seed))
            else CrcAt(cells, from, p, seed)
  {
    hide CrcRun, CrcByte, LowByte, WordAt;
    if (p - from) % 16 == 15 {
      CrcRunMore(cells, from, p + 1, seed);
    }
  }

  lemma CrcRunMore(cells: seq<bool>, from: nat, p: nat, seed: Reg)
    requires from + 16 <= p <= |cells|
    ensures CrcRun(cells[from..p], seed) == CrcByte(LowByte(WordAt(cells, p)), CrcRun(cells[from..p - 16], seed))
  {
    hide CrcByte;
    var run := cells[from..p];
    SliceOfSlice(cells, from, p, 0, |run| - 16);
    SliceOfSlice(cells, from, p, |run| - 16, |run|);
    assert WordAt(cells, p)[16..] == cells[p - 16..p];
  }

  lemma SixteenStep(n: nat)
    ensures (n + 1) % 16 == if n % 16 == 15 then 0 else n % 16 + 1
  {
  }

  lemma CrcStart(cells: seq<bool>, p: nat, seed: Reg)
    requires p <= |cells|
    ensures CrcAt(cells, p, p, seed) == seed
  {
  }

  class Stream {
    /** What the flux decoder will deliver, and where it sees an index pulse. */
    const cells: seq<bool>
    const pulse: seq<bool>
    /** The placeholder that stands for the track length after a reset. */
    const len0: nat
    var pos: nat

    var word: seq<bool>
    var crc: Reg
    var crcBitoff: nat
    var indexOffset: nat
    var trackLen: nat

    /** Where the rolling CRC was last started, and from which value. */
    ghost var crcFrom: nat
    ghost var crcSeed: Reg

    ghost predicate Valid()
      reads this
    {
      && |pulse| == |cells| && pos <= |cells|
      && word == WordAt(cells, pos)
      && indexOffset == OffsetAt(pulse, pos) && trackLen == TrackLenAt(pulse, pos, len0)
      && crcFrom <= pos && crcBitoff == (pos - crcFrom) % 16
      && crc == CrcAt(cells, crcFrom, pos, crcSeed)
    }

    /** A stream that has delivered nothing yet. */
    constructor (cells: seq<bool>, pulse: seq<bool>, len0: nat)
      requires |pulse| == |cells|
      ensures Valid() && this.cells == cells && this.pulse == pulse && this.len0 == len0 && pos == 0
    {
      this.cells := cells;
      this.pulse := pulse;
      this.len0 := len0;
      pos := 0;
      word := Zeros(32);
      crc, crcSeed := Zeros(16), Zeros(16);
      crcBitoff, crcFrom, indexOffset, trackLen := 0, 0, 0, len0;
      new;
      assert WordAt(cells, 0) == Zeros(32);
    }

    /** stream_reset: the source starts again, and the stream runs on to the first
        index pulse, the register filling up with the cells before it. */
    method Reset()
      requires Valid()
      modifies this
      ensures Valid() && pos == IndexFrom(pulse, 0)
    {
      hide CrcAt;
      pos, word := 0, Zeros(32);
      indexOffset, trackLen := 0, len0;
      crcBitoff, crcFrom, crcSeed := 0, 0, crc;
      CrcStart(cells, 0, crc);
      assert WordAt(cells, 0) == Zeros(32);
      NextIndex();
    }

    /** stream_next_bit: false at the end of the stream. */
    method NextBit() returns (ok: bool)
      requires Valid()
      modifies this
      ensures Valid()
      ensures ok == (old(pos) < |cells|)
      ensures pos == old(pos) + (if ok then 1 else 0)
      ensures crcFrom == old(crcFrom) && crcSeed == old(crcSeed)
    {
      hide WordAt, OffsetAt, TrackLenAt, CrcAt, CrcByte, LowByte;
      if pos == |cells| {
        return false;
      }
      OffsetStep(pulse, pos);
      TrackLenStep(pulse, pos, len0);
      CrcStep(cells, crcFrom, pos, crcSeed);
      SixteenStep(pos - crcFrom);
      indexOffset := indexOffset + 1;
      var b := cells[pos];
      if pulse[pos] {
        trackLen := indexOffset;
        indexOffset := 0;
      }
      WordStep(cells, pos);
      word := word[1..] + [b];
      crcBitoff := crcBitoff + 1;
      pos := pos + 1;
      if crcBitoff == 16 {
        crc := CrcByte(LowByte(word), crc);
        crcBitoff := 0;
      }
      return true;
    }

    /** stream_next_index. */
    method NextIndex()
      requires Valid()
      modifies this
      ensures Valid() && pos == IndexFrom(pulse, old(pos))
    {
      hide WordAt, OffsetAt, TrackLenAt, CrcAt;
      while true
        invariant Valid() && IndexFrom(pulse, pos) == IndexFrom(pulse, old(pos))
        decreases |cells| - pos
      {
        ghost var p := pos;
        var more := NextBit();
        if !more {
          break;
        }
        IndexStep(pulse, p);
        if indexOffset == 0 {
          break;
        }
      }
    }

    /** stream_next_bits. */
    method NextBits(n: nat) returns (ok: bool)
      requires Valid()
      modifies this
      ensures Valid()
      ensures ok == (old(pos) + n <= |cells|)
      ensures pos == if ok then old(pos) + n else |cells|
      ensures crcFrom == old(crcFrom) && crcSeed == old(crcSeed)
    {
      hide WordAt, OffsetAt, TrackLenAt, CrcAt;
      for i := 0 to n
        invariant Valid() && pos == old(pos) + i
        invariant crcFrom == old(crcFrom) && crcSeed == old(crcSeed)
      {
        var more := NextBit();
        if !more {
          return false;
        }
      }
      return true;
    }

    /** stream_next_bytes. */
    method NextBytes(dat: array<byte>, n: nat) returns (ok: bool)
      requires Valid() && n <= dat.Length
      modifies this, dat
      ensures Valid()
      ensures ok == (old(pos) + 8 * n <= |cells|)
      ensures pos == if ok then old(pos) + 8 * n else |cells|
      ensures ok ==> dat[..n] == PackedBytes(cells[old(pos)..old(pos) + 8 * n], n)
      ensures crcFrom == old(crcFrom) && crcSeed == old(crcSeed)
    {
      hide WordAt, OffsetAt, TrackLenAt, CrcAt, ByteOf;
      var from := pos;
      for i := 0 to n
        invariant Valid() && pos == from + 8 * i
        invariant forall k | 0 <= k < i :: dat[k] == PackedAt(cells, from, k)
        invariant crcFrom == old(crcFrom) && crcSeed == old(crcSeed)
      {
        var more := NextBits(8);
        if !more {
          return false;
        }
        WordLowCells(cells, pos);
        dat[i] := ByteOf(word[24..]);
      }
      PackedRun(cells, from, n, dat[..n]);
      return true;
    }

    /** stream_start_crc: the CRC of the two bytes in the register, then of
        every further byte. */
    method StartCrc()
      requires Valid()
      modifies this`crc, this`crcBitoff, this`crcFrom, this`crcSeed
      ensures Valid()
      ensures crcFrom == pos && crcSeed == CrcBytes([HighByte(word), LowByte(word)], Preset())
    {
      hide WordAt, OffsetAt, TrackLenAt, CrcAt, HighByte, LowByte;
      CrcStart(cells, pos, CrcBytes([HighByte(word), LowByte(word)], Preset()));
      crc := Crc16Ccitt([HighByte(word), LowByte(word)], Preset());
      crcBitoff := 0;
      crcFrom := pos;
      crcSeed := crc;
    }
  }

  lemma WordLowCells(cells: seq<bool>, p: nat)
    requires 8 <= p <= |cells|
    ensures WordAt(cells, p)[24..] == cells[p - 8..p]
  {
  }
}
