/** The circular track buffer that format handlers append cells to. */
module TrackBuffer {
  import opened Bits
  import opened Crc
  import opened Mfm
  import opened Speed

  // ----- positions on a ring

  function Next(pos: nat, n: nat): nat
  {
    if pos + 1 >= n then 0 else pos + 1
  }

  function Advance(pos: nat, k: nat, n: nat): nat
  {
    if k == 0 then pos else Next(Advance(pos, k - 1, n), n)
  }

  /** Up to one full turn, advancing is addition with one wrap. */
  function Wrap(i: nat, n: nat): nat
  {
    if i < n then i else i - n
  }

  lemma {:induction false} AdvanceInRange(pos: nat, k: nat, n: nat)
    requires pos < n
    ensures Advance(pos, k, n) < n
    ensures k <= n ==> Advance(pos, k, n) == Wrap(pos + k, n)
  {
    if k > 0 {
      AdvanceInRange(pos, k - 1, n);
    }
  }

  /** A ring after the items xs have been written from pos onwards. */
  function Laid<T>(ring: seq<T>, pos: nat, xs: seq<T>): (r: seq<T>)
    requires pos < |ring|
    ensures |r| == |ring|
  {
    if xs == [] then ring
    else
      var m := |xs| - 1;
      AdvanceInRange(pos, m, |ring|);
      Laid(ring, pos, xs[..m])[Advance(pos, m, |ring|) := xs[m]]
  }

  lemma LaidUnfold<T>(ring: seq<T>, pos: nat, ys: seq<T>)
    requires pos < |ring| && ys != []
    ensures Advance(pos, |ys| - 1, |ring|) < |ring|
    ensures Laid(ring, pos, ys) == Laid(ring, pos, ys[..|ys| - 1])[Advance(pos, |ys| - 1, |ring|) := ys[|ys| - 1]]
  {
    AdvanceInRange(pos, |ys| - 1, |ring|);
  }

  lemma LaidStep<T>(ring: seq<T>, pos: nat, xs: seq<T>, x: T)
    requires pos < |ring|
    ensures Advance(pos, |xs|, |ring|) < |ring|
    ensures Laid(ring, pos, xs + [x]) == Laid(ring, pos, xs)[Advance(pos, |xs|, |ring|) := x]
  {
    hide Laid, Advance;
    LaidUnfold(ring, pos, xs + [x]);
    assert (xs + [x])[..|xs|] == xs;
  }

  /** How far position j lies ahead of pos. */
  function Ahead(pos: nat, j: nat, n: nat): nat
    requires pos < n && j < n
  {
    if j >= pos then j - pos else j + n - pos
  }

  /** As long as the items fit on the ring, item i is at its place and the
      cells that received no item are as before. */
  lemma {:induction false} LaidAt<T>(ring: seq<T>, pos: nat, xs: seq<T>)
    requires pos < |ring| && |xs| <= |ring|
    ensures forall j | 0 <= j < |ring| :: Laid(ring, pos, xs)[j] ==
              if Ahead(pos, j, |ring|) < |xs| then xs[Ahead(pos, j, |ring|)] else ring[j]
  {
    if xs != [] {
      var m := |xs| - 1;
      AdvanceInRange(pos, m, |ring|);
      LaidAt(ring, pos, xs[..m]);
    }
  }

  lemma {:induction false} AdvanceAdd(pos: nat, a: nat, b: nat, n: nat)
    ensures Advance(pos, a + b, n) == Advance(Advance(pos, a, n), b, n)
  {
    if b > 0 {
      AdvanceAdd(pos, a, b - 1, n);
    }
  }

  lemma {:induction false} LaidAppend<T>(ring: seq<T>, pos: nat, xs: seq<T>, ys: seq<T>)
    requires pos < |ring|
    ensures Advance(pos, |xs|, |ring|) < |ring|
    ensures Laid(ring, pos, xs + ys) == Laid(Laid(ring, pos, xs), Advance(pos, |xs|, |ring|), ys)
  {
    AdvanceInRange(pos, |xs|, |ring|);
    if ys == [] {
      assert xs + ys == xs;
    } else {
      var m := |ys| - 1;
      assert xs + ys == (xs + ys[..m]) + [ys[m]];
      LaidStep(ring, pos, xs + ys[..m], ys[m]);
      LaidAppend(ring, pos, xs, ys[..m]);
      AdvanceAdd(pos, |xs|, m, |ring|);
    }
  }

  // ----- the data bits a call emits, and in which order

  /** enum bitcell_encoding. */
  datatype Bc = Raw | Data | DataEven | DataOdd | DataEvenOdd | DataOddEven

  function EvenBits(v: seq<bool>): (d: seq<bool>)
    ensures |d| == |v| / 2
  {
    seq(|v| / 2, i requires 0 <= i < |v| / 2 => v[2 * i])
  }

  function Order(enc: Bc, v: seq<bool>): seq<bool>
  {
    match enc
    case Raw => v
    case Data => v
    case DataEven => EvenBits(v)
    case DataOdd => DataBits(v)
    case DataEvenOdd => EvenBits(v) + DataBits(v)
    case DataOddEven => DataBits(v) + EvenBits(v)
  }

  function EmittedCells(enc: Bc, prev: bool, v: seq<bool>): seq<bool>
  {
    if enc == Raw then v else Encode(prev, Order(enc, v))
  }

  /** The bits of v at indices of the given parity. */
  function Taps(v: seq<bool>, parity: nat): seq<bool>
  {
    if v == [] then []
    else Taps(v[..|v| - 1], parity) + (if (|v| - 1) % 2 == parity then [v[|v| - 1]] else [])
  }

  lemma {:induction false} TapsAreData(v: seq<bool>)
    ensures Taps(v, 1) == DataBits(v)
  {
    if v != [] {
      var w := v[..|v| - 1];
      TapsAreData(w);
      if |v| % 2 == 0 {
        assert DataBits(v) == DataBits(w) + [v[|v| - 1]];
      } else {
        assert DataBits(v) == DataBits(w);
      }
    }
  }

  /** The bits of an emitted word that enter the CRC: of a raw word, those at
      even distance from its end, which are its data cells. */
  function CrcInput(enc: Bc, v: seq<bool>): seq<bool>
  {
    if enc == Raw then Taps(v, (|v| + 1) % 2) else Order(enc, v)
  }

  /** x >> i. */
  function ShiftRight(x: nat, i: nat): nat
  {
    if i == 0 then x else ShiftRight(x / 2, i - 1)
  }

  lemma {:induction false} BitOf(x: nat, n: nat, j: nat)
    requires j < n
    ensures ToBits(x, n)[n - 1 - j] == (ShiftRight(x, j) % 2 == 1)
  {
    if j > 0 {
      BitOf(x / 2, n - 1, j - 1);
    }
  }

  function Repeat(sp: nat, n: nat): (s: seq<nat>)
    ensures |s| == n
  {
    seq(n, _ => sp)
  }

  lemma RepeatMore(sp: nat, a: nat, b: nat)
    ensures Repeat(sp, a) + Repeat(sp, b) == Repeat(sp, a + b)
  {
  }

  lemma RepeatNone(sp: nat)
    ensures Repeat(sp, 0) == []
  {
  }

  /** Two runs of data bits emitted one after the other are one run. */
  lemma TwoPasses(prev: bool, crc: Reg, a: seq<bool>, b: seq<bool>)
    ensures Encode(prev, a + b) == Encode(prev, a) + Encode(LastBit(prev, a), b)
    ensures LastBit(prev, a + b) == LastBit(LastBit(prev, a), b)
    ensures CrcBits(a + b, crc) == CrcBits(b, CrcBits(a, crc))
  {
    EncodeAppend(prev, a, b);
    CrcBitsAppend(a, b, crc);
  }

  lemma NoZeros(prev: bool)
    ensures Encode(prev, Zeros(0)) == [] && LastBit(prev, Zeros(0)) == prev
  {
  }

  lemma OneMoreZero(prev: bool, n: nat)
    ensures Encode(prev, Zeros(n + 1)) == Encode(prev, Zeros(n)) + EmittedCells(Data, LastBit(prev, Zeros(n)), ToBits(0, 1))
    ensures |EmittedCells(Data, LastBit(prev, Zeros(n)), ToBits(0, 1))| == 2
    ensures LastBit(prev, Zeros(n + 1)) == LastBit(LastBit(prev, Zeros(n)), Order(Data, ToBits(0, 1)))
  {
    assert ToBits(0, 1) == [false];
    assert Zeros(n + 1) == Zeros(n) + [false];
    EncodeAppend(prev, Zeros(n), [false]);
  }

  lemma ForwardPosition(start: nat, log0: seq<bool>, cells: seq<bool>, n: nat, pos0: nat)
    requires start < n && pos0 == Advance(start, |log0|, n) && |cells| <= n
    ensures pos0 < n && Advance(start, |log0 + cells|, n) == Wrap(pos0 + |cells|, n)
  {
    AdvanceInRange(start, |log0|, n);
    AdvanceAdd(start, |log0|, |cells|, n);
    AdvanceInRange(pos0, |cells|, n);
  }

  lemma OrderOf(enc: Bc, p: bool, v: seq<bool>)
    ensures enc == Raw || enc == Data ==> Order(enc, v) == v
    ensures enc == DataEven ==> Order(enc, v) == EvenBits(v)
    ensures enc == DataOdd ==> Order(enc, v) == DataBits(v)
    ensures enc == DataEvenOdd ==> Order(enc, v) == EvenBits(v) + DataBits(v)
    ensures enc == DataOddEven ==> Order(enc, v) == DataBits(v) + EvenBits(v)
    ensures enc != Raw ==> EmittedCells(enc, p, v) == Encode(p, Order(enc, v))
    ensures enc != Raw ==> CrcInput(enc, v) == Order(enc, v)
  {
  }

  lemma NoBytes(enc: Bc, data: seq<byte>, prev: bool, crc: Reg)
    requires enc == Data || enc == DataEven || enc == DataOdd
    ensures PassBits(enc, data[..0]) == []
    ensures Encode(prev, []) == [] && LastBit(prev, []) == prev && CrcBits([], crc) == crc
  {
    assert data[..0] == [];
  }

  lemma LayoutOf(data: seq<byte>)
    ensures Layout(Linear, data) == PassBits(Data, data)
    ensures Layout(EvenOdd, data) == AllEvens(data) + AllOdds(data)
    ensures Layout(OddEven, data) == AllOdds(data) + AllEvens(data)
    ensures PassBits(DataEven, data) == AllEvens(data) && PassBits(DataOdd, data) == AllOdds(data)
  {
  }

  // ----- steps of the loop over the bits of a word

  function WordCells(raw: bool, prev: bool, v: seq<bool>): (c: seq<bool>)
    ensures |c| == if raw then |v| else 2 * |v|
  {
    if raw then v else Encode(prev, v)
  }

  function WordTaps(raw: bool, n: nat, v: seq<bool>): seq<bool>
  {
    if raw then Taps(v, (n + 1) % 2) else v
  }

  lemma NothingEmitted(raw: bool, prev: bool, crc: Reg, n: nat, v: seq<bool>)
    ensures WordCells(raw, prev, v[..0]) == []
    ensures LastBit(prev, v[..0]) == prev
    ensures CrcBits(WordTaps(raw, n, v[..0]), crc) == crc
  {
    assert v[..0] == [];
  }

  lemma CrcBitsSnoc(t: seq<bool>, b: bool, crc: Reg)
    ensures CrcBits(t + [b], crc) == CrcBit(b, CrcBits(t, crc))
  {
    assert (t + [b])[..|t|] == t;
  }

  lemma OneMoreBit(raw: bool, prev: bool, crc: Reg, n: nat, v: seq<bool>, b: bool)
    requires |v| < n
    ensures WordCells(raw, prev, v + [b]) == WordCells(raw, prev, v) + WordCells(raw, LastBit(prev, v), [b])
    ensures WordCells(true, LastBit(prev, v), [b]) == [b]
    ensures WordCells(false, LastBit(prev, v), [b]) == Encode(LastBit(prev, v), [b])
    ensures LastBit(prev, v + [b]) == b
    ensures CrcBits(WordTaps(raw, n, v + [b]), crc)
         == if !raw || (n - 1 - |v|) % 2 == 0 then CrcBit(b, CrcBits(WordTaps(raw, n, v), crc))
            else CrcBits(WordTaps(raw, n, v), crc)
  {
    hide Encode, CrcBit, CrcBits;
    EncodeAppend(prev, v, [b]);
    assert (v + [b])[..|v|] == v;
    var t := WordTaps(raw, n, v);
    CrcBitsSnoc(t, b, crc);
    assert raw ==> (|v| % 2 == (n + 1) % 2 <==> (n - 1 - |v|) % 2 == 0);
    assert WordTaps(raw, n, v + [b]) == if !raw || (n - 1 - |v|) % 2 == 0 then t + [b] else t;
  }

  lemma WholeWord(raw: bool, prev: bool, n: nat, v: seq<bool>)
    requires |v| == n
    ensures WordCells(raw, prev, v) == EmittedCells(if raw then Raw else Data, prev, v)
    ensures WordTaps(raw, n, v) == CrcInput(if raw then Raw else Data, v)
  {
  }

  // ----- the cells that close the gap

  /** Forward half: MFM zeros.  Then up to five raw zeros around the write
      splice.  Then cells alternating backwards from the data start. */
  function ForwardPairs(gap: nat): nat { gap / 4 }
  function SpliceCells(gap: nat): nat { if gap - 2 * (gap / 4) < 5 then gap - 2 * (gap / 4) else 5 }

  /** The raw zeros stand in the middle of the gap, five of them if the second half has
      room for so many. */
  lemma MiddleOfGap(gap: nat)
    ensures var before, zeros := 2 * ForwardPairs(gap), SpliceCells(gap);
            && before <= gap - before < before + 4
            && zeros == (if gap >= 9 then 5 else gap - before)
            && before + zeros <= gap
  {
  }

  function ReverseFill(n: nat): (s: seq<bool>)
    ensures |s| == n
  {
    seq(n, i requires 0 <= i < n => (n - 1 - i) % 2 == 1)
  }

  function GapCells(prev: bool, gap: nat): (s: seq<bool>)
    ensures |s| == gap
  {
    var f, z := ForwardPairs(gap), SpliceCells(gap);
    Encode(prev, Zeros(f)) + Zeros(z) + ReverseFill(gap - 2 * f - z)
  }

  /** The cells still to be filled when the write position is pos. */
  function GapLength(start: nat, pos: nat, n: nat): nat
    requires start < n && pos < n
  {
    Ahead(pos, start, n)
  }

  /** A ring whose gap, from pos round to start, has been filled. */
  ghost predicate GapFilled<T>(before: seq<T>, after: seq<T>, pos: nat, gap: seq<T>)
    requires |before| == |after| && pos < |before|
  {
    forall j | 0 <= j < |after| ::
      after[j] == if Ahead(pos, j, |after|) < |gap| then gap[Ahead(pos, j, |after|)] else before[j]
  }

  /** The cells from lo up to the end of the gap have been filled backwards. */
  ghost predicate Reversed(before: seq<bool>, after: seq<bool>, pos: nat, lo: nat, gap: nat)
    requires |before| == |after| && pos < |before|
  {
    forall j | 0 <= j < |after| ::
      after[j] == if lo <= Ahead(pos, j, |after|) < gap then (gap - 1 - Ahead(pos, j, |after|)) % 2 == 1
                  else before[j]
  }

  /** The cells up to c and those from lo up to the end of the gap are of average
      speed. */
  ghost predicate Timed(before: seq<nat>, after: seq<nat>, pos: nat, c: nat, lo: nat, gap: nat)
    requires |before| == |after| && pos < |before|
  {
    forall j | 0 <= j < |after| ::
      after[j] == if Ahead(pos, j, |after|) < c || lo <= Ahead(pos, j, |after|) < gap then SPEED_AVG else before[j]
  }

  lemma TimedStep(before: seq<nat>, after: seq<nat>, pos: nat, c: nat, lo: nat, gap: nat, p: nat)
    requires |before| == |after| && pos < |before| && p < |before| && lo < gap
    requires Ahead(pos, p, |after|) == lo && Timed(before, after, pos, c, lo + 1, gap)
    ensures Timed(before, after[p := SPEED_AVG], pos, c, lo, gap)
  {
  }

  lemma TimedLaid(before: seq<nat>, pos: nat, c: nat, gap: nat)
    requires pos < |before| && c <= |before|
    ensures Timed(before, Laid(before, pos, Repeat(SPEED_AVG, c)), pos, c, gap, gap)
  {
    LaidAt(before, pos, Repeat(SPEED_AVG, c));
  }

  /** Both parts meet. */
  lemma TimedAll(before: seq<nat>, after: seq<nat>, pos: nat, c: nat, gap: nat)
    requires |before| == |after| && pos < |before| && c <= gap && Timed(before, after, pos, c, c, gap)
    ensures GapFilled(before, after, pos, Repeat(SPEED_AVG, gap))
  {
  }

  lemma ReverseStep(before: seq<bool>, ring: seq<bool>, pos: nat, lo: nat, gap: nat, p: nat, b: bool)
    requires |before| == |ring| && pos < |before| && p < |before| && lo < gap
    requires Ahead(pos, p, |ring|) == lo && b == ((gap - 1 - lo) % 2 == 1)
    requires Reversed(before, ring, pos, lo + 1, gap)
    ensures Reversed(before, ring[p := b], pos, lo, gap)
  {
  }

  lemma ReverseStart(ring: seq<bool>, pos0: nat, start: nat, pos: nat, c: nat, gap: nat)
    requires pos0 < |ring| && start < |ring| && gap == GapLength(start, pos0, |ring|) && c <= gap
    requires pos < |ring| && pos == Wrap(pos0 + c, |ring|)
    ensures start == Wrap(pos + (gap - c), |ring|)
    ensures Reversed(ring, ring, pos0, c + (gap - c), gap)
  {
  }

  lemma StepBack(pos: nat, m: nat, n: nat, pos0: nat, c: nat, gap: nat)
    requires pos < n && pos0 < n && c + m <= gap <= n && pos == Wrap(pos0 + c, n)
    requires Wrap(pos + m, n) != pos
    ensures m > 0
    ensures var p := Wrap(pos + m, n);
            var q := if p == 0 then n - 1 else p - 1;
            q == Wrap(pos + (m - 1), n) && q < n && Ahead(pos0, q, n) == c + (m - 1)
  {
  }

  lemma ReverseEnd(ring0: seq<bool>, ring1: seq<bool>, ring: seq<bool>, pos0: nat, cells: seq<bool>, pos: nat,
                   m: nat, gap: nat)
    requires |ring0| == |ring1| == |ring| && pos0 < |ring| && pos < |ring|
    requires GapFilled(ring0, ring1, pos0, cells)
    requires |cells| + m <= gap < |ring| && pos == Wrap(pos + m, |ring|)
    requires Reversed(ring1, ring, pos0, |cells| + m, gap)
    ensures m == 0
    ensures forall j | 0 <= j < |ring| :: ring[j] ==
              var a := Ahead(pos0, j, |ring|);
              if a < |cells| then cells[a] else if a < gap then (gap - 1 - a) % 2 == 1 else ring0[j]
  {
    assert m == 0;
  }

  class Tbuf {
    const bits: array<byte>
    const speed: array<nat>
    const bitlen: nat
    const start: nat
    var pos: nat
    var prev: bool
    var crc: Reg
    var dataStart: nat
    var dataEnd: nat
    var writeSplice: nat

    /** The cells appended since the buffer was set up, and their speeds. */
    ghost var log: seq<bool>
    ghost var speeds: seq<nat>

    ghost predicate Shaped()
      reads this`pos
    {
      && 0 < bitlen && start < bitlen && pos < bitlen
      && bitlen <= 8 * bits.Length && bitlen == speed.Length
    }

    /** The ring of cells. */
    ghost function Ring(): (s: seq<bool>)
      requires Shaped()
      reads this`pos, bits
      ensures |s| == bitlen
    {
      BytesBits(bits[..])[..bitlen]
    }

    ghost predicate Valid()
      reads this`pos, this`log, this`speeds, bits, speed
    {
      && Shaped()
      && |speeds| == |log|
      && pos == Advance(start, |log|, bitlen)
      && Ring() == Laid(Zeros(bitlen), start, log)
      && speed[..] == Laid(Repeat(0, bitlen), start, speeds)
    }

    /** tbuf_init. */
    constructor (bitstart: nat, bitlen: nat)
      requires bitstart < bitlen
      ensures Valid() && fresh(bits) && fresh(speed)
      ensures this.bitlen == bitlen && start == bitstart && log == []
      ensures !prev && crc == Zeros(16)
    {
      this.bitlen := bitlen;
      start := bitstart;
      pos := bitstart;
      prev := false;
      crc := Zeros(16);
      dataStart, dataEnd, writeSplice := 0, 0, 0;
      bits := new byte[bitlen](_ => 0);
      speed := new nat[bitlen](_ => 0);
      log, speeds := [], [];
      new;
      BytesOfZeros(bits[..]);
      assert Ring() == Zeros(bitlen);
    }

    /** change_bit on the cell map. */
    method ChangeBit(bit: nat, on: bool)
      requires Shaped() && bit < bitlen
      modifies bits
      ensures Ring() == old(Ring())[bit := on]
    {
      ghost var before := bits[..];
      bits[bit / 8] := ByteOf(ByteBits(bits[bit / 8])[bit % 8 := on]);
      ChangedBit(before, bit, on);
      assert bits[..] == before[bit / 8 := ByteOf(ByteBits(before[bit / 8])[bit % 8 := on])];
    }

    method AppendBit(sp: nat, x: bool)
      requires Valid()
      modifies this`pos, this`log, this`speeds, bits, speed
      ensures Valid()
      ensures log == old(log) + [x] && speeds == old(speeds) + [sp]
    {
      LaidStep(Zeros(bitlen), start, log, x);
      LaidStep(Repeat(0, bitlen), start, speeds, sp);
      ChangeBit(pos, x);
      speed[pos] := sp;
      assert speed[..] == old(speed[..])[pos := sp];
      pos := pos + 1;
      if pos >= bitlen {
        pos := 0;
      }
      log := log + [x];
      speeds := speeds + [sp];
    }

    /** tbuf_bit. */
    method Bit(sp: nat, raw: bool, dat: bool)
      requires Valid()
      modifies this`pos, this`prev, this`log, this`speeds, bits, speed
      ensures Valid()
      ensures log == old(log) + (if raw then [dat] else Encode(old(prev), [dat]))
      ensures prev == dat
      ensures speeds == old(speeds) + Repeat(sp, |log| - |old(log)|)
    {
      hide Valid, Encode;
      EncodeOne(prev, dat);
      if !raw {
        AppendBit(sp, !(prev || dat));
      }
      AppendBit(sp, dat);
      prev := dat;
    }

    /** The value tbuf_bits re-packs an even or odd pass into: its bit i is bit
        2i of x. */
    static method Gather(x: nat, n: nat) returns (y: nat)
      ensures ToBits(y, n) == DataBits(ToBits(x, 2 * n))
    {
      y := 0;
      for i := 0 to n
        invariant y < Pow2(i)
        invariant ToBits(y, i) == DataBits(ToBits(x, 2 * i))
      {
        var b := ShiftRight(x, 2 * i) % 2;
        GatherStep(x, y, i, b);
        y := y + b * Pow2(i);
      }
    }

    /** Bit i of a word, and into the CRC if it is a data bit. */
    method WordBit(sp: nat, raw: bool, i: nat, x: nat)
      requires Valid()
      modifies this`pos, this`prev, this`crc, this`log, this`speeds, bits, speed
      ensures Valid()
      ensures var b := ShiftRight(x, i) % 2 == 1;
              && log == old(log) + (if raw then [b] else Encode(old(prev), [b])) && prev == b
              && crc == if !raw || i % 2 == 0 then CrcBit(b, old(crc)) else old(crc)
      ensures speeds == old(speeds) + Repeat(sp, |log| - |old(log)|)
    {
      hide *;
      var b := ShiftRight(x, i) % 2 == 1;
      if !raw || i % 2 == 0 {
        crc := CrcBit(b, crc);
      }
      Bit(sp, raw, b);
    }

    /** The loop of tbuf_bits. */
    method EmitWord(sp: nat, raw: bool, n: nat, x: nat)
      requires Valid()
      modifies this`pos, this`prev, this`crc, this`log, this`speeds, bits, speed
      ensures Valid()
      ensures log == old(log) + EmittedCells(if raw then Raw else Data, old(prev), ToBits(x, n))
      ensures prev == LastBit(old(prev), ToBits(x, n))
      ensures crc == CrcBits(CrcInput(if raw then Raw else Data, ToBits(x, n)), old(crc))
      ensures speeds == old(speeds) + Repeat(sp, |log| - |old(log)|)
    {
      hide *;
      var i := n;
      ghost var v := ToBits(x, n);
      ghost var p0, log0, crc0 := prev, log, crc;
      NothingEmitted(raw, p0, crc0, n, v);
      RepeatNone(sp);
      while i > 0
        invariant 0 <= i <= n && Valid()
        invariant log == log0 + WordCells(raw, p0, v[..n - i])
        invariant prev == LastBit(p0, v[..n - i])
        invariant crc == CrcBits(WordTaps(raw, n, v[..n - i]), crc0)
        invariant speeds == old(speeds) + Repeat(sp, |log| - |log0|)
      {
        i := i - 1;
        ghost var done := v[..n - 1 - i];
        BitOf(x, n, i);
        assert v[..n - i] == done + [v[n - 1 - i]];
        OneMoreBit(raw, p0, crc0, n, done, v[n - 1 - i]);
        RepeatMore(sp, |log| - |log0|, if raw then 1 else 2);
        WordBit(sp, raw, i, x);
      }
      assert v[..n] == v;
      WholeWord(raw, p0, n, v);
    }

    /** tbuf_bits, for the encodings that make one pass over the word. */
    method EmitOnce(sp: nat, enc: Bc, n: nat, x: nat)
      requires Valid()
      requires enc == Raw || enc == Data || (n % 2 == 0 && (enc == DataEven || enc == DataOdd))
      modifies this`pos, this`prev, this`crc, this`log, this`speeds, bits, speed
      ensures Valid()
      ensures log == old(log) + EmittedCells(enc, old(prev), ToBits(x, n))
      ensures prev == LastBit(old(prev), Order(enc, ToBits(x, n)))
      ensures crc == CrcBits(CrcInput(enc, ToBits(x, n)), old(crc))
      ensures speeds == old(speeds) + Repeat(sp, |log| - |old(log)|)
    {
      hide *;
      ghost var v := ToBits(x, n);
      OrderOf(enc, prev, v);
      match enc {
        case Raw => EmitWord(sp, true, n, x);
        case Data => EmitWord(sp, false, n, x);
        case DataEven =>
          var y := Gather(x / 2, n / 2);
          EvenOfHalf(x, n);
          OrderOf(Data, prev, EvenBits(v));
          EmitWord(sp, false, n / 2, y);
        case DataOdd =>
          var y := Gather(x, n / 2);
          OrderOf(Data, prev, DataBits(v));
          EmitWord(sp, false, n / 2, y);
      }
    }

    /** tbuf_bits.  The two-pass encodings emit half of the bits, then go on
        with the other half. */
    method Emit(sp: nat, enc: Bc, n: nat, x: nat)
      requires Valid()
      requires enc == Raw || enc == Data || n % 2 == 0
      modifies this`pos, this`prev, this`crc, this`log, this`speeds, bits, speed
      ensures Valid()
      ensures log == old(log) + EmittedCells(enc, old(prev), ToBits(x, n))
      ensures prev == LastBit(old(prev), Order(enc, ToBits(x, n)))
      ensures crc == CrcBits(CrcInput(enc, ToBits(x, n)), old(crc))
      ensures speeds == old(speeds) + Repeat(sp, |log| - |old(log)|)
    {
      hide *;
      if enc == DataEvenOdd || enc == DataOddEven {
        var first := if enc == DataEvenOdd then DataEven else DataOdd;
        var second := if enc == DataEvenOdd then DataOdd else DataEven;
        ghost var v := ToBits(x, n);
        ghost var p0, crc0, n0 := prev, crc, |log|;
        OrderOf(enc, p0, v);
        OrderOf(first, p0, v);
        TwoPasses(p0, crc0, Order(first, v), Order(second, v));
        EmitOnce(sp, first, n, x);
        ghost var n1 := |log|;
        OrderOf(second, prev, v);
        EmitOnce(sp, second, n, x);
        RepeatMore(sp, n1 - n0, |log| - n1);
      } else {
        EmitOnce(sp, enc, n, x);
      }
    }

    /** One pass of the loop of tbuf_bytes. */
    method EmitPass(sp: nat, enc: Bc, data: seq<byte>)
      requires Valid() && (enc == Data || enc == DataEven || enc == DataOdd)
      modifies this`pos, this`prev, this`crc, this`log, this`speeds, bits, speed
      ensures Valid()
      ensures log == old(log) + Encode(old(prev), PassBits(enc, data))
      ensures prev == LastBit(old(prev), PassBits(enc, data))
      ensures crc == CrcBits(PassBits(enc, data), old(crc))
      ensures speeds == old(speeds) + Repeat(sp, |log| - |old(log)|)
    {
      hide *;
      ghost var p0, log0, crc0 := prev, log, crc;
      NoBytes(enc, data, p0, crc0);
      RepeatNone(sp);
      for i := 0 to |data|
        invariant Valid()
        invariant log == log0 + Encode(p0, PassBits(enc, data[..i]))
        invariant prev == LastBit(p0, PassBits(enc, data[..i]))
        invariant crc == CrcBits(PassBits(enc, data[..i]), crc0)
        invariant speeds == old(speeds) + Repeat(sp, |log| - |log0|)
      {
        ghost var done, next := PassBits(enc, data[..i]), Order(enc, ToBits(data[i], 8));
        ghost var a := |log| - |log0|;
        PassBitsStep(enc, data, i);
        TwoPasses(p0, crc0, done, next);
        OrderOf(enc, prev, ToBits(data[i], 8));
        Emit(sp, enc, 8, data[i]);
        RepeatMore(sp, a, |log| - |log0| - a);
      }
      assert data[..|data|] == data;
    }

    /** tbuf_bytes. */
    method EmitBytes(sp: nat, enc: Encoding, data: seq<byte>)
      requires Valid()
      modifies this`pos, this`prev, this`crc, this`log, this`speeds, bits, speed
      ensures Valid()
      ensures log == old(log) + Encode(old(prev), Layout(enc, data))
      ensures prev == LastBit(old(prev), Layout(enc, data))
      ensures crc == CrcBits(Layout(enc, data), old(crc))
      ensures speeds == old(speeds) + Repeat(sp, |log| - |old(log)|)
    {
      hide *;
      ghost var p0, crc0, log0 := prev, crc, log;
      LayoutOf(data);
      match enc {
        case Linear => EmitPass(sp, Data, data);
        case EvenOdd =>
          TwoPasses(p0, crc0, AllEvens(data), AllOdds(data));
          EmitPass(sp, DataEven, data);
          ghost var a := |log| - |log0|;
          EmitPass(sp, DataOdd, data);
          RepeatMore(sp, a, |log| - |log0| - a);
        case OddEven =>
          TwoPasses(p0, crc0, AllOdds(data), AllEvens(data));
          EmitPass(sp, DataOdd, data);
          ghost var a := |log| - |log0|;
          EmitPass(sp, DataEven, data);
          RepeatMore(sp, a, |log| - |log0| - a);
      }
    }

    /** tbuf_start_crc. */
    method StartCrc()
      modifies this`crc
      ensures crc == Preset()
    {
      crc := Preset();
    }

    method EmitZeros(sp: nat, n: nat)
      requires Valid()
      modifies this`pos, this`prev, this`crc, this`log, this`speeds, bits, speed
      ensures Valid()
      ensures log == old(log) + Encode(old(prev), Zeros(n))
      ensures speeds == old(speeds) + Repeat(sp, |log| - |old(log)|)
    {
      hide *;
      ghost var p0, log0 := prev, log;
      NoZeros(p0);
      RepeatNone(sp);
      for i := 0 to n
        invariant Valid()
        invariant log == log0 + Encode(p0, Zeros(i))
        invariant prev == LastBit(p0, Zeros(i))
        invariant speeds == old(speeds) + Repeat(sp, |log| - |log0|)
      {
        OneMoreZero(p0, i);
        RepeatMore(sp, |log| - |log0|, 2);
        Emit(sp, Data, 1, 0);
      }
    }

    /** fix_bc, for counts between minus one turn and plus one turn. */
    function FixBc(bc: int): nat
      requires 0 <= bc + bitlen
    {
      if bc < 0 then bc + bitlen else bc
    }

    /** The first part of tbuf_finalise: MFM zeros over half the gap. */
    method FillForward() returns (ghost cells: seq<bool>)
      requires Valid() && start != pos
      modifies this`pos, this`prev, this`crc, this`log, this`speeds, bits, speed
      ensures Valid()
      ensures old(pos) < bitlen && start < bitlen
      ensures cells == Encode(old(prev), Zeros(ForwardPairs(GapLength(start, old(pos), bitlen))))
      ensures pos == Wrap(old(pos) + |cells|, bitlen)
      ensures log == old(log) + cells && speeds == old(speeds) + Repeat(SPEED_AVG, |cells|)
    {
      hide Valid, Encode, Zeros, Laid, Advance;
      ghost var pos0, prev0, log0 := pos, prev, log;
      StartPosition();
      var f := FixBc(start - pos) / 4;
      EmitZeros(SPEED_AVG, f);
      cells := Encode(prev0, Zeros(f));
      PositionAfter(pos0, log0, cells);
    }

    /** The second part: up to five raw zeros, with the write splice in their
        middle. */
    method FillSplice() returns (z: nat)
      requires Valid() && start != pos
      modifies this`pos, this`prev, this`crc, this`log, this`speeds, this`writeSplice, bits, speed
      ensures Valid()
      ensures old(pos) < bitlen && start < bitlen
      ensures z == if GapLength(start, old(pos), bitlen) < 5 then GapLength(start, old(pos), bitlen) else 5
      ensures pos == Wrap(old(pos) + z, bitlen)
      ensures writeSplice < bitlen && Ahead(old(pos), writeSplice, bitlen) < z
      ensures log == old(log) + Zeros(z) && speeds == old(speeds) + Repeat(SPEED_AVG, z)
    {
      hide Valid, Encode, ToBits, Laid, Advance, CrcBits, LastBit, CrcInput;
      ghost var pos0, log0 := pos, log;
      StartPosition();
      z := FixBc(start - pos);
      if z > 5 {
        z := 5;
      }
      Emit(SPEED_AVG, Raw, z, 0);
      ToBitsZero(z);
      PositionAfter(pos0, log0, Zeros(z));
      writeSplice := FixBc(pos - 1 - z / 2);
    }

    lemma StartPosition()
      requires Valid()
      ensures Shaped()
      ensures pos < bitlen && start < bitlen && pos == Advance(start, |log|, bitlen)
      ensures Ring() == Laid(Zeros(bitlen), start, log)
      ensures |speeds| == |log| && speed[..] == Laid(Repeat(0, bitlen), start, speeds)
    {
    }

    lemma PositionAfter(pos0: nat, log0: seq<bool>, cells: seq<bool>)
      requires Valid() && log == log0 + cells && |cells| <= bitlen
      requires pos0 == Advance(start, |log0|, bitlen)
      ensures pos0 < bitlen && pos == Wrap(pos0 + |cells|, bitlen)
    {
      ForwardPosition(start, log0, cells, bitlen, pos0);
    }

    lemma RingAfter(pos0: nat, ring0: seq<bool>, log0: seq<bool>, cells: seq<bool>)
      requires Valid() && log == log0 + cells && |cells| <= bitlen
      requires pos0 == Advance(start, |log0|, bitlen) && ring0 == Laid(Zeros(bitlen), start, log0)
      ensures pos0 < bitlen && GapFilled(ring0, Ring(), pos0, cells)
    {
      LaidAppend(Zeros(bitlen), start, log0, cells);
      LaidAt(ring0, pos0, cells);
    }

    lemma SpeedsAfter(pos0: nat, speed0: seq<nat>, speeds0: seq<nat>, c: nat, gap: nat)
      requires Valid() && speeds == speeds0 + Repeat(SPEED_AVG, c) && c <= bitlen
      requires pos0 == Advance(start, |speeds0|, bitlen) && speed0 == Laid(Repeat(0, bitlen), start, speeds0)
      ensures pos0 < bitlen == |speed0| == |speed[..]| && Timed(speed0, speed[..], pos0, c, gap, gap)
    {
      hide Repeat, Timed, Laid;
      LaidAppend(Repeat(0, bitlen), start, speeds0, Repeat(SPEED_AVG, c));
      TimedLaid(speed0, pos0, c, gap);
    }

    /** tbuf_finalise: closes the gap between the write position and the data
        start.  Every cell of the gap receives its value and the average speed,
        every other cell keeps what it had, and the write splice lies among the
        zeros in the gap. */
    method Finalise()
      requires Valid()
      modifies this, bits, speed
      ensures Shaped()
      ensures dataStart == start
      ensures dataEnd == if old(pos) == 0 then bitlen - 1 else old(pos) - 1
      ensures var gap := GapLength(start, old(pos), bitlen);
              && GapFilled(old(Ring()), Ring(), old(pos), GapCells(old(prev), gap))
              && GapFilled(old(speed[..]), speed[..], old(pos), Repeat(SPEED_AVG, gap))
              && (gap == 0 ==> writeSplice == dataEnd)
              && (gap > 0 ==> SpliceInGap(old(pos), gap))
    {
      hide *;
      StartPosition();
      dataStart := start;
      dataEnd := FixBc(pos - 1);
      BeforePosition();
      if start == pos {
        NoGap(start, bitlen, Ring(), speed[..], prev);
        writeSplice := dataEnd;
      } else {
        GapAhead(start, pos, bitlen);
        FillGap();
      }
    }

    /** The write splice is among the zeros in the gap that begins at pos0. */
    ghost predicate SpliceInGap(pos0: nat, gap: nat)
      requires pos0 < bitlen
      reads this`writeSplice
    {
      && writeSplice < bitlen
      && 2 * ForwardPairs(gap) <= Ahead(pos0, writeSplice, bitlen)
      && Ahead(pos0, writeSplice, bitlen) < 2 * ForwardPairs(gap) + SpliceCells(gap)
    }

    /** The three parts of the gap. */
    method FillGap()
      requires Valid() && start != pos
      modifies this`pos, this`prev, this`crc, this`log, this`speeds, this`writeSplice, bits, speed
      ensures Shaped()
      ensures old(pos) < bitlen && start < bitlen
      ensures var gap := GapLength(start, old(pos), bitlen);
              && GapFilled(old(Ring()), Ring(), old(pos), GapCells(old(prev), gap))
              && GapFilled(old(speed[..]), speed[..], old(pos), Repeat(SPEED_AVG, gap))
              && SpliceInGap(old(pos), gap)
    {
      hide *;
      StartPosition();
      ghost var pos0, prev0, ring0, log0 := pos, prev, Ring(), log;
      ghost var speed0, speeds0 := speed[..], speeds;
      ghost var gap := GapLength(start, pos, bitlen);
      ghost var forward := FillForward();
      ghost var pos1 := pos;
      assert |forward| == 2 * ForwardPairs(gap);
      GapLeft(pos0, start, bitlen);
      var z := FillSplice();
      assert pos1 == Wrap(pos0 + 2 * ForwardPairs(gap), bitlen);
      ghost var cells := forward + Zeros(z);
      assert log == log0 + cells;
      GapAfterForward(pos0, start, bitlen, prev0, z);
      StartPosition();
      RingAfter(pos0, ring0, log0, cells);
      TwoRuns(speeds0, |forward|, z);
      SpeedsAfter(pos0, speed0, speeds0, |cells|, gap);
      WrapTwice(pos0, |forward|, z, start, bitlen, writeSplice);
      SpliceIs(pos0, gap);
      ReverseFillFrom(pos0, ring0, speed0, cells, gap);
      TimedAll(speed0, speed[..], pos0, |cells|, gap);
      GapClosed(ring0, Ring(), pos0, prev0, gap, cells);
    }

    lemma SpliceIs(pos0: nat, gap: nat)
      requires pos0 < bitlen && writeSplice < bitlen
      requires 2 * ForwardPairs(gap) <= Ahead(pos0, writeSplice, bitlen) < 2 * ForwardPairs(gap) + SpliceCells(gap)
      ensures SpliceInGap(pos0, gap)
    {
    }

    lemma BeforePosition()
      requires pos < bitlen
      ensures FixBc(pos - 1) == if pos == 0 then bitlen - 1 else pos - 1
    {
    }

    /** The last loop of tbuf_finalise: from the data start backwards to the
        write position, alternating cells beginning with a zero. */
    method ReverseFillFrom(ghost pos0: nat, ghost ring0: seq<bool>, ghost speed0: seq<nat>, ghost cells: seq<bool>,
                           ghost gap: nat)
      requires Shaped() && pos0 < bitlen && |ring0| == |speed0| == bitlen
      requires |cells| <= gap == GapLength(start, pos0, bitlen) && 0 < gap < bitlen
      requires pos == Wrap(pos0 + |cells|, bitlen)
      requires GapFilled(ring0, Ring(), pos0, cells) && Timed(speed0, speed[..], pos0, |cells|, gap, gap)
      modifies bits, speed
      ensures Shaped() && Timed(speed0, speed[..], pos0, |cells|, |cells|, gap)
      ensures forall j | 0 <= j < bitlen :: Ring()[j] ==
                var a := Ahead(pos0, j, bitlen);
                if a < |cells| then cells[a] else if a < gap then (gap - 1 - a) % 2 == 1 else ring0[j]
    {
      hide *;
      ShapedBounds();
      ghost var ring1 := Ring();
      ghost var c := |cells|;
      var p: int := start;
      var b := false;
      ghost var m := gap - c;
      ReverseStart(ring1, pos0, start, pos, c, gap);
      while p != pos
        invariant Shaped() && 0 <= p < bitlen && 0 <= m <= gap - c
        invariant p == Wrap(pos + m, bitlen)
        invariant b == ((gap - c - m) % 2 == 1)
        invariant Reversed(ring1, Ring(), pos0, c + m, gap) && Timed(speed0, speed[..], pos0, c, c + m, gap)
        decreases m
      {
        StepBack(pos, m, bitlen, pos0, c, gap);
        p := p - 1;
        if p < 0 {
          p := p + bitlen;
        }
        m := m - 1;
        ReverseStep(ring1, Ring(), pos0, c + m, gap, p, b);
        TimedStep(speed0, speed[..], pos0, c, c + m, gap, p);
        ChangeBit(p, b);
        speed[p] := SPEED_AVG;
        b := !b;
      }
      ReverseEnd(ring0, ring1, Ring(), pos0, cells, pos, m, gap);
    }

    lemma ShapedBounds()
      requires Shaped()
      ensures 0 < bitlen && start < bitlen && pos < bitlen && bitlen == speed.Length
    {
    }

    /** tbuf_emit_crc16_ccitt. */
    method EmitCrc(sp: nat)
      requires Valid()
      modifies this`pos, this`prev, this`crc, this`log, this`speeds, bits, speed
      ensures Valid()
      ensures log == old(log) + Encode(old(prev), old(crc))
      ensures prev == old(crc)[15]
      ensures crc == Zeros(16)
      ensures speeds == old(speeds) + Repeat(sp, |log| - |old(log)|)
    {
      ToBitsVal(crc);
      CrcResidueZero(crc);
      Emit(sp, Data, 16, Val(crc));
    }
  }

  lemma ForwardThenSplice(prev: bool, f: nat, z: nat, r: nat)
    ensures forall j | 0 <= j < 2 * f + z + r ::
              ((Encode(prev, Zeros(f)) + Zeros(z) + ReverseFill(r))[j]
               == if j < 2 * f + z then (Encode(prev, Zeros(f)) + Zeros(z))[j]
                  else (2 * f + z + r - 1 - j) % 2 == 1)
  {
  }

  lemma NoGap(start: nat, n: nat, ring: seq<bool>, speed: seq<nat>, prev: bool)
    requires start < n == |ring| == |speed|
    ensures GapLength(start, start, n) == 0
    ensures GapFilled(speed, speed, start, Repeat(SPEED_AVG, 0))
    ensures GapFilled(ring, ring, start, GapCells(prev, 0))
  {
  }

  lemma GapAhead(start: nat, pos: nat, n: nat)
    requires pos < n && start < n && pos != start
    ensures GapLength(start, pos, n) > 0
  {
  }

  lemma TwoRuns(speeds: seq<nat>, a: nat, b: nat)
    ensures speeds + Repeat(SPEED_AVG, a) + Repeat(SPEED_AVG, b) == speeds + Repeat(SPEED_AVG, a + b)
  {
  }

  lemma GapLeft(pos: nat, start: nat, n: nat)
    requires pos < n && start < n && pos != start
    ensures Wrap(pos + 2 * ForwardPairs(GapLength(start, pos, n)), n) != start
  {
  }

  /** After the forward fill, what is left of the gap decides the splice. */
  lemma GapAfterForward(pos: nat, start: nat, n: nat, prev: bool, z: nat)
    requires pos < n && start < n && pos != start
    requires var gap := GapLength(start, pos, n);
             var pos1 := Wrap(pos + 2 * ForwardPairs(gap), n);
             && pos1 < n
             && z == if GapLength(start, pos1, n) < 5 then GapLength(start, pos1, n) else 5
    ensures var gap := GapLength(start, pos, n);
            && gap == Ahead(pos, start, n)
            && z == SpliceCells(gap) && 2 * ForwardPairs(gap) + z <= gap < n && gap > 0
    ensures |Encode(prev, Zeros(ForwardPairs(GapLength(start, pos, n))))| == 2 * ForwardPairs(GapLength(start, pos, n))
  {
  }

  lemma WrapTwice(pos: nat, a: nat, b: nat, start: nat, n: nat, splice: nat)
    requires pos < n && start < n && splice < n && a + b <= Ahead(pos, start, n)
    requires Wrap(pos + a, n) < n && Ahead(Wrap(pos + a, n), splice, n) < b
    ensures Wrap(Wrap(pos + a, n) + b, n) == Wrap(pos + (a + b), n)
    ensures a <= Ahead(pos, splice, n) < a + b
  {
  }

  lemma GapClosed(before: seq<bool>, after: seq<bool>, pos: nat, prev: bool, gap: nat, cells: seq<bool>)
    requires |before| == |after| && pos < |before|
    requires cells == Encode(prev, Zeros(ForwardPairs(gap))) + Zeros(SpliceCells(gap)) && |cells| <= gap
    requires forall j | 0 <= j < |after| :: after[j] ==
               var a := Ahead(pos, j, |after|);
               if a < |cells| then cells[a] else if a < gap then (gap - 1 - a) % 2 == 1 else before[j]
    ensures GapFilled(before, after, pos, GapCells(prev, gap))
  {
    ForwardThenSplice(prev, ForwardPairs(gap), SpliceCells(gap), gap - |cells|);
  }

  /** The data bits of one pass over a buffer. */
  function PassBits(enc: Bc, data: seq<byte>): seq<bool>
    requires enc == Data || enc == DataEven || enc == DataOdd
  {
    match enc
    case Data => BytesBits(data)
    case DataEven => AllEvens(data)
    case DataOdd => AllOdds(data)
  }

  lemma PassBitsStep(enc: Bc, data: seq<byte>, i: nat)
    requires enc == Data || enc == DataEven || enc == DataOdd
    requires i < |data|
    ensures PassBits(enc, data[..i + 1]) == PassBits(enc, data[..i]) + Order(enc, ToBits(data[i], 8))
  {
    assert data[..i + 1][..i] == data[..i];
    assert Evens(data[i]) == EvenBits(ToBits(data[i], 8));
    assert Odds(data[i]) == DataBits(ToBits(data[i], 8));
  }

  lemma EvenOfHalf(x: nat, n: nat)
    requires n % 2 == 0
    ensures DataBits(ToBits(x / 2, n)) == EvenBits(ToBits(x, n))
  {
    ToBitsDrop(x, n);
    assert ToBits(x, n + 1) == ToBits(x / 2, n) + [x % 2 == 1];
  }

  lemma {:induction false} BytesOfZeros(bs: seq<byte>)
    requires forall i | 0 <= i < |bs| :: bs[i] == 0
    ensures BytesBits(bs) == Zeros(8 * |bs|)
  {
    if bs != [] {
      BytesOfZeros(bs[..|bs| - 1]);
      ToBitsZero(8);
    }
  }

  lemma ChangedBit(bs: seq<byte>, bit: nat, on: bool)
    requires bit < 8 * |bs|
    ensures BytesBits(bs[bit / 8 := ByteOf(ByteBits(bs[bit / 8])[bit % 8 := on])]) == BytesBits(bs)[bit := on]
  {
    hide BytesBits, ByteOf, ByteBits;
    var i := bit / 8;
    var b := ByteOf(ByteBits(bs[i])[bit % 8 := on]);
    BitsOfByte(ByteBits(bs[i])[bit % 8 := on]);
    var l, r := BytesBits(bs[i := b]), BytesBits(bs)[bit := on];
    forall j | 0 <= j < |l| ensures l[j] == r[j] {
      BitInByte(bs, j);
      BitInByte(bs[i := b], j);
    }
  }

  lemma BitInByte(bs: seq<byte>, j: nat)
    requires j < 8 * |bs|
    ensures BytesBits(bs)[j] == ByteBits(bs[j / 8])[j % 8]
  {
    hide BytesBits, ByteBits;
    BytesBitsAt(bs, j / 8);
    assert BytesBits(bs)[j] == BytesBits(bs)[8 * (j / 8)..8 * (j / 8) + 8][j % 8];
  }

  lemma {:induction false} ToBitsSum(y: nat, i: nat, b: nat)
    requires y < Pow2(i) && b < 2
    ensures ToBits(y + b * Pow2(i), i + 1) == [b == 1] + ToBits(y, i)
  {
    BitTimes(b, Pow2(i));
    if i == 0 {
      assert ToBits(b, 1) == ToBits(b / 2, 0) + [b % 2 == 1];
    } else {
      var p := Pow2(i - 1);
      BitTimes(b, p);
      ToBitsSum(y / 2, i - 1, b);
      EvenSum(y, if b == 1 then p else 0, i);
    }
  }

  lemma BitTimes(b: nat, p: nat)
    requires b < 2
    ensures b * p == if b == 1 then p else 0
  {
  }

  lemma EvenSum(y: nat, q: nat, i: nat)
    ensures ToBits(y + 2 * q, i + 1) == ToBits(y / 2 + q, i) + [y % 2 == 1]
  {
    assert (y + 2 * q) / 2 == y / 2 + q;
  }

  lemma GatherStep(x: nat, y: nat, i: nat, b: nat)
    requires b == ShiftRight(x, 2 * i) % 2
    requires y < Pow2(i) && ToBits(y, i) == DataBits(ToBits(x, 2 * i))
    ensures y + b * Pow2(i) < Pow2(i + 1)
    ensures ToBits(y + b * Pow2(i), i + 1) == DataBits(ToBits(x, 2 * (i + 1)))
  {
    hide ToBits, ShiftRight;
    ToBitsSum(y, i, b);
    var v := ToBits(x, 2 * i + 2);
    assert v[1] == (b == 1) by { BitOf(x, 2 * i + 2, 2 * i); }
    assert v[2..] == ToBits(x, 2 * i) by {
      ToBitsDrop(x, 2 * i);
      ToBitsDrop(x, 2 * i + 1);
      assert v[2..] == v[1..][1..];
    }
    assert DataBits(v) == [v[1]] + DataBits(v[2..]);
  }

  /** A finished track.  If a handler appended at least one cell but not a whole
      turn, the ring, read from the data start, is what the handler appended
      followed by the gap. */
  lemma FinishedRing(n: nat, start: nat, log: seq<bool>, pos: nat, after: seq<bool>, prev: bool)
    requires start < n && 0 < |log| < n && pos == Advance(start, |log|, n) < n && |after| == n
    requires GapFilled(Laid(Zeros(n), start, log), after, pos, GapCells(prev, GapLength(start, pos, n)))
    ensures GapLength(start, pos, n) == n - |log|
    ensures forall j | 0 <= j < n ::
              after[j] == (log + GapCells(prev, n - |log|))[Ahead(start, j, n)]
  {
    hide GapCells, Laid, Advance;
    AdvanceInRange(start, |log|, n);
    LaidAt(Zeros(n), start, log);
    assert GapLength(start, pos, n) == n - |log|;
    var gap := GapCells(prev, n - |log|);
    forall j | 0 <= j < n ensures after[j] == (log + gap)[Ahead(start, j, n)] {
      if Ahead(start, j, n) < |log| {
        assert Ahead(pos, j, n) >= n - |log|;
      } else {
        assert Ahead(pos, j, n) == Ahead(start, j, n) - |log|;
      }
    }
  }
}
