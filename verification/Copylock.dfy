/** The CopyLock protection track: eleven sectors cut from the output of one
    23-bit shift register.  Any good sector gives away the whole track. */
module Copylock {
  import opened Bits

  /** Bit 22 first. */
  type Lfsr = x: seq<bool> | |x| == 23 witness Zeros(23)

  const SECTORS: nat := 11
  const BYTES: nat := 512

  /** "Rob Northen Comp". */
  const SEC6_SIG: seq<byte> := [0x52, 0x6f, 0x62, 0x20, 0x4e, 0x6f, 0x72, 0x74,
                                0x68, 0x65, 0x6e, 0x20, 0x43, 0x6f, 0x6d, 0x70]

  function LfsrNext(x: Lfsr): Lfsr
  {
    x[1..] + [x[0] != x[22]]
  }

  function LfsrPrev(x: Lfsr): Lfsr
  {
    [x[21] != x[22]] + x[..22]
  }

  function LfsrByte(x: Lfsr): byte
  {
    ByteOf(x[..8])
  }

  function Forward(x: Lfsr, n: nat): Lfsr
  {
    if n == 0 then x else LfsrNext(Forward(x, n - 1))
  }

  function Backward(x: Lfsr, n: nat): Lfsr
  {
    if n == 0 then x else LfsrPrev(Backward(x, n - 1))
  }

  /** The two steps undo each other. */
  lemma StepsInverse(x: Lfsr)
    ensures LfsrNext(LfsrPrev(x)) == x && LfsrPrev(LfsrNext(x)) == x
  {
  }

  lemma {:induction false} ForwardFirst(x: Lfsr, n: nat)
    ensures Forward(LfsrNext(x), n) == LfsrNext(Forward(x, n))
  {
    if n > 0 {
      ForwardFirst(x, n - 1);
    }
  }

  lemma {:induction false} BackwardFirst(x: Lfsr, n: nat)
    ensures Backward(LfsrPrev(x), n) == LfsrPrev(Backward(x, n))
  {
    if n > 0 {
      BackwardFirst(x, n - 1);
    }
  }

  lemma {:induction false} ThereAndBack(x: Lfsr, n: nat)
    ensures Backward(Forward(x, n), n) == x && Forward(Backward(x, n), n) == x
  {
    hide LfsrNext, LfsrPrev;
    if n > 0 {
      ThereAndBack(x, n - 1);
      StepsInverse(Forward(x, n - 1));
      StepsInverse(Backward(x, n - 1));
      BackwardFirst(LfsrNext(Forward(x, n - 1)), n - 1);
      ForwardFirst(LfsrPrev(Backward(x, n - 1)), n - 1);
    }
  }

  lemma {:induction false} ForwardAdd(x: Lfsr, a: nat, b: nat)
    ensures Forward(x, a + b) == Forward(Forward(x, a), b)
  {
    if b > 0 {
      ForwardAdd(x, a, b - 1);
    }
  }

  /** Going back from further on. */
  lemma BackFrom(x: Lfsr, a: nat, b: nat)
    requires b <= a
    ensures Backward(Forward(x, a), a - b) == Forward(x, b)
  {
    ForwardAdd(x, b, a - b);
    ThereAndBack(Forward(x, b), a - b);
  }

  // ----- from sector to sector

  /** How many bytes of the register's output lie between the starts of two
      sectors that follow each other.  The signature of sector 6 takes the place
      of sixteen of them, or interrupts them. */
  function Length(skips: bool, sec: nat): nat
  {
    BYTES - (if sec == 6 then |SEC6_SIG| else 0) + (if !skips && sec == 5 then |SEC6_SIG| else 0)
  }

  function Offset(skips: bool, sec: nat): nat
  {
    if sec == 0 then 0 else Offset(skips, sec - 1) + Length(skips, sec - 1)
  }

  lemma {:induction false} OffsetMono(skips: bool, a: nat, b: nat)
    requires a <= b
    ensures Offset(skips, a) <= Offset(skips, b)
  {
    if a < b {
      OffsetMono(skips, a, b - 1);
    }
  }

  /** lfsr_seek: the register at the start of one sector from that at another. */
  function Seek(skips: bool, x: Lfsr, from: nat, to: nat): Lfsr
  {
    OffsetMono(skips, if from <= to then from else to, if from <= to then to else from);
    if from <= to then Forward(x, Offset(skips, to) - Offset(skips, from))
    else Backward(x, Offset(skips, from) - Offset(skips, to))
  }

  /** Seeking from the start of the track. */
  lemma SeekOnTrack(skips: bool, seed: Lfsr, from: nat, to: nat)
    ensures Seek(skips, Forward(seed, Offset(skips, from)), from, to) == Forward(seed, Offset(skips, to))
  {
    if from <= to {
      OffsetMono(skips, from, to);
      ForwardAdd(seed, Offset(skips, from), Offset(skips, to) - Offset(skips, from));
    } else {
      OffsetMono(skips, to, from);
      BackFrom(seed, Offset(skips, from), Offset(skips, to));
    }
  }

  /** The way taken does not matter. */
  lemma SeekPathIndependent(skips: bool, x: Lfsr, a: nat, b: nat, c: nat)
    ensures Seek(skips, Seek(skips, x, a, b), b, c) == Seek(skips, x, a, c)
    ensures Seek(skips, Seek(skips, x, a, b), b, a) == x
  {
    hide Seek, Offset;
    var seed := Backward(x, Offset(skips, a));
    ThereAndBack(x, Offset(skips, a));
    SeekOnTrack(skips, seed, a, b);
    SeekOnTrack(skips, seed, b, c);
    SeekOnTrack(skips, seed, a, c);
    SeekOnTrack(skips, seed, b, a);
  }

  method LfsrBackward(x0: Lfsr, delta: nat) returns (x: Lfsr)
    ensures x == Backward(x0, delta)
  {
    x := x0;
    for i := 0 to delta
      invariant x == Backward(x0, i)
    {
      x := LfsrPrev(x);
    }
  }

  method LfsrForward(x0: Lfsr, delta: nat) returns (x: Lfsr)
    ensures x == Forward(x0, delta)
  {
    x := x0;
    for i := 0 to delta
      invariant x == Forward(x0, i)
    {
      x := LfsrNext(x);
    }
  }

  /** One way or the other, sector by sector. */
  method LfsrSeek(skips: bool, x0: Lfsr, from0: nat, to: nat) returns (x: Lfsr)
    ensures x == Seek(skips, x0, from0, to)
  {
    hide Seek, Offset, LfsrNext, LfsrPrev;
    x := x0;
    var from := from0;
    SeekNowhere(skips, x0, from0);
    while from != to
      invariant from0 <= to ==> from0 <= from <= to
      invariant from0 >= to ==> to <= from <= from0
      invariant x == Seek(skips, x0, from0, from)
      decreases if from < to then to - from else from - to
    {
      var back := from > to;
      if back {
        from := from - 1;
      }
      var sz := BYTES;
      if from == 6 {
        sz := sz - |SEC6_SIG|;
      }
      if !skips && from == 5 {
        sz := sz + |SEC6_SIG|;
      }
      ghost var start := x;
      for i := 0 to sz
        invariant x == if back then Backward(start, i) else Forward(start, i)
      {
        x := if from < to then LfsrNext(x) else LfsrPrev(x);
      }
      SeekOne(skips, start, from);
      if from < to {
        SeekPathIndependent(skips, x0, from0, from, from + 1);
        from := from + 1;
      } else {
        SeekPathIndependent(skips, x0, from0, from + 1, from);
      }
    }
  }

  lemma SeekNowhere(skips: bool, x: Lfsr, a: nat)
    ensures Seek(skips, x, a, a) == x
  {
  }

  lemma SeekOne(skips: bool, x: Lfsr, a: nat)
    ensures Seek(skips, x, a, a + 1) == Forward(x, Length(skips, a))
    ensures Seek(skips, x, a + 1, a) == Backward(x, Length(skips, a))
  {
  }

  // ----- the data of a sector

  /** The n bytes the register puts out from x on. */
  function Outputs(x: Lfsr, n: nat): (bs: seq<byte>)
    ensures |bs| == n
  {
    seq(n, k requires 0 <= k < n => LfsrByte(Forward(x, k)))
  }

  /** How many bytes of a sector come before the register's output. */
  function Preamble(sec: nat): seq<byte>
  {
    if sec == 6 then SEC6_SIG else []
  }

  /** A sector of the track that grows from a seed. */
  function SectorData(skips: bool, seed: Lfsr, sec: nat): (d: seq<byte>)
    ensures |d| == BYTES
  {
    Preamble(sec) + Outputs(Seek(skips, seed, 0, sec), BYTES - |Preamble(sec)|)
  }

  // ----- one stream across the sectors

  lemma OutputsJoin(x: Lfsr, a: nat, b: nat)
    ensures Outputs(x, a + b) == Outputs(x, a) + Outputs(Forward(x, a), b)
  {
    hide Forward, LfsrByte;
    forall k | 0 <= k < b ensures Forward(Forward(x, a), k) == Forward(x, a + k) {
      ForwardAdd(x, a, k);
    }
  }

  lemma {:induction false} OffsetIs(skips: bool, sec: nat)
    ensures Offset(skips, sec) == BYTES * sec + (if skips then (if sec > 6 then -16 else 0) else (if sec == 6 then 16 else 0))
  {
    if sec > 0 {
      OffsetIs(skips, sec - 1);
    }
  }

  lemma SeekIs(skips: bool, seed: Lfsr, sec: nat)
    ensures Seek(skips, seed, 0, sec) == Forward(seed, Offset(skips, sec))
  {
    hide Forward, Backward;
  }

  /** The data of the first n sectors, one behind the other. */
  function TrackData(skips: bool, seed: Lfsr, n: nat): (d: seq<byte>)
    ensures |d| == BYTES * n
  {
    if n == 0 then [] else TrackData(skips, seed, n - 1) + SectorData(skips, seed, n - 1)
  }

  /** The same with the signature left out: the first sixteen bytes of sector 6. */
  function Unsigned(skips: bool, seed: Lfsr, n: nat): seq<byte>
  {
    if n == 0 then []
    else
      var d := SectorData(skips, seed, n - 1);
      Unsigned(skips, seed, n - 1) + (if n == 7 then d[16..] else d)
  }

  /** The signature interrupts the output of the register: without it, the data of
      all sectors is one run of outputs. */
  lemma {:induction false} SignatureInterrupts(seed: Lfsr, n: nat)
    ensures Unsigned(true, seed, n) == Outputs(seed, BYTES * n - (if n > 6 then 16 else 0))
    ensures n >= 7 ==> SectorData(true, seed, 6)[..16] == SEC6_SIG
  {
    hide Outputs, Seek, Offset, Forward;
    if n == 0 {
      OutputsNone(seed);
    } else {
      SignatureInterrupts(seed, n - 1);
      SeekIs(true, seed, n - 1);
      OffsetIs(true, n - 1);
      var from, p := Offset(true, n - 1), |Preamble(n - 1)|;
      OutputsJoin(seed, from, BYTES - p);
      assert SectorData(true, seed, n - 1)[p..] == Outputs(Forward(seed, from), BYTES - p);
    }
  }

  /** The signature takes the place of sixteen outputs. */
  lemma {:induction false} SignatureReplaces(seed: Lfsr, n: nat)
    ensures var o := Outputs(seed, BYTES * n);
            TrackData(false, seed, n) == if n <= 6 then o else o[..3072] + SEC6_SIG + o[3088..]
  {
    hide Outputs, Seek, Offset, Forward;
    if n == 0 {
      OutputsNone(seed);
    } else {
      var m := n - 1;
      SignatureReplaces(seed, m);
      SeekIs(false, seed, m);
      OffsetIs(false, m);
      OutputsJoin(seed, BYTES * m, BYTES);
      var o, before := Outputs(seed, BYTES * n), Outputs(seed, BYTES * m);
      if m == 6 {
        OutputsJoin(seed, 3088, BYTES - 16);
        assert o[..3072] == before && o[3088..] == Outputs(Forward(seed, 3088), BYTES - 16);
      } else if m > 6 {
        assert o[..3072] == before[..3072] && o[3088..] == before[3088..] + SectorData(false, seed, m);
      }
    }
  }

  /** The signatures that follow the first one on two known tracks, and the seed
      of those tracks, 0x3e2896. */
  const EXT_SIGS: seq<seq<byte>> := [[0x54, 0xe1, 0xed, 0x5b, 0x64, 0x85, 0x22, 0x7d],
                                     [0x78, 0x26, 0x46, 0xf4, 0xd5, 0x24, 0xa0, 0x03]]

  function ExtSeed(): Lfsr
  {
    ToBits(0x3e2896, 23)
  }

  /** The bytes of a sector as copylock_read_raw emits them; ext is the number of
      an extended signature, or 0. */
  function Emitted(skips: bool, seed: Lfsr, sec: nat, ext: nat): seq<byte>
    requires ext <= |EXT_SIGS|
  {
    var start, p := Seek(skips, seed, 0, sec), |Preamble(sec)|;
    if sec == 6 && ext > 0 then SEC6_SIG + EXT_SIGS[ext - 1] + Outputs(Forward(start, 8), BYTES - p)
    else Preamble(sec) + Outputs(start, BYTES - p)
  }

  /** The data loop of copylock_read_raw. */
  method WriteData(skips: bool, seed: Lfsr, sec: nat, ext: nat) returns (out: seq<byte>)
    requires ext <= |EXT_SIGS|
    ensures out == Emitted(skips, seed, sec, ext)
  {
    hide Outputs, Seek, LfsrNext, LfsrByte, Forward;
    var lfsr := LfsrSeek(skips, seed, 0, sec);
    out := [];
    var i := 0;
    if sec == 6 {
      out := WriteSignature();
      i := |SEC6_SIG|;
      if ext > 0 {
        out := out + EXT_SIGS[ext - 1];
        lfsr := LfsrForward(lfsr, 8);
      }
    }
    var rest := WriteOutputs(lfsr, i);
    out := out + rest;
  }

  method WriteSignature() returns (out: seq<byte>)
    ensures out == SEC6_SIG
  {
    out := [];
    var i := 0;
    while i < |SEC6_SIG|
      invariant 0 <= i <= |SEC6_SIG| && out == SEC6_SIG[..i]
    {
      out := out + [SEC6_SIG[i]];
      i := i + 1;
    }
  }

  method WriteOutputs(start: Lfsr, p: nat) returns (out: seq<byte>)
    requires p <= BYTES
    ensures out == Outputs(start, BYTES - p)
  {
    hide *;
    var lfsr, i := start, p;
    out := [];
    OutputsNone(start);
    while i < BYTES
      invariant p <= i <= BYTES
      invariant lfsr == Forward(start, i - p) && out == Outputs(start, i - p)
    {
      OutputsMore(start, i - p);
      out := out + [LfsrByte(lfsr)];
      lfsr := LfsrNext(lfsr);
      i := i + 1;
    }
  }

  lemma OutputsNone(x: Lfsr)
    ensures Outputs(x, 0) == [] && Forward(x, 0) == x
  {
  }

  lemma OutputsMore(x: Lfsr, n: nat)
    ensures Outputs(x, n + 1) == Outputs(x, n) + [LfsrByte(Forward(x, n))]
    ensures Forward(x, n + 1) == LfsrNext(Forward(x, n))
  {
    hide LfsrByte;
  }

  /** What is written is the sector itself if and only if it is not sector 6 with an
      extended signature; that one comes out eight bytes too long. */
  lemma EmittedExact(skips: bool, seed: Lfsr, sec: nat, ext: nat)
    requires ext <= |EXT_SIGS|
    ensures Emitted(skips, seed, sec, ext) == SectorData(skips, seed, sec) <==> ext == 0 || sec != 6
    ensures |Emitted(skips, seed, sec, ext)| == BYTES + (if ext == 0 || sec != 6 then 0 else 8)
  {
    hide Seek, Outputs, Forward;
    assert |EXT_SIGS[0]| == 8 && |EXT_SIGS[1]| == 8;
  }

  // ----- recovering the register

  /** The register from three bytes, eight steps apart. */
  function Sampled(b0: byte, b1: byte, b2: byte): Lfsr
  {
    ByteBits(b0) + ByteBits(b1) + ByteBits(b2)[..7]
  }

  /** What was in the low bits moves up unchanged. */
  lemma {:induction false} ForwardShifts(x: Lfsr, n: nat)
    requires n <= 22
    ensures Forward(x, n)[..23 - n] == x[n..]
  {
    if n > 0 {
      ForwardShifts(x, n - 1);
      var y := Forward(x, n - 1);
      forall i | 0 <= i < 23 - n ensures LfsrNext(y)[i] == x[n + i] {
        assert y[..24 - n][i + 1] == x[n - 1..][i + 1];
      }
    }
  }

  /** A bit that has gone in comes out after as many steps as lie between. */
  lemma BitTravels(x: Lfsr, k: nat, i: nat, n: nat)
    requires n <= i < 23
    ensures Forward(x, k + n)[i - n] == Forward(x, k)[i]
  {
    hide Forward;
    ForwardAdd(x, k, n);
    if n == 0 {
      OutputsNone(Forward(x, k));
    } else {
      ForwardShifts(Forward(x, k), n);
      assert Forward(Forward(x, k), n)[..23 - n][i - n] == Forward(x, k)[n..][i - n];
    }
  }

  /** Taps at 23 and 1: every bit is the sum of those 23 and one steps before it, and so
      is every byte put out. */
  lemma Recurrence(x: Lfsr)
    ensures Forward(x, 23) == Xor(x, Forward(x, 22))
    ensures ByteBits(LfsrByte(Forward(x, 23))) == Xor(ByteBits(LfsrByte(x)), ByteBits(LfsrByte(Forward(x, 22))))
  {
    hide Forward, ByteOf, ByteBits;
    var y, z := Forward(x, 22), Forward(x, 23);
    forall j | 0 <= j < 23 ensures z[j] == (x[j] != y[j]) {
      OutputsMore(x, j);
      OutputsNone(x);
      BitTravels(x, j + 1, 22, 22 - j);
      BitTravels(x, j, 22, 22 - j);
      BitTravels(x, 0, j, j);
    }
    BitsOfByte(x[..8]);
    BitsOfByte(y[..8]);
    BitsOfByte(z[..8]);
  }

  lemma SamplesTellAll(x: Lfsr)
    ensures Sampled(LfsrByte(x), LfsrByte(Forward(x, 8)), LfsrByte(Forward(x, 16))) == x
  {
    hide Forward, ByteOf, ToBits;
    ForwardShifts(x, 8);
    ForwardShifts(x, 16);
    var y, z := Forward(x, 8), Forward(x, 16);
    BitsOfByte(x[..8]);
    BitsOfByte(y[..8]);
    BitsOfByte(z[..8]);
    assert y[..8] == x[8..16] by {
      assert y[..15][..8] == x[8..][..8];
    }
    assert z[..8][..7] == x[16..23] by {
      assert z[..7] == x[16..];
    }
    assert x[..8] + x[8..16] + x[16..23] == x;
  }

  const SAMPLE: nat := 256

  /** The seed that the bytes in the middle of a sector point to. */
  function Recovered(skips: bool, sec: nat, dat: seq<byte>): Lfsr
    requires |dat| == BYTES
  {
    var x := Sampled(dat[SAMPLE], dat[SAMPLE + 8], dat[SAMPLE + 16]);
    Seek(skips, Backward(x, SAMPLE - |Preamble(sec)|), sec, 0)
  }

  /** The bytes that are sampled are put out by the register of a seed: that seed
      is recovered, whatever the other bytes are. */
  lemma RecoveredFrom(skips: bool, seed: Lfsr, sec: nat, dat: seq<byte>)
    requires |dat| == BYTES
    requires var start, p := Seek(skips, seed, 0, sec), |Preamble(sec)|;
             && dat[SAMPLE] == LfsrByte(Forward(start, SAMPLE - p))
             && dat[SAMPLE + 8] == LfsrByte(Forward(start, SAMPLE + 8 - p))
             && dat[SAMPLE + 16] == LfsrByte(Forward(start, SAMPLE + 16 - p))
    ensures Recovered(skips, sec, dat) == seed
  {
    hide Seek, Forward, Backward, LfsrByte, Sampled;
    var start, p := Seek(skips, seed, 0, sec), |Preamble(sec)|;
    ForwardAdd(start, SAMPLE - p, 8);
    ForwardAdd(start, SAMPLE - p, 16);
    SamplesTellAll(Forward(start, SAMPLE - p));
    ThereAndBack(start, SAMPLE - p);
    SeekPathIndependent(skips, seed, 0, sec, 0);
  }

  /** From a sector that grew from a seed, that seed is recovered. */
  lemma SeedRecovered(skips: bool, seed: Lfsr, sec: nat)
    ensures Recovered(skips, sec, SectorData(skips, seed, sec)) == seed
  {
    hide Seek, Forward, LfsrByte, Recovered;
    RecoveredFrom(skips, seed, sec, SectorData(skips, seed, sec));
  }

  /** Different seeds make different sectors. */
  lemma SectorsDiffer(skips: bool, s1: Lfsr, s2: Lfsr, sec: nat)
    requires SectorData(skips, s1, sec) == SectorData(skips, s2, sec)
    ensures s1 == s2
  {
    hide Recovered, SectorData;
    SeedRecovered(skips, s1, sec);
    SeedRecovered(skips, s2, sec);
  }

  // ----- decoding a sector

  /** What is known of the track: its seed, zero if unknown, and the extended
      signature, zero if none. */
  datatype Info = Info(seed: Lfsr, ext: nat)

  function Unknown(): Lfsr
  {
    Zeros(23)
  }

  datatype Verdict = Verdict(good: bool, info: Info)

  /** The last extended signature that the bytes show, else the one known before. */
  function ExtShown(dat: seq<byte>, known: nat): nat
    requires |dat| == 8
  {
    if dat == EXT_SIGS[1] then 2 else if dat == EXT_SIGS[0] then 1 else known
  }

  /** The part of copylock_decode that judges the data of sector sec. */
  function Decode(info: Info, skips: bool, sec: nat, dat: seq<byte>): Verdict
    requires |dat| == BYTES
  {
    var p := |Preamble(sec)|;
    if dat[..p] != Preamble(sec) then Verdict(false, info)
    else
      var seed := if info.seed == Unknown() then Recovered(skips, sec, dat) else info.seed;
      var start := Seek(skips, seed, 0, sec);
      if dat[p..] == Outputs(start, BYTES - p) then Stashed(info, seed, info.ext)
      else if sec == 6 && seed == ExtSeed() then DecodeExtended(info, seed, start, dat[p..])
      else Verdict(false, info)
  }

  /** Sector 6 with an extended signature in place of the first eight bytes. */
  function DecodeExtended(info: Info, seed: Lfsr, start: Lfsr, dat: seq<byte>): Verdict
    requires |dat| >= 8
  {
    var ext := ExtShown(dat[..8], info.ext);
    if ext == 0 || dat[8..] != Outputs(Forward(start, 8), |dat| - 8) then Verdict(false, info.(ext := ext))
    else Stashed(info, seed, ext)
  }

  /** A good sector of a track whose seed is zero is not believed. */
  function Stashed(info: Info, seed: Lfsr, ext: nat): Verdict
  {
    if seed == Unknown() then Verdict(false, info.(ext := ext)) else Verdict(true, Info(seed, ext))
  }

  /** The data is what the track with this seed holds, extended signature or not. */
  ghost predicate Genuine(skips: bool, seed: Lfsr, sec: nat, dat: seq<byte>)
  {
    || dat == SectorData(skips, seed, sec)
    || (sec == 6 && seed == ExtSeed() && |dat| == BYTES && dat[..16] == SEC6_SIG
        && dat[24..] == Outputs(Forward(Seek(skips, seed, 0, 6), 8), BYTES - 24))
  }

  lemma PreambleThenOutputs(skips: bool, seed: Lfsr, sec: nat, dat: seq<byte>)
    requires |dat| == BYTES
    ensures dat == SectorData(skips, seed, sec) <==>
              var p := |Preamble(sec)|; dat[..p] == Preamble(sec) && dat[p..] == Outputs(Seek(skips, seed, 0, sec), BYTES - p)
  {
    var p := |Preamble(sec)|;
    assert dat == dat[..p] + dat[p..];
  }

  /** Whatever is accepted comes from the seed that is then known. */
  lemma AcceptedIsGenuine(info: Info, skips: bool, sec: nat, dat: seq<byte>)
    requires |dat| == BYTES && Decode(info, skips, sec, dat).good
    ensures var s := Decode(info, skips, sec, dat).info.seed;
            && s != Unknown() && Genuine(skips, s, sec, dat)
            && (info.seed != Unknown() ==> s == info.seed)
  {
    hide Seek, Outputs, Recovered, ExtSeed, SectorData;
    var seed := if info.seed == Unknown() then Recovered(skips, sec, dat) else info.seed;
    PreambleThenOutputs(skips, seed, sec, dat);
  }

  /** Every sector of a track with a non-zero seed is accepted, known or not, and
      gives away the seed. */
  lemma OwnSectorAccepted(info: Info, skips: bool, seed: Lfsr, sec: nat)
    requires seed != Unknown() && (info.seed == Unknown() || info.seed == seed)
    ensures Decode(info, skips, sec, SectorData(skips, seed, sec)) == Verdict(true, Info(seed, info.ext))
  {
    hide Seek, Outputs, Recovered, SectorData;
    SeedRecovered(skips, seed, sec);
    PreambleThenOutputs(skips, seed, sec, SectorData(skips, seed, sec));
  }

  predicate ExtKnown(sig: seq<byte>, ext: nat)
  {
    sig == EXT_SIGS[0] || sig == EXT_SIGS[1] || ext != 0
  }

  lemma ShownIffKnown(sig: seq<byte>, ext: nat)
    requires |sig| == 8
    ensures ExtShown(sig, ext) != 0 <==> ExtKnown(sig, ext)
  {
  }

  /** A sector 6 with an extended signature: the signature of sector 6, one of the
      known signatures or any eight bytes if one is known already, and then what the
      known seed puts out. */
  ghost predicate Extended(skips: bool, sec: nat, dat: seq<byte>, ext: nat)
    requires |dat| == BYTES
  {
    && sec == 6 && dat[..16] == SEC6_SIG && ExtKnown(dat[16..24], ext)
    && dat[24..] == Outputs(Forward(Seek(skips, ExtSeed(), 0, 6), 8), BYTES - 24)
  }

  lemma ExtendedAccepted(skips: bool, dat: seq<byte>, ext: nat)
    requires |dat| == BYTES && Extended(skips, 6, dat, ext)
    ensures Decode(Info(Unknown(), ext), skips, 6, dat).good
  {
    hide Seek, Outputs, Forward, Recovered, ExtShown, ExtKnown, Sampled;
    ShownIffKnown(dat[16..24], ext);
    ExtendedSeed(skips, dat, ext);
    assert dat[..16] == Preamble(6) && dat[16..][..8] == dat[16..24] && dat[16..][8..] == dat[24..];
  }

  lemma ExtendedSeed(skips: bool, dat: seq<byte>, ext: nat)
    requires |dat| == BYTES && Extended(skips, 6, dat, ext)
    ensures Recovered(skips, 6, dat) == ExtSeed() != Unknown()
  {
    hide Seek, LfsrByte, Recovered, ExtKnown, ExtSeed, Forward;
    var start := Seek(skips, ExtSeed(), 0, 6);
    ForwardAdd(start, 8, SAMPLE - 24);
    ForwardAdd(start, 8, SAMPLE - 16);
    ForwardAdd(start, 8, SAMPLE - 8);
    assert dat[SAMPLE] == dat[24..][SAMPLE - 24];
    assert dat[SAMPLE + 8] == dat[24..][SAMPLE - 16];
    assert dat[SAMPLE + 16] == dat[24..][SAMPLE - 8];
    RecoveredFrom(skips, ExtSeed(), 6, dat);
    SeedNotZero();
  }

  /** Sector 6 as it is written with the first or the second extended signature: its
      512 bytes are accepted, and tell which signature it was, unless they are what the
      sector holds without one. */
  lemma ExtendedReadsBack(skips: bool, ext: nat)
    requires 1 <= ext <= |EXT_SIGS|
    ensures var dat := Emitted(skips, ExtSeed(), 6, ext);
            |dat| >= BYTES && dat[16..24] == (if ext == 1 then [0x54, 0xe1, 0xed, 0x5b, 0x64, 0x85, 0x22, 0x7d]
                                              else [0x78, 0x26, 0x46, 0xf4, 0xd5, 0x24, 0xa0, 0x03])
    ensures var dat := Emitted(skips, ExtSeed(), 6, ext)[..BYTES];
            && Decode(Info(Unknown(), 0), skips, 6, dat).good
            && (dat != SectorData(skips, ExtSeed(), 6)
                ==> Decode(Info(Unknown(), 0), skips, 6, dat) == Verdict(true, Info(ExtSeed(), ext)))
  {
    hide Seek, Forward, Recovered, ExtSeed, LfsrByte, Outputs, SectorData, Emitted;
    var start, sig := Seek(skips, ExtSeed(), 0, 6), EXT_SIGS[ext - 1];
    var rest := Outputs(Forward(start, 8), BYTES - 16);
    EmittedParts(skips, ext);
    var dat := Emitted(skips, ExtSeed(), 6, ext)[..BYTES];
    ExtendedAccepted(skips, dat, 0);
    ExtendedSeed(skips, dat, 0);
    PreambleThenOutputs(skips, ExtSeed(), 6, dat);
    assert dat[16..][..8] == sig && dat[16..][8..] == dat[24..];
    assert EXT_SIGS[0] != EXT_SIGS[1];
  }

  lemma EmittedParts(skips: bool, ext: nat)
    requires 1 <= ext <= |EXT_SIGS|
    ensures var start, long := Seek(skips, ExtSeed(), 0, 6), Emitted(skips, ExtSeed(), 6, ext);
            && |long| == BYTES + 8 && long[16..24] == long[..BYTES][16..24] == EXT_SIGS[ext - 1]
            && long[..BYTES][..16] == SEC6_SIG
            && long[..BYTES][24..] == Outputs(Forward(start, 8), BYTES - 24)
  {
    hide Seek, Forward, ExtSeed, Outputs;
    var start := Seek(skips, ExtSeed(), 0, 6);
    OutputsJoin(Forward(start, 8), BYTES - 24, 8);
    InParts(SEC6_SIG, EXT_SIGS[ext - 1], Outputs(Forward(start, 8), BYTES - 24), Outputs(Forward(Forward(start, 8), BYTES - 24), 8));
  }

  lemma InParts(a: seq<byte>, b: seq<byte>, c: seq<byte>, d: seq<byte>)
    requires |a| == 16 && |b| == 8 && |c| == BYTES - 24 && |d| == 8
    ensures var s := a + b + (c + d);
            s[16..24] == s[..BYTES][16..24] == b && s[..BYTES][..16] == a && s[..BYTES][24..] == c
  {
  }

  lemma SeedNotZero()
    ensures ExtSeed() != Unknown()
  {
    hide ToBits;
    LowBit(0x3e2896, 22);
    LowBit(0x1f144b, 21);
    assert ExtSeed()[21];
  }

  lemma LowBit(n: nat, k: nat)
    ensures ToBits(n, k + 1) == ToBits(n / 2, k) + [n % 2 == 1]
  {
  }

  lemma AcceptedShape(skips: bool, sec: nat, dat: seq<byte>, ext: nat)
    requires |dat| == BYTES
    ensures var v := Decode(Info(Unknown(), ext), skips, sec, dat);
            v.good ==> v.info.seed != Unknown()
                       && (dat == SectorData(skips, v.info.seed, sec) || Extended(skips, sec, dat, ext))
  {
    hide Seek, Outputs, Recovered, ExtShown, ExtKnown, ExtSeed, Forward;
    var seed := Recovered(skips, sec, dat);
    ShownIffKnown(dat[16..24], ext);
    PreambleThenOutputs(skips, seed, sec, dat);
    assert dat[16..][..8] == dat[16..24] && dat[16..][8..] == dat[24..];
  }

  /** With nothing known, exactly those sectors are accepted that grow from some
      non-zero seed, or are sector 6 with an extended signature. */
  lemma AcceptedIffGrown(skips: bool, sec: nat, dat: seq<byte>, ext: nat)
    requires |dat| == BYTES
    ensures Decode(Info(Unknown(), ext), skips, sec, dat).good <==>
              || (exists seed: Lfsr :: seed != Unknown() && dat == SectorData(skips, seed, sec))
              || Extended(skips, sec, dat, ext)
  {
    hide Decode, SectorData, Extended;
    AcceptedShape(skips, sec, dat, ext);
    if seed: Lfsr :| seed != Unknown() && dat == SectorData(skips, seed, sec) {
      OwnSectorAccepted(Info(Unknown(), ext), skips, seed, sec);
    }
    if Extended(skips, sec, dat, ext) {
      ExtendedIsSix(skips, sec, dat, ext);
      ExtendedAccepted(skips, dat, ext);
    }
  }

  lemma ExtendedIsSix(skips: bool, sec: nat, dat: seq<byte>, ext: nat)
    requires |dat| == BYTES && Extended(skips, sec, dat, ext)
    ensures sec == 6
  {
  }

  /** Any one good sector determines the whole track. */
  lemma OneSectorGivesTrack(skips: bool, seed: Lfsr, sec: nat, other: nat, ext: nat)
    requires seed != Unknown()
    ensures var v := Decode(Info(Unknown(), ext), skips, sec, SectorData(skips, seed, sec));
            v.good && SectorData(skips, v.info.seed, other) == SectorData(skips, seed, other)
  {
    hide Decode, SectorData;
    OwnSectorAccepted(Info(Unknown(), ext), skips, seed, sec);
  }

  // ----- a whole read

  /** A sector as it comes off the disk. */
  datatype Candidate = Candidate(sec: nat, dat: seq<byte>)

  datatype Scan = Scan(info: Info, good: map<nat, seq<byte>>)

  ghost predicate CandidatesOk(cs: seq<Candidate>)
  {
    forall i | 0 <= i < |cs| :: |cs[i].dat| == BYTES
  }

  /** copylock_decode over the sectors it meets; one that is already valid, or
      whose number is too large, is passed over. */
  function Scanned(skips: bool, cs: seq<Candidate>): Scan
    requires forall i | 0 <= i < |cs| :: |cs[i].dat| == BYTES
  {
    if cs == [] then Scan(Info(Unknown(), 0), map[])
    else
      var before, c := Scanned(skips, cs[..|cs| - 1]), cs[|cs| - 1];
      if c.sec >= SECTORS || c.sec in before.good then before
      else
        var v := Decode(before.info, skips, c.sec, c.dat);
        Scan(v.info, if v.good then before.good[c.sec := c.dat] else before.good)
  }

  lemma SeedKept(info: Info, skips: bool, sec: nat, dat: seq<byte>)
    requires |dat| == BYTES && info.seed != Unknown()
    ensures Decode(info, skips, sec, dat).info.seed == info.seed
  {
    hide Seek, Outputs, Recovered, ExtSeed;
  }

  lemma UnknownUntilGood(info: Info, skips: bool, sec: nat, dat: seq<byte>)
    requires |dat| == BYTES && info.seed == Unknown() && !Decode(info, skips, sec, dat).good
    ensures Decode(info, skips, sec, dat).info.seed == Unknown()
  {
    hide Seek, Outputs, Recovered, ExtSeed;
  }

  /** Whatever is read, in whatever order, all sectors that are accepted belong to
      one and the same track, the one whose seed is kept. */
  lemma {:induction false} AllFromOneSeed(skips: bool, cs: seq<Candidate>)
    requires CandidatesOk(cs)
    ensures var s := Scanned(skips, cs);
            && (s.good == map[] <==> s.info.seed == Unknown())
            && forall sec | sec in s.good :: Genuine(skips, s.info.seed, sec, s.good[sec])
  {
    hide Decode, Genuine;
    if cs != [] {
      var before, c := Scanned(skips, cs[..|cs| - 1]), cs[|cs| - 1];
      AllFromOneSeed(skips, cs[..|cs| - 1]);
      var v := Decode(before.info, skips, c.sec, c.dat);
      if before.info.seed != Unknown() {
        SeedKept(before.info, skips, c.sec, c.dat);
      } else if !v.good {
        UnknownUntilGood(before.info, skips, c.sec, c.dat);
      }
      if v.good {
        AcceptedIsGenuine(before.info, skips, c.sec, c.dat);
        assert c.sec in before.good[c.sec := c.dat];
      }
    }
  }

  /** The first good reading of a sector stays, and only sectors of the track are kept. */
  lemma FirstStays(skips: bool, cs: seq<Candidate>, c: Candidate)
    requires CandidatesOk(cs) && |c.dat| == BYTES
    ensures CandidatesOk(cs + [c])
    ensures var a, b := Scanned(skips, cs).good, Scanned(skips, cs + [c]).good;
            && (forall sec | sec in a :: sec in b && b[sec] == a[sec])
            && (forall sec | sec in b && sec !in a :: sec == c.sec < 11 && b[sec] == c.dat)
  {
    hide Decode;
    assert (cs + [c])[..|cs|] == cs;
  }

  // ----- the decoder

  /** lfsr_check. */
  method LfsrCheck(x: Lfsr, dat: seq<byte>) returns (ok: bool)
    ensures ok <==> dat == Outputs(x, |dat|)
  {
    hide LfsrNext, LfsrByte;
    var lfsr := x;
    var k := 0;
    while k < |dat|
      invariant 0 <= k <= |dat| && lfsr == Forward(x, k)
      invariant forall j | 0 <= j < k :: dat[j] == LfsrByte(Forward(x, j))
    {
      if dat[k] != LfsrByte(lfsr) {
        assert Outputs(x, |dat|)[k] == LfsrByte(lfsr);
        return false;
      }
      lfsr := LfsrNext(lfsr);
      k := k + 1;
    }
    assert dat == Outputs(x, |dat|);
    return true;
  }

  /** What copylock_decode does with the data of one sector. */
  method DecodeSector(info: Info, skips: bool, sec: nat, dat: seq<byte>) returns (v: Verdict)
    requires |dat| == BYTES
    ensures v == Decode(info, skips, sec, dat)
  {
    hide Seek, Forward, Backward, Outputs, Sampled, ExtSeed;
    var i := 0;
    if sec == 6 {
      if dat[..16] != SEC6_SIG {
        return Verdict(false, info);
      }
      i := 16;
    }
    var lfsr, seed := info.seed, info.seed;
    if info.seed == Unknown() {
      lfsr := Sampled(dat[SAMPLE], dat[SAMPLE + 8], dat[SAMPLE + 16]);
      lfsr := LfsrBackward(lfsr, SAMPLE - i);
      SeekPathIndependent(skips, lfsr, sec, 0, sec);
      seed := LfsrSeek(skips, lfsr, sec, 0);
    } else {
      lfsr := LfsrSeek(skips, seed, 0, sec);
    }
    var ext := info.ext;
    var rest := dat[i..];
    var matches := LfsrCheck(lfsr, rest);
    if !matches {
      if sec != 6 || seed != ExtSeed() {
        return Verdict(false, info);
      }
      if rest[..8] == EXT_SIGS[0] {
        ext := 1;
      }
      if rest[..8] == EXT_SIGS[1] {
        ext := 2;
      }
      if ext == 0 {
        return Verdict(false, info);
      }
      lfsr := LfsrForward(lfsr, 8);
      matches := LfsrCheck(lfsr, rest[8..]);
      if !matches {
        return Verdict(false, info.(ext := ext));
      }
    }
    if info.seed == Unknown() && seed == Unknown() {
      return Verdict(false, info.(ext := ext));
    }
    return Verdict(true, Info(seed, ext));
  }

  /** The loop of copylock_decode over the sectors it meets. */
  method CopylockDecode(skips: bool, cs: seq<Candidate>) returns (s: Scan)
    requires CandidatesOk(cs)
    ensures s == Scanned(skips, cs)
  {
    hide Decode;
    s := Scan(Info(Unknown(), 0), map[]);
    for i := 0 to |cs|
      invariant CandidatesOk(cs[..i]) && s == Scanned(skips, cs[..i])
    {
      assert cs[..i + 1][..i] == cs[..i];
      if cs[i].sec >= SECTORS || cs[i].sec in s.good {
        continue;
      }
      var v := DecodeSector(s.info, skips, cs[i].sec, cs[i].dat);
      s := Scan(v.info, if v.good then s.good[cs[i].sec := cs[i].dat] else s.good);
    }
    assert cs[..|cs|] == cs;
  }
}
