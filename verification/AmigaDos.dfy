/** AmigaDOS tracks: eleven back-to-back sectors, each behind its own sync mark,
    with the even data bits of every field written before the odd ones. */
module AmigaDos {
  import opened Bits
  import opened Mfm
  import opened TrackBuffer
  import opened StreamReader
  import opened SyncMarks
  import opened Speed

  const SECTORS: nat := 11
  const STD_SEC: nat := 512
  const RAW_BYTES: nat := 1080

  /** What the track handler keeps of one sector.  A standard track has fixed
      sync, header and speed; the extended form records them. */
  datatype Image = Image(sync: seq<bool>, hdr: seq<byte>, speed: nat, dat: seq<byte>)

  ghost predicate ImageOk(im: Image)
  {
    |im.sync| == 32 && |im.hdr| == 20 && |im.dat| == STD_SEC
  }

  /** syncs[0], 0x44894489. */
  function StdSync(): (s: seq<bool>)
    ensures |s| == 32
  {
    H4489() + H4489()
  }

  /** The image of a sector of a standard track. */
  function StdImage(track: byte, dat: seq<byte>): Image
  {
    Image(StdSync(), [0xff, track] + seq(18, _ => 0), SPEED_AVG, dat)
  }

  // ----- checksum

  function XorWords(bs: seq<byte>): (c: seq<bool>)
    ensures |c| == 32
  {
    if |bs| < 4 then Zeros(32) else Xor(XorWords(bs[..|bs| - 4]), BytesBits(bs[|bs| - 4..]))
  }

  /** c ^= c >> 1; c &= 0x55555555. */
  function FoldPairs(c: seq<bool>): (r: seq<bool>)
    requires |c| == 32
    ensures |r| == 32
  {
    var x := Xor(c, Shr(c, 1));
    seq(32, i requires 0 <= i < 32 => i % 2 == 1 && x[i])
  }

  function Checksum(bs: seq<byte>): (c: seq<bool>)
    ensures |c| == 32
  {
    FoldPairs(XorWords(bs))
  }

  /** amigados_checksum. */
  method AmigadosChecksum(dat: seq<byte>) returns (csum: seq<bool>)
    requires |dat| % 4 == 0
    ensures csum == Checksum(dat)
  {
    csum := Zeros(32);
    for i := 0 to |dat| / 4
      invariant |csum| == 32 && csum == XorWords(dat[..4 * i])
    {
      assert dat[..4 * (i + 1)][..4 * i] == dat[..4 * i];
      assert dat[..4 * (i + 1)][4 * i..] == dat[4 * i..4 * i + 4];
      csum := Xor(csum, BytesBits(dat[4 * i..4 * i + 4]));
    }
    assert dat[..4 * (|dat| / 4)] == dat;
    csum := FoldPairs(csum);
  }

  // ----- what the checksum means

  /** Bit i of every word of the buffer. */
  function Column(bs: seq<byte>, i: nat): (c: seq<bool>)
    requires |bs| % 4 == 0 && i < 32
    ensures |c| == |bs| / 4
  {
    seq(|bs| / 4, w requires 0 <= w < |bs| / 4 => BytesBits(bs)[32 * w + i])
  }

  /** An odd number of ones. */
  predicate Odd(s: seq<bool>)
  {
    s != [] && Odd(s[..|s| - 1]) != s[|s| - 1]
  }

  lemma ColumnMore(bs: seq<byte>, i: nat)
    requires |bs| % 4 == 0 && bs != [] && i < 32
    ensures Column(bs, i) == Column(bs[..|bs| - 4], i) + [BytesBits(bs[|bs| - 4..])[i]]
  {
    hide BytesBits;
    var front, last := bs[..|bs| - 4], bs[|bs| - 4..];
    BytesBitsAppend(front, last);
    assert front + last == bs;
  }

  lemma {:induction false} XorWordsAt(bs: seq<byte>, i: nat)
    requires |bs| % 4 == 0 && i < 32
    ensures XorWords(bs)[i] == Odd(Column(bs, i))
  {
    hide BytesBits, Column;
    if bs != [] {
      ColumnMore(bs, i);
      XorWordsAt(bs[..|bs| - 4], i);
      assert Column(bs, i)[..|bs| / 4 - 1] == Column(bs[..|bs| - 4], i);
    }
  }

  /** Bit 2k + 1 of the checksum is the parity of the bits 2k and 2k + 1 over all words
      of the buffer; the others are clear. */
  lemma ChecksumIs(bs: seq<byte>, i: nat)
    requires |bs| % 4 == 0 && i < 32
    ensures Checksum(bs)[i] <==> i % 2 == 1 && Odd(Column(bs, i - 1)) != Odd(Column(bs, i))
  {
    hide XorWords, Odd, Column;
    XorWordsAt(bs, i);
    if i > 0 {
      XorWordsAt(bs, i - 1);
    }
  }

  /** Two lists that differ in one place. */
  lemma {:induction false} OneOff(s: seq<bool>, t: seq<bool>, k: nat)
    requires k < |s| == |t| && forall j | 0 <= j < |s| :: s[j] != t[j] <==> j == k
    ensures Odd(s) != Odd(t)
  {
    var n := |s| - 1;
    if k < n {
      OneOff(s[..n], t[..n], k);
    } else {
      assert s[..n] == t[..n];
    }
  }

  lemma ColumnOff(a: seq<byte>, b: seq<byte>, i: nat, j: nat)
    requires |a| == |b| && |a| % 4 == 0 && i < 8 * |a| && j < 32
    requires forall k | 0 <= k < 8 * |a| :: BytesBits(a)[k] != BytesBits(b)[k] <==> k == i
    ensures Odd(Column(a, j)) != Odd(Column(b, j)) <==> j == i % 32
  {
    hide BytesBits, Odd, Column;
    forall w | 0 <= w < |a| / 4 ensures Column(a, j)[w] != Column(b, j)[w] <==> j == i % 32 && w == i / 32 {
      ColumnAt(a, j, w);
      ColumnAt(b, j, w);
      InWord(i, j, w);
    }
    if j == i % 32 {
      OneOff(Column(a, j), Column(b, j), i / 32);
    } else {
      assert Column(a, j) == Column(b, j);
    }
  }

  lemma ColumnAt(bs: seq<byte>, j: nat, w: nat)
    requires |bs| % 4 == 0 && j < 32 && w < |bs| / 4
    ensures 32 * w + j < 8 * |bs| && Column(bs, j)[w] == BytesBits(bs)[32 * w + j]
  {
    hide BytesBits;
    WordInside(|bs|, w);
  }

  lemma WordInside(n: nat, w: nat)
    requires n % 4 == 0 && w < n / 4
    ensures 4 * w + 4 <= n
  {
  }

  lemma InWord(i: nat, j: nat, w: nat)
    requires j < 32
    ensures 32 * w + j == i <==> j == i % 32 && w == i / 32
  {
  }

  /** A single bit that is off, wherever it is, shows in the checksum, and in one bit
      of it alone. */
  lemma OneBitOff(a: seq<byte>, b: seq<byte>, i: nat)
    requires |a| == |b| && |a| % 4 == 0 && i < 8 * |a|
    requires forall k | 0 <= k < 8 * |a| :: BytesBits(a)[k] != BytesBits(b)[k] <==> k == i
    ensures Checksum(a) != Checksum(b)
    ensures forall j | 0 <= j < 32 :: Checksum(a)[j] != Checksum(b)[j] <==> j == i % 32 / 2 * 2 + 1
  {
    hide BytesBits, Odd, Column, Checksum;
    forall j | 0 <= j < 32 ensures Checksum(a)[j] != Checksum(b)[j] <==> j == i % 32 / 2 * 2 + 1 {
      ChecksumIs(a, j);
      ChecksumIs(b, j);
      ColumnOff(a, b, i, j);
      if j > 0 {
        ColumnOff(a, b, i, j - 1);
      }
    }
    var at := i % 32 / 2 * 2 + 1;
    assert Checksum(a)[at] != Checksum(b)[at];
  }

  // ----- the encoder

  /** The header of sector i: its number and its distance to the gap are filled
      in, the rest comes from the image. */
  function Header(im: Image, i: nat): (h: seq<byte>)
    requires ImageOk(im) && i < SECTORS
    ensures |h| == 20
  {
    [im.hdr[0], im.hdr[1], i, SECTORS - i] + im.hdr[4..]
  }

  function WordLayout(c: seq<bool>): (s: seq<bool>)
    ensures |s| == 2 * (|c| / 2)
  {
    EvenBits(c) + DataBits(c)
  }

  /** The data bits of a sector after its sync mark. */
  function Body(im: Image, i: nat): (d: seq<bool>)
    requires ImageOk(im) && i < SECTORS
    ensures |d| == 4 * RAW_BYTES
  {
    var h := Header(im, i);
    Layout(EvenOdd, h[..4]) + Layout(EvenOdd, h[4..]) + WordLayout(Checksum(h)) + WordLayout(Checksum(im.dat))
    + Layout(EvenOdd, im.dat)
  }

  function SectorCells(prev: bool, im: Image, i: nat): (c: seq<bool>)
    requires ImageOk(im) && i < SECTORS
    ensures |c| == 8704
  {
    Encode(prev, Zeros(16)) + im.sync + Encode(im.sync[31], Body(im, i))
  }

  ghost predicate ImagesOk(ims: seq<Image>)
  {
    |ims| == SECTORS && forall j | 0 <= j < SECTORS :: ImageOk(ims[j])
  }

  /** The data bit written last before sector k. */
  function PrevBit(prev: bool, ims: seq<Image>, k: nat): bool
    requires k <= SECTORS && ImagesOk(ims)
  {
    if k == 0 then prev else Body(ims[k - 1], k - 1)[4 * RAW_BYTES - 1]
  }

  function TrackCells(prev: bool, ims: seq<Image>, k: nat): (c: seq<bool>)
    requires k <= SECTORS && ImagesOk(ims)
    ensures |c| == 8704 * k
  {
    if k == 0 then []
    else TrackCells(prev, ims, k - 1) + SectorCells(PrevBit(prev, ims, k - 1), ims[k - 1], k - 1)
  }

  /** The inter-sector gap and the sync mark. */
  method EncodeMark(tbuf: Tbuf, im: Image)
    requires tbuf.Valid() && ImageOk(im)
    modifies tbuf`pos, tbuf`prev, tbuf`crc, tbuf`log, tbuf`speeds, tbuf.bits, tbuf.speed
    ensures tbuf.Valid()
    ensures tbuf.log == old(tbuf.log) + (Encode(old(tbuf.prev), Zeros(16)) + im.sync)
    ensures tbuf.prev == im.sync[31]
    ensures tbuf.speeds == old(tbuf.speeds) + Repeat(im.speed, |tbuf.log| - |old(tbuf.log)|)
  {
    hide *;
    ImageParts(im);
    GapBits(tbuf.prev);
    tbuf.Emit(im.speed, Data, 16, 0);
    RawWord(tbuf.prev, im.sync);
    RepeatTwice(im.speed, old(tbuf.speeds), |old(tbuf.log)|, |tbuf.log|, |tbuf.log| + 32);
    tbuf.Emit(im.speed, Raw, 32, Val(im.sync));
  }

  /** Two byte fields in even-odd layout. */
  method EncodePair(tbuf: Tbuf, speed: nat, x: seq<byte>, y: seq<byte>)
    requires tbuf.Valid()
    modifies tbuf`pos, tbuf`prev, tbuf`crc, tbuf`log, tbuf`speeds, tbuf.bits, tbuf.speed
    ensures tbuf.Valid()
    ensures tbuf.log == old(tbuf.log) + Encode(old(tbuf.prev), Layout(EvenOdd, x) + Layout(EvenOdd, y))
    ensures tbuf.prev == LastBit(old(tbuf.prev), Layout(EvenOdd, x) + Layout(EvenOdd, y))
    ensures tbuf.speeds == old(tbuf.speeds) + Repeat(speed, |tbuf.log| - |old(tbuf.log)|)
  {
    hide *;
    Continue(tbuf.prev, Layout(EvenOdd, x), Layout(EvenOdd, y));
    tbuf.EmitBytes(speed, EvenOdd, x);
    ghost var half := |tbuf.log|;
    tbuf.EmitBytes(speed, EvenOdd, y);
    RepeatTwice(speed, old(tbuf.speeds), |old(tbuf.log)|, half, |tbuf.log|);
  }

  /** The two checksums, each a 32-bit word in even-odd layout. */
  method EncodeSums(tbuf: Tbuf, speed: nat, h: seq<byte>, dat: seq<byte>)
    requires tbuf.Valid() && |h| % 4 == 0 && |dat| % 4 == 0
    modifies tbuf`pos, tbuf`prev, tbuf`crc, tbuf`log, tbuf`speeds, tbuf.bits, tbuf.speed
    ensures tbuf.Valid()
    ensures tbuf.log == old(tbuf.log)
              + Encode(old(tbuf.prev), WordLayout(Checksum(h)) + WordLayout(Checksum(dat)))
    ensures tbuf.prev == LastBit(old(tbuf.prev), WordLayout(Checksum(h)) + WordLayout(Checksum(dat)))
    ensures tbuf.speeds == old(tbuf.speeds) + Repeat(speed, |tbuf.log| - |old(tbuf.log)|)
  {
    hide *;
    Continue(tbuf.prev, WordLayout(Checksum(h)), WordLayout(Checksum(dat)));
    var csum := AmigadosChecksum(h);
    WordEmitted(tbuf.prev, csum);
    tbuf.Emit(speed, DataEvenOdd, 32, Val(csum));
    ghost var half := |tbuf.log|;
    csum := AmigadosChecksum(dat);
    WordEmitted(tbuf.prev, csum);
    tbuf.Emit(speed, DataEvenOdd, 32, Val(csum));
    RepeatTwice(speed, old(tbuf.speeds), |old(tbuf.log)|, half, |tbuf.log|);
  }

  /** One pass of the loop of ados_read_raw. */
  method EncodeSector(tbuf: Tbuf, im: Image, i: nat)
    requires tbuf.Valid() && ImageOk(im) && i < SECTORS
    modifies tbuf`pos, tbuf`prev, tbuf`crc, tbuf`log, tbuf`speeds, tbuf.bits, tbuf.speed
    ensures tbuf.Valid()
    ensures tbuf.log == old(tbuf.log) + SectorCells(old(tbuf.prev), im, i)
    ensures tbuf.prev == Body(im, i)[4 * RAW_BYTES - 1]
    ensures tbuf.speeds == old(tbuf.speeds) + Repeat(im.speed, 8704)
  {
    hide *;
    ImageParts(im);
    SectorParts(tbuf.prev, im, i);
    ghost var log0, p0, sp0 := tbuf.log, tbuf.prev, tbuf.speeds;
    var h := Header(im, i);
    EncodeMark(tbuf, im);
    ghost var l1 := |tbuf.log|;
    ghost var p1 := im.sync[31];
    ghost var d1 := Layout(EvenOdd, h[..4]) + Layout(EvenOdd, h[4..]);
    ghost var d2 := WordLayout(Checksum(h)) + WordLayout(Checksum(im.dat));
    ghost var d3 := Layout(EvenOdd, im.dat);
    EncodePair(tbuf, im.speed, h[..4], h[4..]);
    ghost var l2 := |tbuf.log|;
    Continue(p1, d1, d2);
    EncodeSums(tbuf, im.speed, h, im.dat);
    ghost var l3 := |tbuf.log|;
    Continue(p1, d1 + d2, d3);
    tbuf.EmitBytes(im.speed, EvenOdd, im.dat);
    RepeatFour(im.speed, sp0, |log0|, l1, l2, l3, |tbuf.log|);
    FiveParts(log0, Encode(p0, Zeros(16)) + im.sync, Encode(p1, d1), Encode(LastBit(p1, d1), d2),
              Encode(LastBit(p1, d1 + d2), d3));
    LastOf(p1, d1 + d2 + d3);
  }

  lemma FiveParts(a: seq<bool>, b: seq<bool>, c: seq<bool>, d: seq<bool>, e: seq<bool>)
    ensures a + b + c + d + e == a + (b + (c + d + e))
  {
  }

  /** Cells of one speed, and then more of it. */
  lemma RepeatTwice(sp: nat, s: seq<nat>, a: nat, b: nat, c: nat)
    requires a <= b <= c
    ensures s + Repeat(sp, b - a) + Repeat(sp, c - b) == s + Repeat(sp, c - a)
  {
    RepeatMore(sp, b - a, c - b);
  }

  lemma RepeatFour(sp: nat, s: seq<nat>, a: nat, b: nat, c: nat, d: nat, e: nat)
    requires a <= b <= c <= d <= e
    ensures s + Repeat(sp, b - a) + Repeat(sp, c - b) + Repeat(sp, d - c) + Repeat(sp, e - d) == s + Repeat(sp, e - a)
  {
    hide Repeat;
    RepeatTwice(sp, s, a, b, c);
    RepeatTwice(sp, s, a, c, d);
    RepeatTwice(sp, s, a, d, e);
  }

  lemma ImageParts(im: Image)
    requires ImageOk(im)
    ensures |im.sync| == 32 && |im.hdr| == 20 && |im.dat| == STD_SEC && |im.dat| % 4 == 0
  {
  }

  lemma GapBits(prev: bool)
    ensures EmittedCells(Data, prev, ToBits(0, 16)) == Encode(prev, Zeros(16))
  {
    ToBitsZero(16);
  }

  lemma SectorParts(prev: bool, im: Image, i: nat)
    requires ImageOk(im) && i < SECTORS
    ensures SectorCells(prev, im, i) == Encode(prev, Zeros(16)) + im.sync + Encode(im.sync[31], Body(im, i))
    ensures var h := Header(im, i);
            Body(im, i) == (Layout(EvenOdd, h[..4]) + Layout(EvenOdd, h[4..]))
                           + (WordLayout(Checksum(h)) + WordLayout(Checksum(im.dat))) + Layout(EvenOdd, im.dat)
    ensures |Body(im, i)| == 4 * RAW_BYTES
  {
    hide Encode, Layout, Checksum;
  }

  lemma RawWord(prev: bool, w: seq<bool>)
    requires |w| == 32
    ensures forall p: bool :: EmittedCells(Raw, p, ToBits(Val(w), 32)) == w
    ensures forall p: bool :: LastBit(p, Order(Raw, ToBits(Val(w), 32))) == w[31]
  {
    ToBitsVal(w);
  }

  /** Going on after the data bits d. */
  lemma Continue(prev: bool, d: seq<bool>, next: seq<bool>)
    ensures Encode(prev, d + next) == Encode(prev, d) + Encode(LastBit(prev, d), next)
    ensures LastBit(prev, d + next) == LastBit(LastBit(prev, d), next)
  {
    EncodeAppend(prev, d, next);
  }

  lemma WordEmitted(prev: bool, w: seq<bool>)
    requires |w| == 32
    ensures EmittedCells(DataEvenOdd, prev, ToBits(Val(w), 32)) == Encode(prev, WordLayout(w))
    ensures Order(DataEvenOdd, ToBits(Val(w), 32)) == WordLayout(w)
  {
    ToBitsVal(w);
  }

  lemma LastOf(prev: bool, d: seq<bool>)
    requires d != []
    ensures LastBit(prev, d) == d[|d| - 1]
  {
  }

  /** Each sector at the speed recorded for it. */
  function TrackSpeeds(ims: seq<Image>, k: nat): seq<nat>
    requires k <= |ims|
  {
    if k == 0 then [] else TrackSpeeds(ims, k - 1) + Repeat(ims[k - 1].speed, 8704)
  }

  /** ados_read_raw. */
  method AdosReadRaw(tbuf: Tbuf, ims: seq<Image>)
    requires tbuf.Valid() && ImagesOk(ims)
    modifies tbuf`pos, tbuf`prev, tbuf`crc, tbuf`log, tbuf`speeds, tbuf.bits, tbuf.speed
    ensures tbuf.Valid()
    ensures tbuf.log == old(tbuf.log) + TrackCells(old(tbuf.prev), ims, SECTORS)
    ensures tbuf.speeds == old(tbuf.speeds) + TrackSpeeds(ims, SECTORS)
    ensures tbuf.prev == PrevBit(old(tbuf.prev), ims, SECTORS)
  {
    hide *;
    ghost var p0, log0, sp0 := tbuf.prev, tbuf.log, tbuf.speeds;
    NoSectors(p0, ims);
    for i := 0 to SECTORS
      invariant tbuf.Valid()
      invariant tbuf.log == log0 + TrackCells(p0, ims, i)
      invariant tbuf.prev == PrevBit(p0, ims, i)
      invariant tbuf.speeds == sp0 + TrackSpeeds(ims, i)
    {
      OneSectorMore(p0, ims, i);
      EncodeSector(tbuf, ims[i], i);
    }
  }

  lemma NoSectors(prev: bool, ims: seq<Image>)
    requires ImagesOk(ims)
    ensures |ims| == SECTORS && forall j | 0 <= j < SECTORS :: ImageOk(ims[j])
    ensures TrackCells(prev, ims, 0) == [] && TrackSpeeds(ims, 0) == [] && PrevBit(prev, ims, 0) == prev
  {
  }

  lemma OneSectorMore(prev: bool, ims: seq<Image>, k: nat)
    requires k < SECTORS && ImagesOk(ims)
    ensures TrackCells(prev, ims, k + 1) == TrackCells(prev, ims, k) + SectorCells(PrevBit(prev, ims, k), ims[k], k)
    ensures TrackSpeeds(ims, k + 1) == TrackSpeeds(ims, k) + Repeat(ims[k].speed, 8704)
    ensures PrevBit(prev, ims, k + 1) == Body(ims[k], k)[4 * RAW_BYTES - 1]
  {
    hide SectorCells, Body, Repeat;
  }
}
