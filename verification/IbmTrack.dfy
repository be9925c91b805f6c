/** IBM MFM tracks: the encoder.  A sector is an ID field and a data field, each
    behind twelve zero bytes and three 0x4489 marks and closed by a CRC. */
module IbmTrack {
  import opened Bits
  import opened Crc
  import opened Mfm
  import opened TrackBuffer
  import opened SyncMarks
  import opened Speed

  const MARK_IDAM: byte := 0xfe

  datatype Sector = Sector(cyl: byte, head: byte, sec: byte, no: byte, mark: byte, dat: seq<byte>)

  datatype Track = Track(hasIam: bool, gap: byte, secs: seq<Sector>)

  /** 128 << no. */
  function SectorSize(no: nat): (n: nat)
    ensures n >= 128
  {
    128 * Pow2(no)
  }

  ghost predicate SectorOk(s: Sector)
  {
    s.no <= 7 && |s.dat| == SectorSize(s.no)
  }

  ghost predicate TrackOk(t: Track)
  {
    forall i | 0 <= i < |t.secs| :: SectorOk(t.secs[i])
  }

  // ----- the data bits and cells of a track

  /** n bytes of one value. */
  function Fill(b: byte, n: nat): (s: seq<byte>)
    ensures |s| == n
  {
    seq(n, _ => b)
  }

  /** Three 0x4489 marks. */
  function Mark3(): (s: seq<bool>)
    ensures |s| == 48
  {
    H4489() + H4489() + H4489()
  }

  /** The CRC of a field: over the data cells of its marks, then its bytes. */
  function FieldCrc(bytes: seq<byte>): Reg
  {
    CrcBits(BytesBits(bytes), CrcBits(DataBits(Mark3()), Preset()))
  }

  function IdBytes(s: Sector): seq<byte>
  {
    [MARK_IDAM, s.cyl, s.head, s.sec, s.no]
  }

  function DataBytes(s: Sector): seq<byte>
  {
    [s.mark] + s.dat
  }

  /** A field: its bytes, its CRC, and the filler after it. */
  function FieldBits(bytes: seq<byte>, filler: nat): (d: seq<bool>)
    ensures |d| == 8 * |bytes| + 16 + 8 * filler
  {
    BytesBits(bytes) + FieldCrc(bytes) + BytesBits(Fill(0x4e, filler))
  }

  function FieldCells(prev: bool, bytes: seq<byte>, filler: nat): (c: seq<bool>)
    ensures |c| == 192 + 48 + 16 * |bytes| + 32 + 16 * filler
  {
    Encode(prev, Zeros(96)) + Mark3() + Encode(true, FieldBits(bytes, filler))
  }

  /** The data bit that ends a field. */
  function FieldEnd(bytes: seq<byte>, filler: nat): bool
  {
    LastBit(true, FieldBits(bytes, filler))
  }

  function SectorCells(prev: bool, s: Sector, gap: nat): (c: seq<bool>)
    ensures |c| == 16 * (61 + |s.dat| + gap) + 16
  {
    FieldCells(prev, IdBytes(s), 22) + FieldCells(FieldEnd(IdBytes(s), 22), DataBytes(s), gap)
  }

  function SectorEnd(s: Sector, gap: nat): bool
  {
    FieldEnd(DataBytes(s), gap)
  }

  /** 0x52245224 and 0x52245552. */
  function IamWord(): (s: seq<bool>)
    ensures |s| == 32
  {
    ToBits(0x5224, 16) + ToBits(0x5224, 16)
  }

  function IamEnd(): (s: seq<bool>)
    ensures |s| == 32
  {
    ToBits(0x5224, 16) + ToBits(0x5552, 16)
  }

  function IamCells(prev: bool, gap: nat): (c: seq<bool>)
    ensures |c| == 192 + 64 + 16 * gap
  {
    Encode(prev, Zeros(96)) + IamWord() + IamEnd() + Encode(IamEnd()[31], BytesBits(Fill(0x4e, gap)))
  }

  /** The data bit before sector k. */
  function PrevBit(prev: bool, t: Track, k: nat): bool
    requires k <= |t.secs|
  {
    if k > 0 then SectorEnd(t.secs[k - 1], t.gap)
    else if t.hasIam then LastBit(IamEnd()[31], BytesBits(Fill(0x4e, t.gap)))
    else prev
  }

  /** The cells of the IAM, if any, and the first k sectors. */
  function TrackCells(prev: bool, t: Track, k: nat): seq<bool>
    requires k <= |t.secs|
  {
    if k == 0 then (if t.hasIam then IamCells(prev, t.gap) else [])
    else TrackCells(prev, t, k - 1) + SectorCells(PrevBit(prev, t, k - 1), t.secs[k - 1], t.gap)
  }

  // ----- the encoder

  method EmitFill(tbuf: Tbuf, b: byte, n: nat)
    requires tbuf.Valid()
    modifies tbuf`pos, tbuf`prev, tbuf`crc, tbuf`log, tbuf`speeds, tbuf.bits, tbuf.speed
    ensures tbuf.Valid()
    ensures tbuf.log == old(tbuf.log) + Encode(old(tbuf.prev), BytesBits(Fill(b, n)))
    ensures tbuf.prev == LastBit(old(tbuf.prev), BytesBits(Fill(b, n)))
  {
    hide *;
    ghost var p0, log0 := tbuf.prev, tbuf.log;
    NoFill(b, p0);
    for i := 0 to n
      invariant tbuf.Valid()
      invariant tbuf.log == log0 + Encode(p0, BytesBits(Fill(b, i)))
      invariant tbuf.prev == LastBit(p0, BytesBits(Fill(b, i)))
    {
      MoreFill(b, i, p0);
      tbuf.Emit(SPEED_AVG, Data, 8, b);
    }
  }

  lemma NoFill(b: byte, prev: bool)
    ensures Encode(prev, BytesBits(Fill(b, 0))) == [] && LastBit(prev, BytesBits(Fill(b, 0))) == prev
  {
  }

  lemma MoreFill(b: byte, i: nat, prev: bool)
    ensures var d := BytesBits(Fill(b, i));
            && Encode(prev, BytesBits(Fill(b, i + 1)))
               == Encode(prev, d) + EmittedCells(Data, LastBit(prev, d), ToBits(b, 8))
            && LastBit(prev, BytesBits(Fill(b, i + 1))) == LastBit(LastBit(prev, d), Order(Data, ToBits(b, 8)))
  {
    hide Encode, ToBits;
    assert Fill(b, i + 1)[..i] == Fill(b, i);
    EncodeAppend(prev, BytesBits(Fill(b, i)), ToBits(b, 8));
  }

  /** Twelve zero bytes, then the three marks, starting the CRC between them. */
  method EmitMarks(tbuf: Tbuf)
    requires tbuf.Valid()
    modifies tbuf`pos, tbuf`prev, tbuf`crc, tbuf`log, tbuf`speeds, tbuf.bits, tbuf.speed
    ensures tbuf.Valid()
    ensures tbuf.log == old(tbuf.log) + (Encode(old(tbuf.prev), Zeros(96)) + Mark3())
    ensures tbuf.prev
    ensures tbuf.crc == CrcBits(DataBits(Mark3()), Preset())
  {
    hide *;
    ghost var log0 := tbuf.log;
    ZeroFill();
    EmitFill(tbuf, 0, 12);
    tbuf.StartCrc();
    MarkWords(tbuf.prev);
    tbuf.Emit(SPEED_AVG, Raw, 32, 0x44894489);
    MarkWords(tbuf.prev);
    tbuf.Emit(SPEED_AVG, Raw, 16, 0x4489);
  }

  lemma ZeroFill()
    ensures BytesBits(Fill(0, 12)) == Zeros(96)
  {
    BytesOfZeros(Fill(0, 12));
  }

  lemma MarkWords(p: bool)
    ensures EmittedCells(Raw, p, ToBits(0x44894489, 32)) == H4489() + H4489()
    ensures EmittedCells(Raw, p, ToBits(0x4489, 16)) == H4489()
    ensures H4489() + H4489() + H4489() == Mark3()
    ensures LastBit(p, Order(Raw, ToBits(0x4489, 16)))
    ensures CrcInput(Raw, ToBits(0x4489, 16)) == DataBits(H4489())
    ensures CrcInput(Raw, ToBits(0x44894489, 32)) == DataBits(H4489() + H4489())
    ensures CrcBits(DataBits(H4489()), CrcBits(DataBits(H4489() + H4489()), Preset()))
         == CrcBits(DataBits(Mark3()), Preset())
  {
    hide CrcBits, Taps, H4489, ToBits;
    HalvesAsNumbers();
    MarkTwice();
    MarkEnds();
    TapsAreData(H4489());
    TapsAreData(H4489() + H4489());
    CrcBitsAppend(DataBits(H4489() + H4489()), DataBits(H4489()), Preset());
    DataBitsJoin(H4489() + H4489(), H4489());
  }

  lemma DataBitsJoin(a: seq<bool>, b: seq<bool>)
    requires |a| % 2 == 0
    ensures DataBits(a + b) == DataBits(a) + DataBits(b)
  {
  }

  lemma MarkEnds()
    ensures H4489()[15]
  {
  }

  lemma {:induction false} ToBitsJoin(a: nat, b: nat, m: nat, n: nat)
    requires b < Pow2(n)
    ensures ToBits(a * Pow2(n) + b, m + n) == ToBits(a, m) + ToBits(b, n)
  {
    if n == 0 {
    } else {
      var p := Pow2(n - 1);
      var x := a * Pow2(n) + b;
      assert x == 2 * (a * p) + b;
      assert x / 2 == a * p + b / 2;
      ToBitsJoin(a, b / 2, m, n - 1);
    }
  }

  lemma MarkTwice()
    ensures ToBits(0x44894489, 32) == H4489() + H4489()
  {
    HalvesAsNumbers();
    Pow16();
    hide ToBits, Pow2, H4489;
    ToBitsJoin(0x4489, 0x4489, 16, 16);
  }

  /** A whole field. */
  method EmitField(tbuf: Tbuf, bytes: seq<byte>, filler: nat)
    requires tbuf.Valid()
    modifies tbuf`pos, tbuf`prev, tbuf`crc, tbuf`log, tbuf`speeds, tbuf.bits, tbuf.speed
    ensures tbuf.Valid()
    ensures tbuf.log == old(tbuf.log) + FieldCells(old(tbuf.prev), bytes, filler)
    ensures tbuf.prev == FieldEnd(bytes, filler)
  {
    hide *;
    FieldParts(tbuf.prev, bytes, filler);
    ghost var log0, p0 := tbuf.log, tbuf.prev;
    EmitMarks(tbuf);
    ghost var log1 := tbuf.log;
    ghost var d1, d2, d3 := BytesBits(bytes), FieldCrc(bytes), BytesBits(Fill(0x4e, filler));
    TwoPasses(true, tbuf.crc, d1, d2);
    TwoPasses(true, tbuf.crc, d1 + d2, d3);
    tbuf.EmitBytes(SPEED_AVG, Linear, bytes);
    tbuf.EmitCrc(SPEED_AVG);
    LastOfCrc(true, d1, d2);
    EmitFill(tbuf, 0x4e, filler);
    assert tbuf.log == log1 + (Encode(true, d1) + Encode(LastBit(true, d1), d2) + Encode(LastBit(true, d1 + d2), d3));
  }

  lemma FieldParts(prev: bool, bytes: seq<byte>, filler: nat)
    ensures FieldCells(prev, bytes, filler)
         == Encode(prev, Zeros(96)) + Mark3() + Encode(true, FieldBits(bytes, filler))
    ensures FieldBits(bytes, filler) == BytesBits(bytes) + FieldCrc(bytes) + BytesBits(Fill(0x4e, filler))
    ensures FieldEnd(bytes, filler) == LastBit(true, FieldBits(bytes, filler))
    ensures FieldCrc(bytes) == CrcBits(BytesBits(bytes), CrcBits(DataBits(Mark3()), Preset()))
    ensures Layout(Linear, bytes) == BytesBits(bytes)
  {
    hide Encode, CrcBits, BytesBits;
  }

  lemma LastOfCrc(prev: bool, d: seq<bool>, crc: Reg)
    ensures LastBit(prev, d + crc) == crc[15]
  {
  }

  /** One pass of the loop of ibm_mfm_read_raw. */
  method EmitSector(tbuf: Tbuf, s: Sector, gap: nat)
    requires tbuf.Valid()
    modifies tbuf`pos, tbuf`prev, tbuf`crc, tbuf`log, tbuf`speeds, tbuf.bits, tbuf.speed
    ensures tbuf.Valid()
    ensures tbuf.log == old(tbuf.log) + SectorCells(old(tbuf.prev), s, gap)
    ensures tbuf.prev == SectorEnd(s, gap)
  {
    hide FieldCells, FieldEnd;
    EmitField(tbuf, [MARK_IDAM, s.cyl, s.head, s.sec, s.no], 22);
    EmitField(tbuf, [s.mark] + s.dat, gap);
  }

  method EmitIam(tbuf: Tbuf, gap: nat)
    requires tbuf.Valid()
    modifies tbuf`pos, tbuf`prev, tbuf`crc, tbuf`log, tbuf`speeds, tbuf.bits, tbuf.speed
    ensures tbuf.Valid()
    ensures tbuf.log == old(tbuf.log) + IamCells(old(tbuf.prev), gap)
    ensures tbuf.prev == LastBit(IamEnd()[31], BytesBits(Fill(0x4e, gap)))
  {
    hide *;
    IamParts(tbuf.prev, gap);
    ZeroFill();
    EmitFill(tbuf, 0, 12);
    IamWords(tbuf.prev);
    tbuf.Emit(SPEED_AVG, Raw, 32, 0x52245224);
    IamWords(tbuf.prev);
    tbuf.Emit(SPEED_AVG, Raw, 32, 0x52245552);
    EmitFill(tbuf, 0x4e, gap);
  }

  lemma IamParts(prev: bool, gap: nat)
    ensures IamCells(prev, gap)
         == Encode(prev, Zeros(96)) + IamWord() + IamEnd() + Encode(IamEnd()[31], BytesBits(Fill(0x4e, gap)))
  {
    hide Encode, IamWord, IamEnd, BytesBits;
  }

  lemma IamWords(p: bool)
    ensures EmittedCells(Raw, p, ToBits(0x52245224, 32)) == IamWord()
    ensures EmittedCells(Raw, p, ToBits(0x52245552, 32)) == IamEnd()
    ensures LastBit(p, Order(Raw, ToBits(0x52245552, 32))) == IamEnd()[31]
  {
    hide ToBits, IamWord, IamEnd, Encode;
    IamJoin();
  }

  lemma IamJoin()
    ensures ToBits(0x52245224, 32) == IamWord() && ToBits(0x52245552, 32) == IamEnd()
  {
    Pow16();
    hide ToBits, Pow2;
    ToBitsJoin(0x5224, 0x5224, 16, 16);
    ToBitsJoin(0x5224, 0x5552, 16, 16);
  }

  lemma Pow16()
    ensures Pow2(16) == 0x10000
  {
    Pow8();
    assert Pow2(12) == 4096;
  }

  /** ibm_mfm_read_raw. */
  method IbmMfmReadRaw(tbuf: Tbuf, t: Track)
    requires tbuf.Valid()
    modifies tbuf`pos, tbuf`prev, tbuf`crc, tbuf`log, tbuf`speeds, tbuf.bits, tbuf.speed
    ensures tbuf.Valid()
    ensures tbuf.log == old(tbuf.log) + TrackCells(old(tbuf.prev), t, |t.secs|)
    ensures tbuf.prev == PrevBit(old(tbuf.prev), t, |t.secs|)
  {
    hide *;
    TrackStep(tbuf.prev, t, 0);
    ghost var p0, log0 := tbuf.prev, tbuf.log;
    if t.hasIam {
      EmitIam(tbuf, t.gap);
    }
    for i := 0 to |t.secs|
      invariant tbuf.Valid()
      invariant tbuf.log == log0 + TrackCells(p0, t, i)
      invariant tbuf.prev == PrevBit(p0, t, i)
    {
      TrackStep(p0, t, i);
      EmitSector(tbuf, t.secs[i], t.gap);
    }
  }

  lemma TrackStep(prev: bool, t: Track, k: nat)
    requires k <= |t.secs|
    ensures TrackCells(prev, t, 0) == if t.hasIam then IamCells(prev, t.gap) else []
    ensures PrevBit(prev, t, 0) == if t.hasIam then LastBit(IamEnd()[31], BytesBits(Fill(0x4e, t.gap))) else prev
    ensures k < |t.secs| ==>
              && TrackCells(prev, t, k + 1) == TrackCells(prev, t, k) + SectorCells(PrevBit(prev, t, k), t.secs[k], t.gap)
              && PrevBit(prev, t, k + 1) == SectorEnd(t.secs[k], t.gap)
  {
    hide IamCells, SectorCells, SectorEnd, Fill, IamEnd, BytesBits;
  }
}
