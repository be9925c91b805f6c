/** The IBM MFM decoder: it looks for ID and data marks in a cell stream, checks
    their CRCs and lists the sectors it finds. */
module IbmReader {
  import opened Bits
  import opened Crc
  import opened Mfm
  import opened LinkedList
  import opened StreamReader
  import opened SyncMarks
  import opened IbmTrack
  import opened IbmSectorList

  /** What a read sees: the cells, the index pulses among them, and what stands
      for the track length before the first whole revolution. */
  datatype Flux = Flux(cells: seq<bool>, pulse: seq<bool>, len0: nat)

  ghost predicate FluxOk(f: Flux)
  {
    |f.pulse| == |f.cells|
  }

  /** 0x44894489. */
  function MarkWord(): (w: seq<bool>)
    ensures |w| == 32
  {
    H4489() + H4489()
  }

  /** The CRC of the two mark bytes in the register. */
  function MarkSeed(): Reg
  {
    CrcBytes([HighByte(MarkWord()), LowByte(MarkWord())], Preset())
  }

  /** A number stored in an int. */
  function Int32(x: int): int
  {
    (x + 0x8000_0000) % 0x1_0000_0000 - 0x8000_0000
  }

  /** Where the mark that ends at p starts, measured from the index pulse. */
  function StartOffset(f: Flux, p: nat): int
    requires FluxOk(f) && p <= |f.cells|
  {
    var off := OffsetAt(f.pulse, p) - 63;
    if off < 0 then Int32(off + TrackLenAt(f.pulse, p, f.len0)) else off
  }

  lemma {:induction false} NoPulse(pulse: seq<bool>, a: nat, p: nat, len0: nat)
    requires a <= p <= |pulse| && forall i | a <= i < p :: !pulse[i]
    ensures OffsetAt(pulse, p) == OffsetAt(pulse, a) + (p - a) && TrackLenAt(pulse, p, len0) == TrackLenAt(pulse, a, len0)
  {
    if a < p {
      NoPulse(pulse, a, p - 1, len0);
    }
  }

  lemma SmallInt(x: int)
    requires 0 <= x < 0x8000_0000
    ensures Int32(x) == x
  {
  }

  /** The start of a mark is measured from the pulse before it, also if the index goes by
      within the mark: it is the offset behind its first cell. */
  lemma StartExact(f: Flux, p: nat)
    requires FluxOk(f) && 63 <= p <= |f.cells| && OffsetAt(f.pulse, p - 63) < 0x8000_0000
    requires forall i, j | p - 63 <= i < p && p - 63 <= j < p :: f.pulse[i] && f.pulse[j] ==> i == j
    ensures StartOffset(f, p) == OffsetAt(f.pulse, p - 63)
  {
    hide Int32;
    var a := p - 63;
    if b: nat :| a <= b < p && f.pulse[b] {
      NoPulse(f.pulse, a, b, f.len0);
      NoPulse(f.pulse, b + 1, p, f.len0);
      SmallInt(OffsetAt(f.pulse, a));
    } else {
      NoPulse(f.pulse, a, p, f.len0);
    }
  }

  // ----- marks

  /** A mark, where its CRC starts and where it ends; idx is negative if none. */
  datatype Seen = Seen(idx: int, mark: byte, from: nat, p: nat)

  function Missed(p: nat): Seen
  {
    Seen(-1, 0, p, p)
  }

  /** ibm_scan_mark, with the register at p. */
  function Seek(f: Flux, p: nat, max: nat): (m: Seen)
    requires FluxOk(f) && p <= |f.cells| && max > 0
    ensures p <= m.p <= |f.cells| && m.from <= m.p
    ensures m.idx >= 0 ==> m.p >= p + 32
    decreases |f.cells| - p, 1
  {
    if WordAt(f.cells, p) != MarkWord() then SeekOn(f, p, max)
    else if p + 16 > |f.cells| then Missed(|f.cells|)
    else if WordAt(f.cells, p + 16)[16..] != H4489() then SeekOn(f, p + 16, max)
    else if p + 32 > |f.cells| then Missed(|f.cells|)
    else Seen(StartOffset(f, p + 32), LowByte(WordAt(f.cells, p + 32)), p, p + 32)
  }

  function SeekOn(f: Flux, p: nat, max: nat): (m: Seen)
    requires FluxOk(f) && p <= |f.cells| && max > 0
    ensures p <= m.p <= |f.cells| && m.from <= m.p
    ensures m.idx >= 0 ==> m.p >= p + 32
    decreases |f.cells| - p, 0
  {
    if p == |f.cells| then Missed(p)
    else if max == 1 then Missed(p + 1)
    else Seek(f, p + 1, max - 1)
  }

  // ----- sectors

  datatype Header = Header(id: Idam, crcLow: byte)

  /** The ID field behind a mark, and the low byte of its CRC: the field that
      keeps it is one byte wide. */
  function HeaderAt(f: Flux, from: nat, p: nat): Header
    requires from <= p && p + 96 <= |f.cells|
  {
    var a, b := WordAt(f.cells, p + 32), WordAt(f.cells, p + 64);
    Header(Idam(HighByte(a), LowByte(a), HighByte(b), LowByte(b)),
           ByteOf(CrcAt(f.cells, from, p + 96, MarkSeed())[8..]))
  }

  /** The data of n bytes in the cells from p on. */
  function DataAt(cells: seq<bool>, p: nat, n: nat): (d: seq<byte>)
    requires p + 16 * n <= |cells|
    ensures |d| == n
  {
    var raw := PackedBytes(cells[p..p + 16 * n], 2 * n);
    seq(n, i requires 0 <= i < n => DecodedByte(Linear, raw, n, i))
  }

  datatype Option<T> = None | Some(value: T)

  /** How far an attempt to read a sector got, and what it found. */
  datatype Outcome = Outcome(p: nat, found: Option<PSector>)

  const DAM_WINDOW: nat := 1000
  const NO_LIMIT: nat := 0xffff_ffff

  /** The part of ibm_mfm_write_raw behind an ID field. */
  function Sector(f: Flux, idx: int, h: Header, p: nat, recovery: bool): (o: Outcome)
    requires FluxOk(f) && p <= |f.cells|
    ensures p <= o.p <= |f.cells|
    decreases |f.cells| - p
  {
    if h.crcLow != 0 || h.id.no > 7 then Outcome(p, None)
    else
      var m := Seek(f, p, DAM_WINDOW);
      if m.idx < 0 then Outcome(m.p, None)
      else if m.mark == MARK_IDAM && m.p + 96 <= |f.cells| then
        Sector(f, m.idx, HeaderAt(f, m.from, m.p), m.p + 96, recovery)
      else
        DataField(f, idx, h.id, m, recovery)
  }

  function DataField(f: Flux, idx: int, id: Idam, m: Seen, recovery: bool): (o: Outcome)
    requires FluxOk(f) && m.from <= m.p <= |f.cells|
    ensures m.p <= o.p <= |f.cells|
  {
    var n := SectorSize(id.no);
    var q := m.p + 16 * n + 32;
    if q > |f.cells| then Outcome(|f.cells|, None)
    else
      var crc := CrcAt(f.cells, m.from, q, MarkSeed());
      if crc != Zeros(16) && !recovery then Outcome(q, None)
      else Outcome(q, Some(PSector(idx, OffsetAt(f.pulse, q), id, m.mark, crc, DataAt(f.cells, m.p, n))))
  }

  function Attempt(f: Flux, p: nat, recovery: bool): (o: Outcome)
    requires FluxOk(f) && p <= |f.cells|
    ensures p <= o.p <= |f.cells|
  {
    var m := Seek(f, p, NO_LIMIT);
    if m.idx < 0 || m.mark != MARK_IDAM then Outcome(m.p, None)
    else if m.p + 96 > |f.cells| then Outcome(|f.cells|, None)
    else Sector(f, m.idx, HeaderAt(f, m.from, m.p), m.p + 96, recovery)
  }

  function AsList(o: Option<PSector>): seq<PSector>
  {
    if o.Some? then [o.value] else []
  }

  /** All sectors met from p on, in the order in which they are met. */
  function Records(f: Flux, p: nat, recovery: bool): seq<PSector>
    requires FluxOk(f) && p <= |f.cells|
    decreases |f.cells| - p
  {
    if p == |f.cells| then []
    else
      var o := Attempt(f, p + 1, recovery);
      AsList(o.found) + Records(f, o.p, recovery)
  }

  /** Ordinary track types only ever list sectors whose data CRC is good. */
  lemma {:induction false} SectorGood(f: Flux, idx: int, h: Header, p: nat)
    requires FluxOk(f) && p <= |f.cells|
    ensures var o := Sector(f, idx, h, p, false); o.found.Some? ==> Good(o.found.value)
    decreases |f.cells| - p
  {
    hide Seek, HeaderAt, CrcAt, DataAt;
    var m := Seek(f, p, DAM_WINDOW);
    if m.idx >= 0 && m.p + 96 <= |f.cells| {
      SectorGood(f, m.idx, HeaderAt(f, m.from, m.p), m.p + 96);
    }
  }

  lemma {:induction false} OrdinaryRecordsGood(f: Flux, p: nat)
    requires FluxOk(f) && p <= |f.cells|
    ensures AllGood(Records(f, p, false))
    decreases |f.cells| - p
  {
    hide Seek, Sector, HeaderAt, Good;
    if p < |f.cells| {
      var m := Seek(f, p + 1, NO_LIMIT);
      if m.p + 96 <= |f.cells| {
        SectorGood(f, m.idx, HeaderAt(f, m.from, m.p), m.p + 96);
      }
      OrdinaryRecordsGood(f, Attempt(f, p + 1, false).p);
    }
  }

  /** A sector with an ID field that was trusted. */
  ghost predicate Trusted(r: PSector)
  {
    r.idam.no <= 7 && |r.dat| == 128 * Pow2(r.idam.no)
  }

  lemma {:induction false} SectorTrusted(f: Flux, idx: int, h: Header, p: nat, recovery: bool)
    requires FluxOk(f) && p <= |f.cells|
    ensures var o := Sector(f, idx, h, p, recovery); o.found.Some? ==> Trusted(o.found.value)
    ensures h.crcLow != 0 ==> Sector(f, idx, h, p, recovery) == Outcome(p, None)
    decreases |f.cells| - p
  {
    hide Seek, HeaderAt, CrcAt, DataAt;
    var m := Seek(f, p, DAM_WINDOW);
    if m.idx >= 0 && m.p + 96 <= |f.cells| {
      SectorTrusted(f, m.idx, HeaderAt(f, m.from, m.p), m.p + 96, recovery);
    }
  }

  /** Whatever the flux holds, and in a recovery read too: no sector is listed with a
      size code above 7, and each holds as many bytes as its size code says. */
  lemma {:induction false} RecordsTrusted(f: Flux, p: nat, recovery: bool)
    requires FluxOk(f) && p <= |f.cells|
    ensures forall i | 0 <= i < |Records(f, p, recovery)| :: Trusted(Records(f, p, recovery)[i])
    decreases |f.cells| - p
  {
    hide Seek, Sector, HeaderAt, Trusted;
    if p < |f.cells| {
      var m := Seek(f, p + 1, NO_LIMIT);
      if m.p + 96 <= |f.cells| {
        SectorTrusted(f, m.idx, HeaderAt(f, m.from, m.p), m.p + 96, recovery);
      }
      RecordsTrusted(f, Attempt(f, p + 1, recovery).p, recovery);
    }
  }

  /** Whatever the flux holds, the list of an ordinary read keeps its entries
      1000 cells apart, and that of a recovery read keeps them ascending. */
  lemma ListOrder(f: Flux, p: nat)
    requires FluxOk(f) && p <= |f.cells|
    ensures Spaced(InsertAll([], Records(f, p, false)))
    ensures Ascending(InsertAll([], Records(f, p, true)))
  {
    OrdinaryRecordsGood(f, p);
    OrdinaryListSpaced(Records(f, p, false));
    RecoveryListAscending(Records(f, p, true));
  }

  // ----- the index mark

  /** The first loop of ibm_mfm_write_raw: is there an index mark from p on? */
  function IamSeen(f: Flux, p: nat): bool
    requires p <= |f.cells|
    decreases |f.cells| - p
  {
    if p == |f.cells| then false
    else if WordAt(f.cells, p + 1) != IamWord() then IamSeen(f, p + 1)
    else if p + 33 > |f.cells| then false
    else WordAt(f.cells, p + 33) == IamEnd() || IamSeen(f, p + 33)
  }

  // ----- the decoder

  ghost function FluxOf(s: Stream): Flux
  {
    Flux(s.cells, s.pulse, s.len0)
  }

  method IbmScanMark(s: Stream, max: nat) returns (idx: int, mark: byte)
    requires s.Valid() && max > 0
    modifies s
    ensures s.Valid()
    ensures var m := Seek(FluxOf(s), old(s.pos), max);
            && idx == m.idx && mark == m.mark && s.pos == m.p
            && (idx >= 0 ==> s.crcFrom == m.from && s.crcSeed == MarkSeed())
  {
    hide WordAt, OffsetAt, TrackLenAt, CrcAt, Int32, H4489, HighByte, LowByte, CrcBytes;
    ghost var f := FluxOf(s);
    ghost var result := Seek(f, s.pos, max);
    var left := max;
    while true
      invariant s.Valid() && left > 0
      invariant Seek(f, s.pos, left) == result
      decreases |s.cells| - s.pos
    {
      ghost var p := s.pos;
      if s.word == MarkWord() {
        s.StartCrc();
        var more := s.NextBits(16);
        if !more {
          return -1, 0;
        }
        if s.word[16..] == H4489() {
          more := s.NextBits(16);
          if !more {
            return -1, 0;
          }
          idx := s.indexOffset - 63;
          if idx < 0 {
            idx := Int32(idx + s.trackLen);
          }
          mark := LowByte(s.word);
          return;
        }
      }
      assert SeekOn(f, s.pos, left) == result;
      var more := s.NextBit();
      if !more {
        return -1, 0;
      }
      left := left - 1;
      if left == 0 {
        return -1, 0;
      }
    }
  }

  /** _ibm_scan_idam. */
  method IbmScanIdam(s: Stream) returns (ok: bool, h: Header)
    requires s.Valid() && s.crcSeed == MarkSeed()
    modifies s
    ensures s.Valid()
    ensures ok == (old(s.pos) + 96 <= |s.cells|)
    ensures ok ==> s.pos == old(s.pos) + 96 && h == HeaderAt(FluxOf(s), old(s.crcFrom), old(s.pos))
    ensures !ok ==> s.pos == |s.cells|
  {
    hide WordAt, OffsetAt, TrackLenAt, CrcAt, HighByte, LowByte, ByteOf;
    h := Header(Idam(0, 0, 0, 0), 0);
    ok := s.NextBits(32);
    if !ok {
      return;
    }
    var cyl, head := HighByte(s.word), LowByte(s.word);
    ok := s.NextBits(32);
    if !ok {
      return;
    }
    var sec, no := HighByte(s.word), LowByte(s.word);
    ok := s.NextBits(32);
    if ok {
      h := Header(Idam(cyl, head, sec, no), ByteOf(s.crc[8..]));
    }
  }

  lemma {:induction false} Pow2Mono(a: nat, b: nat)
    requires a <= b
    ensures Pow2(a) <= Pow2(b)
  {
    if a < b {
      Pow2Mono(a, b - 1);
    }
  }

  lemma SizeFits(no: nat)
    requires no <= 7
    ensures SectorSize(no) <= 16384
  {
    Pow2Mono(no, 7);
    assert Pow2(4) == 16;
  }

  /** Reading the data behind a data mark into dat, in place. */
  method ReadData(s: Stream, dat: array<byte>, n: nat) returns (ok: bool, d: seq<byte>)
    requires s.Valid() && 2 * n <= dat.Length
    modifies s, dat
    ensures s.Valid()
    ensures ok == (old(s.pos) + 16 * n + 32 <= |s.cells|)
    ensures ok ==> s.pos == old(s.pos) + 16 * n + 32 && d == DataAt(s.cells, old(s.pos), n)
    ensures !ok ==> s.pos == |s.cells|
    ensures s.crcFrom == old(s.crcFrom) && s.crcSeed == old(s.crcSeed)
  {
    hide WordAt, OffsetAt, TrackLenAt, CrcAt, DecodedByte, PackedBytes;
    d := [];
    var p := s.pos;
    ok := s.NextBytes(dat, 2 * n);
    if !ok {
      return;
    }
    ok := s.NextBits(32);
    if ok {
      assert dat[0..0 + 2 * n] == dat[..2 * n];
      MfmDecodeBytes(Linear, n, dat, 0, dat);
      d := dat[..n];
    }
  }

  /** The sector behind an ID field, if it can be read. */
  method ReadSector(s: Stream, idx0: int, h0: Header, recovery: bool, dat: array<byte>) returns (found: Option<PSector>)
    requires s.Valid() && dat.Length == 2 * 16384
    modifies s, dat
    ensures s.Valid()
    ensures Outcome(s.pos, found) == Sector(FluxOf(s), idx0, h0, old(s.pos), recovery)
  {
    hide WordAt, OffsetAt, TrackLenAt, CrcAt, Seek, HeaderAt, DataAt, SectorSize, MarkSeed, Sector;
    ghost var f := FluxOf(s);
    ghost var result := Sector(f, idx0, h0, s.pos, recovery);
    var idx, h := idx0, h0;
    while true
      invariant s.Valid()
      invariant Sector(f, idx, h, s.pos, recovery) == result
      decreases |s.cells| - s.pos
    {
      ghost var p := s.pos;
      SectorStep(f, idx, h, p, recovery);
      if h.crcLow != 0 {
        return None;
      }
      if h.id.no > 7 {
        return None;
      }
      var dam, mark := IbmScanMark(s, DAM_WINDOW);
      ghost var m := Seek(f, p, DAM_WINDOW);
      if dam < 0 {
        return None;
      }
      if mark == MARK_IDAM {
        var more, again := IbmScanIdam(s);
        if more {
          idx, h := dam, again;
          continue;
        }
      }
      var n := SectorSize(h.id.no);
      SizeFits(h.id.no);
      var ok, d := ReadData(s, dat, n);
      if !ok {
        return None;
      }
      if s.crc != Zeros(16) && !recovery {
        return None;
      }
      return Some(PSector(idx, s.indexOffset, h.id, mark, s.crc, d));
    }
  }

  lemma SectorStep(f: Flux, idx: int, h: Header, p: nat, recovery: bool)
    requires FluxOk(f) && p <= |f.cells|
    ensures h.crcLow != 0 || h.id.no > 7 ==> Sector(f, idx, h, p, recovery) == Outcome(p, None)
    ensures h.crcLow == 0 && h.id.no <= 7 ==>
              var m := Seek(f, p, DAM_WINDOW);
              var n := SectorSize(h.id.no);
              var q := m.p + 16 * n + 32;
              && (m.idx < 0 ==> Sector(f, idx, h, p, recovery) == Outcome(m.p, None))
              && (m.idx >= 0 ==>
                    if m.mark == MARK_IDAM && m.p + 96 <= |f.cells| then
                      Sector(f, idx, h, p, recovery)
                      == Sector(f, m.idx, HeaderAt(f, m.from, m.p), m.p + 96, recovery)
                    else if q > |f.cells| then Sector(f, idx, h, p, recovery) == Outcome(|f.cells|, None)
                    else
                      var crc := CrcAt(f.cells, m.from, q, MarkSeed());
                      Sector(f, idx, h, p, recovery)
                      == if crc != Zeros(16) && !recovery then Outcome(q, None)
                         else Outcome(q, Some(PSector(idx, OffsetAt(f.pulse, q), h.id, m.mark, crc, DataAt(f.cells, m.p, n)))))
  {
    hide OffsetAt, CrcAt, Seek, HeaderAt, DataAt, MarkSeed;
  }

  /** The first loop of ibm_mfm_write_raw. */
  method ScanIam(s: Stream) returns (iam: bool)
    requires s.Valid()
    modifies s
    ensures s.Valid()
    ensures iam == IamSeen(FluxOf(s), old(s.pos))
  {
    hide WordAt, OffsetAt, TrackLenAt, CrcAt, IamWord, IamEnd;
    ghost var f := FluxOf(s);
    iam := false;
    while !iam
      invariant s.Valid()
      invariant IamSeen(f, old(s.pos)) == (iam || IamSeen(f, s.pos))
      decreases |s.cells| - s.pos, !iam
    {
      var more := s.NextBit();
      if !more {
        return;
      }
      if s.word != IamWord() {
        continue;
      }
      more := s.NextBits(32);
      if !more {
        return;
      }
      iam := s.word == IamEnd();
    }
  }

  /** The second loop. */
  method ScanSectors(s: Stream, recovery: bool) returns (secs: List<PSector>)
    requires s.Valid()
    modifies s
    ensures fresh(secs) && secs.Valid()
    ensures secs.Vals() == InsertAll([], Records(FluxOf(s), old(s.pos), recovery))
  {
    hide *;
    ghost var f := FluxOf(s);
    ghost var p0 := s.pos;
    FluxFits(s);
    secs := new List<PSector>();
    var dat := new byte[2 * 16384];
    ghost var met: seq<PSector> := [];
    InsertAllNone();
    while true
      invariant s.Valid() && FluxOk(f) && s.pos <= |f.cells| == |s.cells|
      invariant fresh(secs) && secs.Valid() && fresh(set n | n in secs.spine)
      invariant met + Records(f, s.pos, recovery) == Records(f, p0, recovery)
      invariant secs.Vals() == InsertAll([], met)
      decreases |s.cells| - s.pos
    {
      RecordsStep(f, s.pos, recovery, met);
      var more := s.NextBit();
      if !more {
        return;
      }
      var found := ReadNext(s, recovery, dat);
      if found.Some? {
        InsertAllMore(met, found.value);
        met := met + [found.value];
        Add(secs, found.value);
      }
    }
  }

  lemma FluxFits(s: Stream)
    requires s.Valid()
    ensures var f := FluxOf(s); FluxOk(f) && |f.cells| == |s.cells| && s.pos <= |s.cells|
  {
  }

  lemma InsertAllNone()
    ensures InsertAll([], []) == []
  {
  }

  lemma RecordsStep(f: Flux, p: nat, recovery: bool, met: seq<PSector>)
    requires FluxOk(f) && p <= |f.cells|
    ensures p == |f.cells| ==> met + Records(f, p, recovery) == met
    ensures p < |f.cells| ==>
              var o := Attempt(f, p + 1, recovery);
              met + Records(f, p, recovery)
              == (if o.found.Some? then met + [o.found.value] else met) + Records(f, o.p, recovery)
  {
    hide Attempt;
  }

  method ReadNext(s: Stream, recovery: bool, dat: array<byte>) returns (found: Option<PSector>)
    requires s.Valid() && dat.Length == 2 * 16384
    modifies s, dat
    ensures s.Valid()
    ensures Outcome(s.pos, found) == Attempt(FluxOf(s), old(s.pos), recovery)
  {
    hide WordAt, OffsetAt, TrackLenAt, CrcAt, Seek, HeaderAt, MarkSeed, Sector;
    var idx, mark := IbmScanMark(s, NO_LIMIT);
    if idx < 0 || mark != MARK_IDAM {
      return None;
    }
    var ok, h := IbmScanIdam(s);
    if !ok {
      return None;
    }
    found := ReadSector(s, idx, h, recovery, dat);
  }

  /** The part of ibm_mfm_write_raw that looks for the index mark and fills the
      list of sectors. */
  method IbmMfmWriteRaw(s: Stream, recovery: bool) returns (iam: bool, secs: List<PSector>)
    requires s.Valid()
    modifies s
    ensures iam == IamSeen(FluxOf(s), old(s.pos))
    ensures fresh(secs) && secs.Valid()
    ensures secs.Vals() == InsertAll([], Records(FluxOf(s), IndexFrom(s.pulse, 0), recovery))
  {
    hide InsertAll, Records, IndexFrom;
    iam := ScanIam(s);
    s.Reset();
    secs := ScanSectors(s, recovery);
  }
}
