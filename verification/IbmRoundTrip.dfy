/** The IBM round trip: what the encoder writes, the decoder reads back. */
module IbmRoundTrip {
  import opened Bits
  import opened Crc
  import opened Mfm
  import opened TrackBuffer
  import opened StreamReader
  import opened Revolutions
  import opened SyncMarks
  import opened IbmTrack
  import opened IbmSectorList
  import opened IbmReader
  import opened IbmField

  // ----- finding a mark

  /** The register never shows a doubled mark from position p on and before q. */
  ghost predicate Silent(c: seq<bool>, p: nat, q: nat)
    requires q <= |c| + 1
  {
    forall r | p <= r < q :: WordAt(c, r) != MarkWord()
  }

  lemma SilentFromQuiet(c: seq<bool>, lo: nat, a: nat)
    requires lo <= a && a + 32 <= |c| + 1 && Quiet(c, lo, a)
    ensures Silent(c, lo + 32, a + 32)
  {
    hide WordAt, MarkWord;
    forall r | lo + 32 <= r < a + 32 ensures WordAt(c, r) != MarkWord() {
      WordIsLast32(c, r);
      assert !MarkHere(c, r - 32);
    }
  }

  lemma {:induction false} SeekSkips(f: Flux, p: nat, q: nat, max: nat)
    requires FluxOk(f) && p <= q <= |f.cells| && Silent(f.cells, p, q) && max > q - p
    ensures Seek(f, p, max) == Seek(f, q, max - (q - p))
    decreases q - p
  {
    hide WordAt, MarkWord, H4489, StartOffset, LowByte;
    if p < q {
      assert WordAt(f.cells, p) != MarkWord();
      SeekSkips(f, p + 1, q, max - 1);
    }
  }

  lemma SeekFinds(f: Flux, m: nat, bytes: seq<byte>, max: nat)
    requires FluxOk(f) && Marked(f.cells, m, bytes) && bytes != [] && max > 0
    ensures m + 64 <= |f.cells|
    ensures Seek(f, m + 32, max) == Seen(StartOffset(f, m + 64), bytes[0], m + 32, m + 64)
  {
    hide WordAt, MarkWord, H4489, StartOffset, LowByte, Marked, Mark3;
    MarkedBounds(f.cells, m, bytes);
    MarkedStarts(f.cells, m, bytes);
    TwoMarks(f.cells, m);
    WordIsLast32(f.cells, m + 32);
    WordIsLast32(f.cells, m + 48);
    SliceOfSlice(f.cells, m + 16, m + 48, 16, 32);
    MarkByte(f.cells, m, bytes);
  }

  lemma {:induction false} FoundIs(f: Flux, p: nat, max: nat)
    requires FluxOk(f) && p <= |f.cells| && max > 0
    ensures var m := Seek(f, p, max);
            m.idx >= 0 ==> && m.p == m.from + 32 && p <= m.from && WordAt(f.cells, m.from) == MarkWord()
                           && WordAt(f.cells, m.from + 16)[16..] == H4489() && m.mark == LowByte(WordAt(f.cells, m.p))
    decreases |f.cells| - p
  {
    hide WordAt, MarkWord, H4489, StartOffset, LowByte;
    if WordAt(f.cells, p) != MarkWord() {
      if p < |f.cells| && max > 1 {
        FoundIs(f, p + 1, max - 1);
      }
    } else if p + 16 < |f.cells| && max > 1 {
      FoundIs(f, p + 17, max - 1);
    }
  }

  /** Whatever the flux holds: what is taken for a mark are three 0x4489 in a row and the
      byte behind them; two are not enough. */
  lemma FoundIsTriple(f: Flux, p: nat, max: nat)
    requires FluxOk(f) && 32 <= p <= |f.cells| && max > 0
    ensures var m := Seek(f, p, max);
            m.idx >= 0 ==> && 64 <= m.p <= |f.cells| && f.cells[m.p - 64..m.p - 16] == Mark3()
                           && m.mark == LowByte(f.cells[m.p - 32..m.p])
  {
    hide WordAt, H4489, LowByte, Seek;
    FoundIs(f, p, max);
    var m := Seek(f, p, max);
    if m.idx >= 0 {
      var a := m.from;
      WordIsLast32(f.cells, a);
      WordIsLast32(f.cells, a + 16);
      WordIsLast32(f.cells, m.p);
      SliceOfSlice(f.cells, a - 16, a + 16, 16, 32);
      Adjoin(f.cells, a - 32, a, a + 16);
    }
  }

  lemma {:induction false} SeekGivesUp(f: Flux, p: nat, max: nat)
    requires FluxOk(f) && max > 0 && p + max <= |f.cells| && Silent(f.cells, p, p + max)
    ensures Seek(f, p, max) == Missed(p + max)
    decreases max
  {
    hide WordAt, MarkWord, H4489, StartOffset, LowByte;
    assert WordAt(f.cells, p) != MarkWord();
    if max > 1 {
      SeekGivesUp(f, p + 1, max - 1);
    }
  }

  /** Behind an ID field that is trusted a data mark counts if and only if it begins to
      show within a thousand cells; otherwise the sector is given up there. */
  lemma DataMarkWithin(f: Flux, idx: int, h: Header, p: nat, m: nat, bytes: seq<byte>, recovery: bool)
    requires FluxOk(f) && Marked(f.cells, m, bytes) && bytes != [] && bytes[0] != 0xfe
    requires p <= m + 32 <= |f.cells| && Silent(f.cells, p, m + 32) && h.crcLow == 0 && h.id.no <= 7
    ensures m + 64 <= |f.cells|
    ensures StartOffset(f, m + 64) >= 0 ==>
              IbmReader.Sector(f, idx, h, p, recovery)
              == if m + 32 - p < 1000 then
                   DataField(f, idx, h.id, Seen(StartOffset(f, m + 64), bytes[0], m + 32, m + 64), recovery)
                 else Outcome(p + 1000, None)
  {
    hide WordAt, MarkWord, H4489, StartOffset, LowByte, Marked, Seek, DataField, HeaderAt;
    SeekFinds(f, m, bytes, 1);
    if m + 32 - p < 1000 {
      SeekSkips(f, p, m + 32, 1000);
      SeekFinds(f, m, bytes, 1000 - (m + 32 - p));
    } else {
      assert Silent(f.cells, p, p + 1000);
      SeekGivesUp(f, p, 1000);
    }
  }

  /** Only an ID mark begins a sector: any other mark is passed over. */
  lemma OnlyIdMarks(f: Flux, p: nat, m: nat, bytes: seq<byte>, recovery: bool)
    requires FluxOk(f) && Marked(f.cells, m, bytes) && bytes != []
    requires p <= m + 32 <= |f.cells| && Silent(f.cells, p, m + 32) && m + 32 - p < NO_LIMIT
    ensures m + 64 <= |f.cells|
    ensures StartOffset(f, m + 64) >= 0 ==>
              Attempt(f, p, recovery)
              == if bytes[0] != 0xfe then Outcome(m + 64, None)
                 else if m + 160 > |f.cells| then Outcome(|f.cells|, None)
                 else IbmReader.Sector(f, StartOffset(f, m + 64), HeaderAt(f, m + 32, m + 64), m + 160, recovery)
  {
    hide WordAt, MarkWord, H4489, StartOffset, LowByte, Marked, Seek, HeaderAt, IbmReader.Sector;
    SeekSkips(f, p, m + 32, NO_LIMIT);
    SeekFinds(f, m, bytes, NO_LIMIT - (m + 32 - p));
  }

  lemma MarkedStarts(c: seq<bool>, m: nat, bytes: seq<byte>)
    requires Marked(c, m, bytes)
    ensures m + 48 <= |c| && c[m..m + 48] == Mark3()
  {
  }

  // ----- one sector

  /** A sector lies in the stream from b on. */
  ghost predicate SectorHere(c: seq<bool>, b: nat, prev: bool, s: IbmTrack.Sector, gap: nat)
  {
    var n := |SectorCells(prev, s, gap)|;
    b + n <= |c| && c[b..b + n] == SectorCells(prev, s, gap)
  }

  const ID_LEN: nat := 704

  lemma SectorFields(c: seq<bool>, b: nat, prev: bool, s: IbmTrack.Sector, gap: nat)
    requires SectorHere(c, b, prev, s, gap)
    ensures FieldLen(|IdBytes(s)|, 22) == ID_LEN
    ensures FieldHere(c, b, prev, IdBytes(s), 22)
    ensures FieldHere(c, b + ID_LEN, FieldEnd(IdBytes(s), 22), DataBytes(s), gap)
  {
    hide FieldCells, FieldEnd;
    var n := |SectorCells(prev, s, gap)|;
    var e1, e2 := FieldCells(prev, IdBytes(s), 22), FieldCells(FieldEnd(IdBytes(s), 22), DataBytes(s), gap);
    SliceOfSlice(c, b, b + n, 0, ID_LEN);
    SliceOfSlice(c, b, b + n, ID_LEN, n);
    assert SectorCells(prev, s, gap)[0..ID_LEN] == e1 && SectorCells(prev, s, gap)[ID_LEN..n] == e2;
  }

  /** Where the data CRC of a sector ends. */
  function DataEnd(b: nat, s: IbmTrack.Sector): nat
  {
    b + 992 + 16 * |s.dat|
  }

  /** What the list is to hold for a sector, r being where the revolution began. */
  function Entry(b: nat, r: int, s: IbmTrack.Sector): PSector
  {
    PSector(b + 193 - r, DataEnd(b, s) - r, Idam(s.cyl, s.head, s.sec, s.no), s.mark, Zeros(16), s.dat)
  }

  lemma IdReads(f: Flux, m: nat, s: IbmTrack.Sector)
    requires Marked(f.cells, m, IdBytes(s))
    ensures m + 160 <= |f.cells|
    ensures HeaderAt(f, m + 32, m + 64) == Header(Idam(s.cyl, s.head, s.sec, s.no), 0)
  {
    hide WordAt, HighByte, LowByte, Marked, CrcAt, MarkSeed;
    var bytes := IdBytes(s);
    MarkedBounds(f.cells, m, bytes);
    MarkedWord(f.cells, m, bytes, 1);
    MarkedWord(f.cells, m, bytes, 3);
    FieldResidue(f.cells, m, bytes);
    ZeroByte();
    assert Zeros(16)[8..] == Zeros(8);
  }

  lemma DataReads(f: Flux, m: nat, idx: int, dam: int, s: IbmTrack.Sector, recovery: bool)
    requires FluxOk(f) && Marked(f.cells, m, DataBytes(s)) && SectorOk(s)
    ensures m + 64 <= |f.cells| && m + 96 + 16 * |s.dat| <= |f.cells|
    ensures var q := m + 96 + 16 * |s.dat|;
            DataField(f, idx, Idam(s.cyl, s.head, s.sec, s.no), Seen(dam, s.mark, m + 32, m + 64), recovery)
            == Outcome(q, Some(PSector(idx, OffsetAt(f.pulse, q), Idam(s.cyl, s.head, s.sec, s.no), s.mark, Zeros(16), s.dat)))
  {
    hide Marked, CrcAt, MarkSeed, DataAt, OffsetAt, SectorSize;
    var bytes := DataBytes(s);
    MarkedBounds(f.cells, m, bytes);
    FieldResidue(f.cells, m, bytes);
    MarkedData(f.cells, m, bytes);
    assert bytes[1..] == s.dat;
  }

  lemma SilentPart(c: seq<bool>, p0: nat, p: nat, q: nat)
    requires q <= |c| + 1 && Silent(c, p0, q) && p0 <= p
    ensures Silent(c, p, q)
  {
  }

  /** The decoder meets a sector: from anywhere before its first mark that shows
      no other mark, it reads exactly this sector and stops behind its data. */
  lemma SectorMet(f: Flux, b: nat, prev: bool, s: IbmTrack.Sector, gap: nat, r: nat, p: nat, recovery: bool)
    requires FluxOk(f) && |f.cells| <= NO_LIMIT
    requires SectorOk(s) && s.mark != MARK_IDAM && SectorHere(f.cells, b, prev, s, gap)
    requires r <= b && DataEnd(b, s) <= |f.cells| && Turned(f.pulse, r, DataEnd(b, s))
    requires p <= b + 224 <= |f.cells| && Silent(f.cells, p, b + 224)
    ensures Attempt(f, p, recovery) == Outcome(DataEnd(b, s), Some(Entry(b, r, s)))
  {
    hide WordAt, MarkWord, FieldHere, SectorHere, FieldEnd, Marked, Seek, HeaderAt, DataField, Silent, Turned, Quiet, SectorOk, SectorSize, OffsetAt;
    var c, m := f.cells, b + 192;
    SectorFields(c, b, prev, s, gap);
    FieldIsMarked(c, b, prev, IdBytes(s), 22);
    FieldIsMarked(c, b + ID_LEN, FieldEnd(IdBytes(s), 22), DataBytes(s), gap);
    SeekSkips(f, p, m + 32, NO_LIMIT);
    SeekFinds(f, m, IdBytes(s), NO_LIMIT - (m + 32 - p));
    OffsetFrom(f.pulse, r, m + 64, DataEnd(b, s));
    IdReads(f, m, s);
    var m2 := b + ID_LEN + 192;
    QuietToNext(c, b, prev, IdBytes(s), 22, DataBytes(s), gap);
    MarkedBounds(c, m2, DataBytes(s));
    SilentFromQuiet(c, b + 240, m2);
    SilentPart(c, b + 272, m + 160, m2 + 32);
    SeekSkips(f, m + 160, m2 + 32, DAM_WINDOW);
    SeekFinds(f, m2, DataBytes(s), DAM_WINDOW - (m2 + 32 - (m + 160)));
    OffsetFrom(f.pulse, r, m2 + 64, DataEnd(b, s));
    OffsetFrom(f.pulse, r, DataEnd(b, s), DataEnd(b, s));
    SmallNo(s);
    DataReads(f, m2, b + 193 - r, StartOffset(f, m2 + 64), s, recovery);
  }

  lemma SmallNo(s: IbmTrack.Sector)
    requires SectorOk(s)
    ensures s.no <= 7
  {
  }

  // ----- one track

  /** Where sector k starts, counted from the start of the track. */
  function SecStart(t: Track, k: nat): nat
    requires k <= |t.secs|
  {
    if k == 0 then (if t.hasIam then 256 + 16 * t.gap else 0)
    else SecStart(t, k - 1) + 16 * (61 + |t.secs[k - 1].dat| + t.gap) + 16
  }

  function TrackLen(t: Track): nat
  {
    SecStart(t, |t.secs|)
  }

  /** A stored track: at least one sector, and no data mark that is an ID mark. */
  ghost predicate Readable(t: Track)
  {
    t.secs != [] && TrackOk(t) && forall k | 0 <= k < |t.secs| :: t.secs[k].mark != MARK_IDAM
  }

  lemma ReadableAt(t: Track, k: nat)
    requires Readable(t) && k < |t.secs|
    ensures SectorOk(t.secs[k]) && t.secs[k].mark != MARK_IDAM
  {
  }

  ghost predicate TrackHere(c: seq<bool>, b: nat, prev: bool, t: Track)
  {
    b + TrackLen(t) <= |c| && c[b..b + TrackLen(t)] == TrackCells(prev, t, |t.secs|)
  }

  lemma {:induction false} TrackLength(prev: bool, t: Track, k: nat)
    requires k <= |t.secs|
    ensures |TrackCells(prev, t, k)| == SecStart(t, k)
  {
    hide IamCells, SectorCells, PrevBit;
    if k > 0 {
      TrackLength(prev, t, k - 1);
    }
  }

  lemma {:induction false} TrackPrefix(prev: bool, t: Track, k: nat, n: nat)
    requires k <= n <= |t.secs|
    ensures SecStart(t, k) <= SecStart(t, n) == |TrackCells(prev, t, n)|
    ensures TrackCells(prev, t, n)[..SecStart(t, k)] == TrackCells(prev, t, k)
  {
    hide IamCells, SectorCells, PrevBit;
    TrackLength(prev, t, n);
    TrackLength(prev, t, k);
    if k < n {
      TrackPrefix(prev, t, k, n - 1);
    }
  }

  lemma SectorsHere(c: seq<bool>, b: nat, prev: bool, t: Track, k: nat)
    requires TrackHere(c, b, prev, t) && k < |t.secs|
    ensures SecStart(t, k + 1) <= TrackLen(t)
    ensures SectorHere(c, b + SecStart(t, k), PrevBit(prev, t, k), t.secs[k], t.gap)
  {
    hide SectorCells, TrackCells, PrevBit, SecStart;
    SectorInTrack(prev, t, k);
    SliceOfSlice(c, b, b + TrackLen(t), SecStart(t, k), SecStart(t, k + 1));
  }

  lemma SectorInTrack(prev: bool, t: Track, k: nat)
    requires k < |t.secs|
    ensures SecStart(t, k) <= SecStart(t, k + 1) <= TrackLen(t) == |TrackCells(prev, t, |t.secs|)|
    ensures TrackCells(prev, t, |t.secs|)[SecStart(t, k)..SecStart(t, k + 1)]
         == SectorCells(PrevBit(prev, t, k), t.secs[k], t.gap)
  {
    hide IamCells, SectorCells, PrevBit, SecStart;
    var n := |t.secs|;
    var whole, e := TrackCells(prev, t, n), SectorCells(PrevBit(prev, t, k), t.secs[k], t.gap);
    TrackPrefix(prev, t, k, n);
    TrackPrefix(prev, t, k + 1, n);
    TrackLength(prev, t, k);
    assert whole[..SecStart(t, k + 1)] == TrackCells(prev, t, k) + e;
    SliceOfSlice(whole, 0, SecStart(t, k + 1), SecStart(t, k), SecStart(t, k + 1));
  }

  lemma NextPrev(prev: bool, t: Track, k: nat)
    requires k < |t.secs|
    ensures PrevBit(prev, t, k + 1) == FieldEnd(DataBytes(t.secs[k]), t.gap)
    ensures SecStart(t, k + 1) == SecStart(t, k) + ID_LEN + FieldLen(|DataBytes(t.secs[k])|, t.gap)
  {
  }

  /** Between the data of one sector and the first mark of the next. */
  lemma QuietBetween(c: seq<bool>, b: nat, prev: bool, t: Track, k: nat)
    requires TrackHere(c, b, prev, t) && k + 1 < |t.secs|
    ensures Quiet(c, b + SecStart(t, k) + 944, b + SecStart(t, k + 1) + 192)
  {
    hide TrackHere, SectorHere, FieldHere, FieldEnd, PrevBit, SecStart, Quiet;
    SectorsHere(c, b, prev, t, k);
    SectorsHere(c, b, prev, t, k + 1);
    var s, s2 := t.secs[k], t.secs[k + 1];
    SectorFields(c, b + SecStart(t, k), PrevBit(prev, t, k), s, t.gap);
    SectorFields(c, b + SecStart(t, k + 1), PrevBit(prev, t, k + 1), s2, t.gap);
    NextPrev(prev, t, k);
    QuietToNext(c, b + SecStart(t, k) + ID_LEN, FieldEnd(IdBytes(s), 22), DataBytes(s), t.gap, IdBytes(s2), 22);
  }

  /** The entries for the sectors of a track that starts at b, in a revolution
      that began at r. */
  function Entries(t: Track, b: nat, r: int): (l: seq<PSector>)
    ensures |l| == |t.secs|
  {
    seq(|t.secs|, k requires 0 <= k < |t.secs| => Entry(b + SecStart(t, k), r, t.secs[k]))
  }

  /** Behind the data of the last sector. */
  function LastDataEnd(t: Track, b: nat): nat
    requires t.secs != []
  {
    DataEnd(b + SecStart(t, |t.secs| - 1), t.secs[|t.secs| - 1])
  }

  lemma RecordsMet(f: Flux, p: nat, o: Outcome, recovery: bool)
    requires FluxOk(f) && p < |f.cells| && o == Attempt(f, p + 1, recovery) && o.found.Some?
    ensures Records(f, p, recovery) == [o.found.value] + Records(f, o.p, recovery)
  {
    hide Attempt;
  }

  /** Sector k of a track is met. */
  lemma SectorAt(f: Flux, b: nat, prev: bool, t: Track, r: nat, k: nat, p: nat, recovery: bool)
    requires FluxOk(f) && |f.cells| <= NO_LIMIT && Readable(t) && TrackHere(f.cells, b, prev, t) && k < |t.secs|
    requires r <= b && Turned(f.pulse, r, b + TrackLen(t))
    requires p < b + SecStart(t, k) + 224 <= |f.cells| && Silent(f.cells, p + 1, b + SecStart(t, k) + 224)
    ensures var q := DataEnd(b + SecStart(t, k), t.secs[k]);
            && b + SecStart(t, k) + 224 <= q <= b + TrackLen(t) <= |f.cells|
            && Records(f, p, recovery) == [Entries(t, b, r)[k]] + Records(f, q, recovery)
  {
    hide TrackHere, SectorHere, PrevBit, Silent, Turned, Quiet, Attempt, Records, SecStart, Entry, SectorCells, Readable;
    var c, s, bk := f.cells, t.secs[k], b + SecStart(t, k);
    SectorsHere(c, b, prev, t, k);
    NextPrev(prev, t, k);
    ReadableAt(t, k);
    TrackBounds(c, b, prev, t);
    TurnedPart(f.pulse, r, DataEnd(bk, s), b + TrackLen(t));
    SectorMet(f, bk, PrevBit(prev, t, k), s, t.gap, r, p + 1, recovery);
    RecordsMet(f, p, Outcome(DataEnd(bk, s), Some(Entry(bk, r, s))), recovery);
  }

  lemma BetweenBounds(c: seq<bool>, b: nat, prev: bool, t: Track, k: nat)
    requires TrackHere(c, b, prev, t) && k + 1 < |t.secs|
    ensures var q := DataEnd(b + SecStart(t, k), t.secs[k]);
            b + SecStart(t, k) + 976 <= q + 1 <= b + SecStart(t, k + 1) + 224 <= |c|
  {
    hide TrackHere, SecStart, PrevBit, SectorHere, TrackCells;
    TrackBounds(c, b, prev, t);
    NextPrev(prev, t, k);
    NextPrev(prev, t, k + 1);
    SectorsHere(c, b, prev, t, k + 1);
  }

  lemma SilentBetween(c: seq<bool>, b: nat, prev: bool, t: Track, k: nat)
    requires TrackHere(c, b, prev, t) && k + 1 < |t.secs|
    ensures var q, next := DataEnd(b + SecStart(t, k), t.secs[k]), b + SecStart(t, k + 1);
            q < next + 224 <= |c| && Silent(c, q + 1, next + 224)
  {
    hide *;
    BetweenBounds(c, b, prev, t, k);
    QuietBetween(c, b, prev, t, k);
    SilentFromQuiet(c, b + SecStart(t, k) + 944, b + SecStart(t, k + 1) + 192);
    SilentPart(c, b + SecStart(t, k) + 976, DataEnd(b + SecStart(t, k), t.secs[k]) + 1, b + SecStart(t, k + 1) + 224);
  }

  /** From somewhere before sector k, with no mark in between, the decoder meets
      sectors k up to the last, in order. */
  lemma {:induction false} SectorsFrom(f: Flux, b: nat, prev: bool, t: Track, r: nat, k: nat, p: nat, recovery: bool)
    requires FluxOk(f) && |f.cells| <= NO_LIMIT && Readable(t) && TrackHere(f.cells, b, prev, t) && k < |t.secs|
    requires r <= b && Turned(f.pulse, r, b + TrackLen(t))
    requires p < b + SecStart(t, k) + 224 <= |f.cells| && Silent(f.cells, p + 1, b + SecStart(t, k) + 224)
    ensures LastDataEnd(t, b) <= b + TrackLen(t) <= |f.cells|
    ensures Records(f, p, recovery) == Entries(t, b, r)[k..] + Records(f, LastDataEnd(t, b), recovery)
    decreases |t.secs| - k
  {
    hide *;
    SectorAt(f, b, prev, t, r, k, p, recovery);
    LastDataEndIs(t, b, k);
    var es := Entries(t, b, r);
    assert es[k..] == [es[k]] + es[k + 1..];
    if k + 1 < |t.secs| {
      SilentBetween(f.cells, b, prev, t, k);
      SectorsFrom(f, b, prev, t, r, k + 1, DataEnd(b + SecStart(t, k), t.secs[k]), recovery);
    } else {
      assert es[k + 1..] == [];
    }
  }

  lemma LastDataEndIs(t: Track, b: nat, k: nat)
    requires k < |t.secs|
    ensures k + 1 == |t.secs| ==> LastDataEnd(t, b) == DataEnd(b + SecStart(t, k), t.secs[k])
  {
  }

  lemma TrackBounds(c: seq<bool>, b: nat, prev: bool, t: Track)
    requires TrackHere(c, b, prev, t)
    ensures b + TrackLen(t) <= |c|
  {
  }

  lemma TurnedPart(pulse: seq<bool>, r: nat, e: nat, e2: nat)
    requires Turned(pulse, r, e2) && r <= e <= e2
    ensures Turned(pulse, r, e)
  {
  }
}
