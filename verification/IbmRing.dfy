/** A finished IBM track read for any number of revolutions. */
module IbmRing {
  import opened Bits
  import opened Mfm
  import opened TrackBuffer
  import opened StreamReader
  import opened Revolutions
  import opened SyncMarks
  import opened Gap
  import opened IbmTrack
  import opened IbmSectorList
  import opened IbmReader
  import opened IbmField
  import opened IbmGap
  import opened IbmIam
  import opened IbmRoundTrip

  /** What the decoder is given: the ring read from a reset on. */
  function Reading(lead: seq<bool>, ring: seq<bool>, revs: nat, len0: nat): (f: Flux)
    ensures FluxOk(f)
  {
    SameLengths(lead, ring, revs);
    Flux(Delivered(lead, ring, revs), Pulses(|lead|, |ring|, revs), len0)
  }

  // ----- the finished ring

  /** The ring of a finished track: read from the data start, it shows the track
      and then the gap. */
  ghost predicate Finished(ring: seq<bool>, start: nat, t: Track)
  {
    && start + TrackLen(t) < |ring|
    && ring[start..start + TrackLen(t)] == TrackCells(false, t, |t.secs|)
    && ring[start + TrackLen(t)..] + ring[..start] == GapCells(PrevBit(false, t, |t.secs|), |ring| - TrackLen(t))
  }

  /** This is how tbuf_finalise leaves it. */
  lemma FinalisedIsFinished(ring: seq<bool>, start: nat, t: Track)
    requires start + TrackLen(t) < |ring|
    requires var log := TrackCells(false, t, |t.secs|);
             && |log| == TrackLen(t)
             && forall j | 0 <= j < |ring| ::
                  ring[j] == (log + GapCells(PrevBit(false, t, |t.secs|), |ring| - TrackLen(t)))[Ahead(start, j, |ring|)]
    ensures Finished(ring, start, t)
  {
    hide TrackCells, GapCells, PrevBit, TrackLen;
    var log, gap := TrackCells(false, t, |t.secs|), GapCells(PrevBit(false, t, |t.secs|), |ring| - TrackLen(t));
    var e := start + TrackLen(t);
    forall i | 0 <= i < |log| ensures ring[start..e][i] == log[i] { }
    var tail := ring[e..] + ring[..start];
    forall i | 0 <= i < |gap| ensures tail[i] == gap[i] {
      assert tail[i] == ring[if i < |ring| - e then e + i else i - (|ring| - e)];
    }
  }

  lemma TrackInTurn(ring: seq<bool>, start: nat, t: Track, r: nat, revs: nat)
    requires Finished(ring, start, t) && r < revs
    ensures TrackHere(Spin(ring, revs), |Spin(ring, r)| + start, false, t)
  {
    hide Spin, TrackCells, GapCells, PrevBit;
    SpinTurn(ring, r, revs);
    var b := |Spin(ring, r)|;
    SliceOfSlice(Spin(ring, revs), b, b + |ring|, start, start + TrackLen(t));
  }

  lemma GapInTurn(ring: seq<bool>, start: nat, t: Track, r: nat, revs: nat)
    requires Finished(ring, start, t) && r + 1 < revs
    ensures var c, e, b := Spin(ring, revs), |Spin(ring, r)| + start + TrackLen(t), |Spin(ring, r + 1)| + start;
            && e <= b <= |c| && b - e == |ring| - TrackLen(t)
            && c[e..b] == GapCells(PrevBit(false, t, |t.secs|), |ring| - TrackLen(t))
  {
    hide Spin, TrackCells, GapCells, PrevBit, TrackLen;
    SpinTurn(ring, r, revs);
    SpinTurn(ring, r + 1, revs);
    var c, n, b := Spin(ring, revs), |ring|, |Spin(ring, r + 1)|;
    var e := b - n + start + TrackLen(t);
    SliceOfSlice(c, b - n, b, start + TrackLen(t), n);
    SliceOfSlice(c, b, b + n, 0, start);
    assert c[e..b + start] == c[e..b] + c[b..b + start];
  }

  // ----- the gap shows no mark

  lemma TrackStarts(c: seq<bool>, b: nat, t: Track)
    requires TrackHere(c, b, false, t) && t.secs != []
    ensures b + 192 <= |c| && c[b..b + 192] == Encode(false, Zeros(96))
  {
    hide *;
    if t.hasIam {
      IamAt(c, b, false, t);
      IamPieces(c, b, false, t.gap);
    } else {
      NoIamStart(t);
      FirstField(c, b, false, t);
      FieldMarks(c, b, false, IdBytes(t.secs[0]), 22);
    }
  }

  lemma NoIamStart(t: Track)
    requires !t.hasIam
    ensures SecStart(t, 0) == 0 && !PrevBit(false, t, 0)
  {
  }

  lemma IamAt(c: seq<bool>, b: nat, prev: bool, t: Track)
    requires TrackHere(c, b, prev, t) && t.hasIam
    ensures IamHere(c, b, prev, t.gap)
  {
    hide SectorCells, Encode, IamWord, IamEnd, BytesBits, Fill;
    TrackPrefix(prev, t, 0, |t.secs|);
    hide IamCells;
    SliceOfSlice(c, b, b + TrackLen(t), 0, SecStart(t, 0));
  }

  lemma FirstField(c: seq<bool>, b: nat, prev: bool, t: Track)
    requires TrackHere(c, b, prev, t) && t.secs != []
    ensures FieldHere(c, b + SecStart(t, 0), PrevBit(prev, t, 0), IdBytes(t.secs[0]), 22)
  {
    hide TrackHere, SectorHere, FieldHere, SecStart, PrevBit, TrackLen, FieldEnd;
    SectorsHere(c, b, prev, t, 0);
    SectorFields(c, b + SecStart(t, 0), PrevBit(prev, t, 0), t.secs[0], t.gap);
  }

  /** From legal cells before the track up to its first ID mark. */
  lemma QuietHead(c: seq<bool>, lo: nat, b: nat, t: Track)
    requires TrackHere(c, b, false, t) && t.secs != [] && lo <= b + 192 && b + 192 <= |c|
    requires LegalIn(c, lo, b + 192, b % 2)
    ensures b + SecStart(t, 0) + 224 <= |c| && Quiet(c, lo, b + SecStart(t, 0) + 192)
  {
    hide *;
    FirstField(c, b, false, t);
    var b1 := b + SecStart(t, 0);
    FieldMarks(c, b1, PrevBit(false, t, 0), IdBytes(t.secs[0]), 22);
    if t.hasIam {
      IamAt(c, b, false, t);
      FirstStart(t);
      IamRunsIntoField(c, b, t);
      QuietIam(c, lo, b, b1 + 192, b % 2, false, t.gap);
    } else {
      FirstStart(t);
      QuietLegal(c, lo, b1 + 192, b % 2);
    }
  }

  lemma FirstStart(t: Track)
    ensures SecStart(t, 0) == if t.hasIam then 256 + 16 * t.gap else 0
  {
  }

  lemma FieldMarks(c: seq<bool>, b: nat, prev: bool, bytes: seq<byte>, filler: nat)
    requires FieldHere(c, b, prev, bytes, filler)
    ensures b + 240 <= |c|
    ensures c[b..b + 192] == Encode(prev, Zeros(96)) && c[b + 192..b + 224] == MarkWord()
  {
    hide FieldHere, Encode, Mark3, MarkWord;
    FieldPieces(c, b, prev, bytes, filler);
    TwoMarks(c, b + 192);
  }

  lemma IamRunsIntoField(c: seq<bool>, b: nat, t: Track)
    requires t.hasIam && t.secs != [] && IamHere(c, b, false, t.gap)
    requires FieldHere(c, b + SecStart(t, 0), PrevBit(false, t, 0), IdBytes(t.secs[0]), 22)
    ensures var m := b + SecStart(t, 0) + 192;
            b + 256 <= m <= |c| && LegalIn(c, b + 256, m, b % 2)
  {
    hide *;
    FirstStart(t);
    var b1 := b + SecStart(t, 0);
    FieldMarks(c, b1, PrevBit(false, t, 0), IdBytes(t.secs[0]), 22);
    IamPieces(c, b, false, t.gap);
    FirstPrev(t);
    var d := BytesBits(Fill(0x4e, t.gap));
    EncodeAppend(IamEnd()[31], d, Zeros(96));
    Adjoin(c, b + 256, b1, b1 + 192);
    EncodedRunIsLegal(c, b + 256, b1 + 192, IamEnd()[31], d + Zeros(96));
  }

  lemma FirstPrev(t: Track)
    requires t.hasIam
    ensures PrevBit(false, t, 0) == LastBit(IamEnd()[31], BytesBits(Fill(0x4e, t.gap)))
  {
  }

  /** Legal MFM from lo to zs, zeros up to ze, and legal MFM up to hi. */
  ghost predicate Zone(c: seq<bool>, lo: nat, zs: nat, ze: nat, hi: nat, left: nat, right: nat)
  {
    && lo <= zs <= ze && ze + 32 <= hi <= |c| && left < 2 && right < 2
    && LegalIn(c, lo, zs, left) && LegalIn(c, ze, hi, right)
    && forall j | zs <= j < ze :: !c[j]
  }

  /** The cells from the data of the last sector, over the gap, to the track of
      the next revolution. */
  lemma GapZone(ring: seq<bool>, start: nat, t: Track, r: nat, revs: nat) returns (zs: nat, ze: nat, left: nat)
    requires Finished(ring, start, t) && r + 1 < revs && t.secs != []
    ensures var c, b0, b := Spin(ring, revs), |Spin(ring, r)| + start, |Spin(ring, r + 1)| + start;
            && Zone(c, b0 + SecStart(t, |t.secs| - 1) + 944, zs, ze, b + 192, left, b % 2)
            && TrackHere(c, b, false, t) && ze <= zs + 5 && ze <= b && Alternating(c, ze, b, b + 192)
            && b0 + SecStart(t, |t.secs| - 1) + 944 <= b0 + TrackLen(t) <= |Spin(ring, r + 1)|
  {
    hide *;
    var c, b0, b := Spin(ring, revs), |Spin(ring, r)| + start, |Spin(ring, r + 1)| + start;
    var e, prev := b0 + TrackLen(t), PrevBit(false, t, |t.secs|);
    GapNotEmpty(ring, start, t);
    SpinTurn(ring, r, revs);
    GapInTurn(ring, start, t, r, revs);
    GapPieces(c, e, b, prev);
    zs := e + 2 * ForwardPairs(b - e);
    ze := zs + SpliceCells(b - e);
    TrackInTurn(ring, start, t, r, revs);
    TrackInTurn(ring, start, t, r + 1, revs);
    left := (b0 + SecStart(t, |t.secs| - 1)) % 2;
    LastSectorLegal(c, b0, t, Zeros(ForwardPairs(b - e)));
    TrackStarts(c, b, t);
    ReverseThenLegal(c, ze, b, 96);
    ReverseAlternates(c, ze, b, 96);
    LastSpan(t, b0);
    LastSpan(t, 0);
    ZoneIs(c, b0 + SecStart(t, |t.secs| - 1) + 944, zs, ze, b + 192, left, b % 2);
  }

  lemma ZoneIs(c: seq<bool>, lo: nat, zs: nat, ze: nat, hi: nat, left: nat, right: nat)
    requires lo <= zs <= ze && ze + 32 <= hi <= |c| && left < 2 && right < 2
    requires LegalIn(c, lo, zs, left) && LegalIn(c, ze, hi, right)
    requires forall j | zs <= j < ze :: !c[j]
    ensures Zone(c, lo, zs, ze, hi, left, right)
  {
    hide LegalIn;
  }

  /** The data of the last sector and what follows them is one legal run. */
  lemma LastSectorLegal(c: seq<bool>, b: nat, t: Track, tail: seq<bool>)
    requires TrackHere(c, b, false, t) && t.secs != []
    requires var e := b + TrackLen(t);
             e + 2 * |tail| <= |c| && c[e..e + 2 * |tail|] == Encode(PrevBit(false, t, |t.secs|), tail)
    ensures var bk := b + SecStart(t, |t.secs| - 1);
            bk + 944 <= b + TrackLen(t) && LegalIn(c, bk + 944, b + TrackLen(t) + 2 * |tail|, bk % 2)
  {
    hide TrackHere, SectorHere, FieldHere, Encode, LegalIn, PrevBit, FieldEnd, SecStart;
    var k := |t.secs| - 1;
    var s, bk := t.secs[k], b + SecStart(t, k);
    SectorsHere(c, b, false, t, k);
    SectorFields(c, bk, PrevBit(false, t, k), s, t.gap);
    NextPrev(false, t, k);
    FieldThenLegal(c, bk + ID_LEN, FieldEnd(IdBytes(s), 22), DataBytes(s), t.gap, tail);
  }

  lemma GapNotEmpty(ring: seq<bool>, start: nat, t: Track)
    requires Finished(ring, start, t)
    ensures start + TrackLen(t) < |ring|
  {
  }

  /** From the data of the last sector over the gap to the first ID mark. */
  lemma QuietTurn(ring: seq<bool>, start: nat, t: Track, r: nat, revs: nat)
    requires Finished(ring, start, t) && r + 1 < revs && t.secs != []
    ensures var c, b0, b := Spin(ring, revs), |Spin(ring, r)| + start, |Spin(ring, r + 1)| + start;
            && b + SecStart(t, 0) + 224 <= |c|
            && Quiet(c, b0 + SecStart(t, |t.secs| - 1) + 944, b + SecStart(t, 0) + 192)
  {
    hide Finished, TrackHere, Spin, LegalIn, Quiet, SecStart;
    var c, b0, b := Spin(ring, revs), |Spin(ring, r)| + start, |Spin(ring, r + 1)| + start;
    var lo := b0 + SecStart(t, |t.secs| - 1) + 944;
    var zs, ze, left := GapZone(ring, start, t, r, revs);
    QuietSplice(c, lo, zs, ze, b + 192, left, b % 2);
    QuietHead(c, ze, b, t);
    QuietJoin(c, lo, ze, b + SecStart(t, 0) + 192);
  }

  // ----- behind the lead-in

  /** Before the first ID mark of the first revolution no mark is seen. */
  lemma SilentStart(lead: seq<bool>, ring: seq<bool>, start: nat, t: Track, revs: nat)
    requires LeadsIn(lead, ring) && Finished(ring, start, t) && t.secs != [] && revs > 0
    ensures var c, e := Delivered(lead, ring, revs), start + SecStart(t, 0) + 224;
            |lead| + e <= |c| && Silent(c, |lead| + 1, |lead| + e)
  {
    hide *;
    var wide, n := Spin(ring, revs + 1), |ring|;
    var lo, e := start + SecStart(t, |t.secs| - 1) + 944, start + SecStart(t, 0) + 224;
    SameLengths(lead, ring, revs);
    GapNotEmpty(ring, start, t);
    LastSpan(t, start);
    QuietTurn(ring, start, t, 0, revs + 1);
    SpinTurn(ring, 0, revs + 1);
    NoTurn(ring);
    FirstEnd(ring, start, t, revs);
    var c := Delivered(lead, ring, revs);
    forall r | |lead| + 1 <= r < |lead| + e ensures WordAt(c, r) != MarkWord() {
      var p := r - |lead|;
      RegisterAt(lead, ring, revs, p);
      QuietAt(wide, lo, n + e - 32, n + p - 32);
      MarkHereIs(wide, n + p - 32);
    }
    SilentIs(c, |lead| + 1, |lead| + e);
  }

  lemma MarkHereIs(c: seq<bool>, w: nat)
    requires w + 32 <= |c|
    ensures MarkHere(c, w) <==> c[w..w + 32] == MarkWord()
  {
    hide MarkWord;
  }

  lemma FirstEnd(ring: seq<bool>, start: nat, t: Track, revs: nat)
    requires Finished(ring, start, t) && t.secs != [] && revs > 0
    ensures start + SecStart(t, 0) + 224 <= |Spin(ring, revs)|
  {
    hide *;
    NoTurn(ring);
    TrackInTurn(ring, start, t, 0, revs);
    FirstFits(Spin(ring, revs), start, t);
  }

  lemma SilentIs(c: seq<bool>, p: nat, q: nat)
    requires q <= |c| + 1 && forall r | p <= r < q :: WordAt(c, r) != MarkWord()
    ensures Silent(c, p, q)
  {
    hide WordAt, MarkWord;
  }

  /** What lies behind a full register does not depend on what came before it. */
  lemma SilentShift(lead: seq<bool>, s: seq<bool>, p: nat, q: nat)
    requires 32 <= p <= q <= |s| + 1 && Silent(s, p, q)
    ensures Silent(lead + s, |lead| + p, |lead| + q)
  {
    hide WordAt, MarkWord;
    forall r | |lead| + p <= r < |lead| + q ensures WordAt(lead + s, r) != MarkWord() {
      WordIsLast32(lead + s, r);
      WordIsLast32(s, r - |lead|);
      assert (lead + s)[r - 32..r] == s[r - |lead| - 32..r - |lead|];
    }
  }

  lemma TrackShift(lead: seq<bool>, s: seq<bool>, b: nat, prev: bool, t: Track)
    requires TrackHere(s, b, prev, t)
    ensures TrackHere(lead + s, |lead| + b, prev, t)
  {
    hide TrackCells;
    assert (lead + s)[|lead| + b..|lead| + b + TrackLen(t)] == s[b..b + TrackLen(t)];
  }

  // ----- all revolutions

  /** The sectors of the track, as often as the track comes round. */
  function Rounds(es: seq<PSector>, k: nat): seq<PSector>
  {
    if k == 0 then [] else es + Rounds(es, k - 1)
  }

  lemma {:induction false} NoMoreRecords(f: Flux, p: nat, recovery: bool)
    requires FluxOk(f) && p <= |f.cells| && Silent(f.cells, p + 1, |f.cells| + 1) && |f.cells| <= NO_LIMIT
    ensures Records(f, p, recovery) == []
    decreases |f.cells| - p
  {
    hide Seek, IbmReader.Sector, HeaderAt;
    if p < |f.cells| {
      SeekSkips(f, p + 1, |f.cells|, NO_LIMIT);
      SeekEnds(f, NO_LIMIT - (|f.cells| - (p + 1)));
      NoMoreRecords(f, |f.cells|, recovery);
    }
  }

  lemma SeekEnds(f: Flux, max: nat)
    requires FluxOk(f) && max > 0
    ensures Seek(f, |f.cells|, max).idx < 0
    ensures Seek(f, |f.cells|, max).p == |f.cells|
  {
    hide WordAt, MarkWord;
  }

  /** Where the quiet stretch behind the last sector of revolution r lies. */
  lemma LastBounds(ring: seq<bool>, start: nat, t: Track, r: nat, revs: nat)
    requires Finished(ring, start, t) && Readable(t) && r < revs
    ensures var c, b0, b := Spin(ring, revs), |Spin(ring, r)| + start, |Spin(ring, r + 1)| + start;
            && b0 + SecStart(t, |t.secs| - 1) + 976 <= LastDataEnd(t, b0) < b <= |c| + start
            && LastDataEnd(t, b0) <= |Spin(ring, r + 1)| <= |c|
  {
    hide *;
    NotEmpty(t);
    SpinTurn(ring, r, revs);
    GapNotEmpty(ring, start, t);
    LastSpan(t, |Spin(ring, r)| + start);
  }

  lemma LastSpan(t: Track, b: nat)
    requires t.secs != []
    ensures b + SecStart(t, |t.secs| - 1) + 976 <= LastDataEnd(t, b) <= b + TrackLen(t)
  {
  }

  /** Behind the last sector of revolution r no mark is seen until the first ID
      mark of the next one, or until the stream ends. */
  lemma SilentTurn(ring: seq<bool>, start: nat, t: Track, r: nat, revs: nat)
    requires Finished(ring, start, t) && Readable(t) && r < revs
    ensures var c, b0, b := Spin(ring, revs), |Spin(ring, r)| + start, |Spin(ring, r + 1)| + start;
            && LastDataEnd(t, b0) < b <= |c| + start
            && (r + 1 < revs ==> b + SecStart(t, 0) + 224 <= |c| && Silent(c, LastDataEnd(t, b0) + 1, b + SecStart(t, 0) + 224))
            && (r + 1 == revs ==> LastDataEnd(t, b0) <= |c| && Silent(c, LastDataEnd(t, b0) + 1, |c| + 1))
  {
    hide *;
    var c, wide := Spin(ring, revs), Spin(ring, revs + 1);
    var b0, b := |Spin(ring, r)| + start, |Spin(ring, r + 1)| + start;
    NotEmpty(t);
    LastBounds(ring, start, t, r, revs);
    SpinPrefix(ring, revs, revs + 1);
    QuietTurn(ring, start, t, r, revs + 1);
    var lo, hi := b0 + SecStart(t, |t.secs| - 1) + 944, b + SecStart(t, 0) + 192;
    QuietPrefix(c, wide, lo, hi);
    if r + 1 < revs {
      TrackInTurn(ring, start, t, r + 1, revs);
      FirstFits(c, b, t);
      SilentFromQuiet(c, lo, hi);
      SilentPart(c, lo + 32, LastDataEnd(t, b0) + 1, hi + 32);
    } else {
      QuietShorter(c, lo, |c| - 31, hi);
      SilentFromQuiet(c, lo, |c| - 31);
      SilentPart(c, lo + 32, LastDataEnd(t, b0) + 1, |c| + 1);
    }
  }

  lemma FirstFits(c: seq<bool>, b: nat, t: Track)
    requires TrackHere(c, b, false, t) && t.secs != []
    ensures b + SecStart(t, 0) + 224 <= |c|
  {
    hide *;
    SectorsHere(c, b, false, t, 0);
    FirstLength(t);
    TrackBounds(c, b, false, t);
  }

  lemma FirstLength(t: Track)
    requires t.secs != []
    ensures SecStart(t, 0) + 992 <= SecStart(t, 1)
  {
  }

  lemma NotEmpty(t: Track)
    requires Readable(t)
    ensures t.secs != []
  {
  }

  lemma QuietPrefix(c: seq<bool>, wide: seq<bool>, lo: nat, hi: nat)
    requires |c| <= |wide| && wide[..|c|] == c && Quiet(wide, lo, hi)
    ensures Quiet(c, lo, hi)
  {
    forall w | lo <= w < hi ensures !MarkHere(c, w) {
      assert !MarkHere(wide, w);
      if w + 32 <= |c| {
        assert wide[w..w + 32] == c[w..w + 32];
      }
    }
  }

  lemma QuietShorter(c: seq<bool>, lo: nat, mid: nat, hi: nat)
    requires Quiet(c, lo, hi) && mid <= hi
    ensures Quiet(c, lo, mid)
  {
  }

  lemma SameEntries(t: Track, b: nat, r: nat)
    ensures Entries(t, b + r, r) == Entries(t, b, 0)
  {
    hide SecStart;
  }

  /** From the start of revolution r on, every sector is met in every turn. */
  lemma {:induction false} TurnsFrom(lead: seq<bool>, ring: seq<bool>, start: nat, t: Track, r: nat, revs: nat, len0: nat,
                                     p: nat, recovery: bool)
    requires LeadsIn(lead, ring) && Finished(ring, start, t) && Readable(t) && r < revs
    requires |lead| + |Spin(ring, revs)| <= NO_LIMIT
    requires var c, b := Delivered(lead, ring, revs), |lead| + |Spin(ring, r)| + start + SecStart(t, 0) + 224;
             p < b <= |c| && Silent(c, p + 1, b)
    ensures Records(Reading(lead, ring, revs, len0), p, recovery) == Rounds(Entries(t, start, 0), revs - r)
    decreases revs - r
  {
    hide *;
    var f, s := Reading(lead, ring, revs, len0), Spin(ring, revs);
    var l, b := |lead|, |Spin(ring, r)| + start;
    ReadingIs(lead, ring, revs, len0);
    NotEmpty(t);
    TrackInTurn(ring, start, t, r, revs);
    TrackShift(lead, s, b, false, t);
    GapNotEmpty(ring, start, t);
    TurnedIn(l, ring, r, revs, l + b + TrackLen(t));
    SectorsFrom(f, l + b, false, t, l + |Spin(ring, r)|, 0, p, recovery);
    SameEntries(t, start, l + |Spin(ring, r)|);
    var es := Entries(t, start, 0);
    assert es[0..] == es;
    var q := LastDataEnd(t, b);
    LastShift(t, b, l);
    SilentTurn(ring, start, t, r, revs);
    RoundsMore(es, revs - r);
    if r + 1 < revs {
      SilentShift(lead, s, q + 1, |Spin(ring, r + 1)| + start + SecStart(t, 0) + 224);
      TurnsFrom(lead, ring, start, t, r + 1, revs, len0, l + q, recovery);
    } else {
      SilentShift(lead, s, q + 1, |s| + 1);
      NoMoreRecords(f, l + q, recovery);
    }
  }

  lemma LastShift(t: Track, b: nat, l: nat)
    requires t.secs != []
    ensures LastDataEnd(t, l + b) == l + LastDataEnd(t, b) && LastDataEnd(t, b) >= 32
  {
    hide SecStart;
  }

  lemma RoundsMore(es: seq<PSector>, k: nat)
    requires k > 0
    ensures Rounds(es, k) == es + Rounds(es, k - 1)
    ensures Rounds(es, 0) == []
  {
  }

  lemma ReadingIs(lead: seq<bool>, ring: seq<bool>, revs: nat, len0: nat)
    requires LeadsIn(lead, ring)
    ensures Reading(lead, ring, revs, len0) == Flux(lead + Spin(ring, revs), Pulses(|lead|, |ring|, revs), len0)
    ensures Delivered(lead, ring, revs) == lead + Spin(ring, revs) && |lead| >= 32
    ensures FluxOk(Reading(lead, ring, revs, len0))
  {
  }

  // ----- the list of sectors

  lemma {:induction false} InsertAllAppend(l: seq<PSector>, a: seq<PSector>, b: seq<PSector>)
    ensures InsertAll(l, a + b) == InsertAll(InsertAll(l, a), b)
  {
    hide Insert;
    if b == [] {
      assert a + b == a;
    } else {
      assert (a + b)[..|a + b| - 1] == a + b[..|b| - 1];
      InsertAllAppend(l, a, b[..|b| - 1]);
    }
  }

  lemma NoneInserted(es: seq<PSector>)
    ensures InsertAll(es, Rounds(es, 0)) == es
  {
  }

  lemma {:induction false} RoundsInsert(es: seq<PSector>, k: nat)
    requires Spaced(es)
    ensures InsertAll(es, Rounds(es, k)) == es
  {
    hide Spaced, Insert, InsertAll;
    if k == 0 {
      NoneInserted(es);
    } else {
      InsertAllAppend(es, es, Rounds(es, k - 1));
      InsertAllAgain(es, |es|);
      assert es[..|es|] == es;
      RoundsInsert(es, k - 1);
    }
  }

  lemma {:induction false} StartsApart(t: Track, i: nat, j: nat)
    requires TrackOk(t) && i < j <= |t.secs|
    ensures SecStart(t, i) + 1000 <= SecStart(t, j)
  {
    if i < j - 1 {
      StartsApart(t, i, j - 1);
    }
    assert SectorOk(t.secs[j - 1]);
  }

  lemma EntriesSpaced(t: Track, b: nat, r: int)
    requires TrackOk(t)
    ensures Spaced(Entries(t, b, r))
  {
    hide SecStart;
    var es := Entries(t, b, r);
    forall i, j | 0 <= i < j < |es| ensures es[i].offset + NEAR <= es[j].offset {
      StartsApart(t, i, j);
    }
  }

  lemma LayoutOk(t: Track)
    requires Readable(t)
    ensures TrackOk(t)
  {
  }

  // ----- the index mark

  /** Over the gap no window shows the word of an index mark, until the track begins
      with one. */
  lemma NoIamOverGap(ring: seq<bool>, start: nat, t: Track, r: nat, revs: nat)
    requires Finished(ring, start, t) && r + 1 < revs && t.secs != []
    ensures var c, b0, b := Spin(ring, revs), |Spin(ring, r)| + start, |Spin(ring, r + 1)| + start;
            b0 + SecStart(t, |t.secs| - 1) + 944 <= b + 192 <= |c|
            && NoIam(c, b0 + SecStart(t, |t.secs| - 1) + 944, b + 192)
  {
    hide *;
    var c, b0, b := Spin(ring, revs), |Spin(ring, r)| + start, |Spin(ring, r + 1)| + start;
    var lo := b0 + SecStart(t, |t.secs| - 1) + 944;
    var zs, ze, left := GapZone(ring, start, t, r, revs);
    ZoneParts(c, lo, zs, ze, b + 192, left, b % 2);
    TrackStarts(c, b, t);
    GapBefore(ring, start, t, r, revs);
    NoIamAcrossSplice(c, lo, zs, ze, b, left);
    if t.hasIam {
      IamAt(c, b, false, t);
      IamShown(c, b, t.gap);
      NoIamBeforeIam(c, ze, b);
    } else {
      NoIamStart(t);
      FirstField(c, b, false, t);
      FirstMarks(c, b, IdBytes(t.secs[0]), 22);
      NoIamBeforeField(c, ze, b);
    }
    NoIamJoin(c, lo, b + 161, b + 192);
  }

  lemma ZoneParts(c: seq<bool>, lo: nat, zs: nat, ze: nat, hi: nat, left: nat, right: nat)
    requires Zone(c, lo, zs, ze, hi, left, right)
    ensures lo <= zs <= ze && ze + 32 <= hi <= |c| && left < 2 && LegalIn(c, lo, zs, left)
  {
    hide LegalIn;
  }

  lemma GapBefore(ring: seq<bool>, start: nat, t: Track, r: nat, revs: nat)
    requires Finished(ring, start, t) && r + 1 < revs && t.secs != []
    ensures |Spin(ring, r)| + start + TrackLen(t) < |Spin(ring, r + 1)| + start
  {
    hide TrackLen;
    SpinTurn(ring, r, revs);
  }

  lemma IamShown(c: seq<bool>, b: nat, gap: nat)
    requires IamHere(c, b, false, gap)
    ensures b + 256 <= |c| && c[b + 192..b + 224] == IamWord() && c[b + 224..b + 256] == IamEnd()
  {
    hide IamHere, IamWord, IamEnd, Encode;
    IamPieces(c, b, false, gap);
    SliceOfSlice(c, b + 192, b + 256, 0, 32);
    SliceOfSlice(c, b + 192, b + 256, 32, 64);
  }

  lemma FirstMarks(c: seq<bool>, b: nat, bytes: seq<byte>, filler: nat)
    requires FieldHere(c, b, false, bytes, filler)
    ensures b + 240 <= |c| && c[b + 192..b + 240] == Mark3()
  {
    hide FieldHere, Mark3, Encode;
    FieldPieces(c, b, false, bytes, filler);
  }

  /** Within sector k and up to the one behind it. */
  lemma NoIamInSector(c: seq<bool>, b: nat, t: Track, k: nat)
    requires TrackHere(c, b, false, t) && k < |t.secs|
    ensures var m := b + SecStart(t, k) + 192;
            && NoIam(c, m, m + ID_LEN)
            && (k + 1 < |t.secs| ==> m + ID_LEN <= b + SecStart(t, k + 1) + 192 && NoIam(c, m + ID_LEN, b + SecStart(t, k + 1) + 192))
  {
    hide TrackHere, SectorHere, FieldHere, FieldEnd, PrevBit, SecStart, NoIam;
    SectorsHere(c, b, false, t, k);
    var s, bk := t.secs[k], b + SecStart(t, k);
    SectorFields(c, bk, PrevBit(false, t, k), s, t.gap);
    NextPrev(false, t, k);
    NoIamToNext(c, bk, PrevBit(false, t, k), IdBytes(s), 22, DataBytes(s), t.gap);
    if k + 1 < |t.secs| {
      SectorsHere(c, b, false, t, k + 1);
      SectorFields(c, b + SecStart(t, k + 1), PrevBit(false, t, k + 1), t.secs[k + 1], t.gap);
      NoIamToNext(c, bk + ID_LEN, FieldEnd(IdBytes(s), 22), DataBytes(s), t.gap, IdBytes(t.secs[k + 1]), 22);
    }
  }

  /** From the first ID mark to the data mark of sector k. */
  lemma {:induction false} NoIamInTrack(c: seq<bool>, b: nat, t: Track, k: nat)
    requires TrackHere(c, b, false, t) && k < |t.secs|
    ensures SecStart(t, 0) <= SecStart(t, k) && NoIam(c, b + SecStart(t, 0) + 192, b + SecStart(t, k) + 192 + ID_LEN)
  {
    hide *;
    NoIamInSector(c, b, t, k);
    if k > 0 {
      NoIamInTrack(c, b, t, k - 1);
      NoIamInSector(c, b, t, k - 1);
      var lo, m := b + SecStart(t, 0) + 192, b + SecStart(t, k) + 192;
      NoIamJoin(c, lo, b + SecStart(t, k - 1) + 192 + ID_LEN, m);
      NoIamJoin(c, lo, m, m + ID_LEN);
    }
  }

  /** The data marks of the last sector. */
  lemma NoIamAtLast(c: seq<bool>, b: nat, t: Track)
    requires TrackHere(c, b, false, t) && t.secs != []
    ensures var m := b + SecStart(t, |t.secs| - 1) + 192 + ID_LEN; NoIam(c, m, m + 48)
  {
    hide TrackHere, SectorHere, FieldHere, FieldEnd, PrevBit, SecStart, Mark3, IamMark, LegalIn, Encode;
    var k := |t.secs| - 1;
    var s, bk := t.secs[k], b + SecStart(t, k);
    var m := bk + 192 + ID_LEN;
    SectorsHere(c, b, false, t, k);
    SectorFields(c, bk, PrevBit(false, t, k), s, t.gap);
    FieldPieces(c, bk + ID_LEN, FieldEnd(IdBytes(s), 22), DataBytes(s), t.gap);
    TrackBounds(c, b, false, t);
    NextPrev(false, t, k);
    NothingMore(c, b, t);
    LastSectorLegal(c, b, t, []);
    forall w | m <= w < m + 48 ensures !IamMark(c, w) {
      if w <= m + 41 {
        NoIamFromMarks(c, m, w);
      } else {
        NoIamInLegal(c, m + 48, b + TrackLen(t), w, bk % 2);
      }
    }
  }

  lemma NothingMore(c: seq<bool>, b: nat, t: Track)
    requires b + TrackLen(t) <= |c|
    ensures c[b + TrackLen(t)..b + TrackLen(t)] == Encode(PrevBit(false, t, |t.secs|), [])
  {
  }

  /** A whole revolution of a track without an index mark. */
  lemma NoIamInTurn(ring: seq<bool>, start: nat, t: Track, r: nat, revs: nat)
    requires Finished(ring, start, t) && r + 1 < revs && t.secs != [] && !t.hasIam
    ensures var c, b0, b := Spin(ring, revs), |Spin(ring, r)| + start, |Spin(ring, r + 1)| + start;
            b0 <= b && NoIam(c, b0 + 192, b + 192)
  {
    hide *;
    var c, b0, b := Spin(ring, revs), |Spin(ring, r)| + start, |Spin(ring, r + 1)| + start;
    var last := b0 + SecStart(t, |t.secs| - 1) + 192 + ID_LEN;
    IdLength();
    NoIamStart(t);
    TrackInTurn(ring, start, t, r, revs);
    NoIamInTrack(c, b0, t, |t.secs| - 1);
    NoIamAtLast(c, b0, t);
    NoIamOverGap(ring, start, t, r, revs);
    NoIamJoin(c, b0 + 192, last, last + 48);
    NoIamJoin(c, b0 + 192, last + 48, b + 192);
  }

  lemma IdLength()
    ensures ID_LEN == 704
  {
  }

  lemma {:induction false} NoIamInTurns(ring: seq<bool>, start: nat, t: Track, m: nat, revs: nat)
    requires Finished(ring, start, t) && m < revs && t.secs != [] && !t.hasIam
    ensures NoIam(Spin(ring, revs), start + 192, |Spin(ring, m)| + start + 192)
  {
    hide *;
    NoTurn(ring);
    if m == 0 {
      NoIamIs(Spin(ring, revs), start + 192, start + 192);
    } else {
      NoIamInTurns(ring, start, t, m - 1, revs);
      NoIamInTurn(ring, start, t, m - 1, revs);
      NoIamJoin(Spin(ring, revs), start + 192, |Spin(ring, m - 1)| + start + 192, |Spin(ring, m)| + start + 192);
    }
  }

  /** What the register shows behind the first index pulse. */
  lemma NoIamShown(lead: seq<bool>, ring: seq<bool>, revs: nat, more: nat, lo: nat, hi: nat, p: nat)
    requires LeadsIn(lead, ring) && p <= |Spin(ring, revs)| && revs < more
    requires NoIam(Spin(ring, more), lo, hi) && lo + 32 <= |ring| + p < hi + 32
    ensures WordAt(Delivered(lead, ring, revs), |lead| + p) != IamWord()
  {
    hide *;
    RegisterAt(lead, ring, revs, p);
    SpinPrefix(ring, revs + 1, more);
    var w, s, n := |ring| + p - 32, Spin(ring, more), |Spin(ring, revs + 1)|;
    NoIamAt(s, lo, hi, w);
    IamMarkIs(s, w);
    SliceOfSlice(s, 0, n, w, w + 32);
    assert s[..n] == s[0..n];
  }

  lemma IamMarkIs(c: seq<bool>, w: nat)
    requires w + 32 <= |c|
    ensures IamMark(c, w) <==> c[w..w + 32] == IamWord()
  {
    hide IamWord;
  }

  lemma IamAbsent(lead: seq<bool>, ring: seq<bool>, start: nat, t: Track, revs: nat, len0: nat)
    requires LeadsIn(lead, ring) && Finished(ring, start, t) && t.secs != [] && !t.hasIam
    ensures |lead| <= |Reading(lead, ring, revs, len0).cells| && !IamSeen(Reading(lead, ring, revs, len0), |lead|)
  {
    hide *;
    var f, c := Reading(lead, ring, revs, len0), Delivered(lead, ring, revs);
    ReadingIs(lead, ring, revs, len0);
    SameLengths(lead, ring, revs);
    NoIamInTurns(ring, start, t, revs + 1, revs + 2);
    GapNotEmpty(ring, start, t);
    LastSpan(t, start);
    SpinFront(ring, revs);
    forall r | |lead| < r <= |f.cells| ensures WordAt(f.cells, r) != IamWord() {
      NoIamShown(lead, ring, revs, revs + 2, start + 192, |Spin(ring, revs + 1)| + start + 192, r - |lead|);
    }
    IamNever(f, |lead|);
  }

  lemma IamPresent(lead: seq<bool>, ring: seq<bool>, start: nat, t: Track, revs: nat, len0: nat)
    requires LeadsIn(lead, ring) && Finished(ring, start, t) && t.secs != [] && t.hasIam && revs > 0
    ensures |lead| <= |Reading(lead, ring, revs, len0).cells| && IamSeen(Reading(lead, ring, revs, len0), |lead|)
  {
    hide *;
    var f, c, wide, n := Reading(lead, ring, revs, len0), Delivered(lead, ring, revs), Spin(ring, revs + 1), |ring|;
    var l, p := |lead|, start + 224;
    ReadingIs(lead, ring, revs, len0);
    SameLengths(lead, ring, revs);
    GapNotEmpty(ring, start, t);
    LastSpan(t, start);
    FirstStart(t);
    FirstEnd(ring, start, t, revs);
    NoTurn(ring);
    SpinTurn(ring, 0, revs + 1);
    NoIamOverGap(ring, start, t, 0, revs + 1);
    var lo := start + SecStart(t, |t.secs| - 1) + 944;
    forall r | l < r < l + p ensures WordAt(f.cells, r) != IamWord() {
      NoIamShown(lead, ring, revs, revs + 1, lo, n + start + 192, r - l);
    }
    TrackInTurn(ring, start, t, 1, revs + 1);
    IamAt(wide, n + start, false, t);
    IamShown(wide, n + start, t.gap);
    RegisterAt(lead, ring, revs, p);
    RegisterAt(lead, ring, revs, p + 32);
    IamFirst(f, l, l + p);
  }

  /** The round trip.  A finished track, read from a reset on for one or more
      revolutions, gives exactly its sectors, in order, with their headers, marks
      and data, good CRCs, and their distances from the index pulse; and an index
      mark is reported if and only if the track has one. */
  lemma RoundTrip(lead: seq<bool>, ring: seq<bool>, start: nat, t: Track, revs: nat, len0: nat, recovery: bool)
    requires LeadsIn(lead, ring) && Finished(ring, start, t) && Readable(t) && 0 < revs
    requires |lead| + |Spin(ring, revs)| <= NO_LIMIT
    ensures var f := Reading(lead, ring, revs, len0);
            && InsertAll([], Records(f, IndexFrom(f.pulse, 0), recovery)) == Entries(t, start, 0)
            && (IamSeen(f, IndexFrom(f.pulse, 0)) <==> t.hasIam)
  {
    hide *;
    var f := Reading(lead, ring, revs, len0);
    ReadingIs(lead, ring, revs, len0);
    FirstIndex(|lead|, |ring|, revs);
    NotEmpty(t);
    NoTurn(ring);
    SilentStart(lead, ring, start, t, revs);
    TurnsFrom(lead, ring, start, t, 0, revs, len0, |lead|, recovery);
    var es := Entries(t, start, 0);
    RoundsMore(es, revs);
    LayoutOk(t);
    EntriesSpaced(t, start, 0);
    InsertAllAppend([], es, Rounds(es, revs - 1));
    InsertAllSpaced(es);
    RoundsInsert(es, revs - 1);
    if t.hasIam {
      IamPresent(lead, ring, start, t, revs, len0);
    } else {
      IamAbsent(lead, ring, start, t, revs, len0);
    }
  }
}
