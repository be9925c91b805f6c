/** Laying out an IBM MFM track: how large the gaps are, how long the track is,
    and that what the encoder emits fits on it. */
module IbmLayout {
  import opened Bits
  import opened Mfm
  import opened TrackBuffer
  import opened IbmTrack
  import opened IbmRoundTrip
  import opened IbmRing

  const PRE_INDEX: nat := 40
  const STRETCH: nat := 1000
  const LEAST_GAP: int := 10

  function PostIndex(fm: bool): nat
  {
    if fm then 40 else 80
  }

  function IamBits(fm: bool): nat
  {
    (if fm then 7 else 16) * 16
  }

  /** The gap that gapBits spare cells leave behind each of n sectors. */
  function GapFor(fm: bool, hasIam: bool, gapBits: int, n: nat): int
    requires hasIam || n > 0
  {
    var shared := gapBits - (PostIndex(fm) + PRE_INDEX) * 16;
    if hasIam then TruncDiv(shared - IamBits(fm), (n + 1) * 16) else TruncDiv(shared, n * 16)
  }

  /** Enough spare cells leave a large enough gap. */
  lemma EnoughSpace(fm: bool, hasIam: bool, gapBits: int, n: nat)
    requires hasIam || n > 0
    requires gapBits >= 160 * (n + 1) + 2176
    ensures GapFor(fm, hasIam, gapBits, n) >= LEAST_GAP
  {
    var d := if hasIam then (n + 1) * 16 else n * 16;
    var shared := gapBits - (PostIndex(fm) + PRE_INDEX) * 16 - (if hasIam then IamBits(fm) else 0);
    assert shared >= 10 * d;
    DivAtLeast(shared, d, 10);
  }

  /** The gaps use up what is left of the spare cells when the gaps around the index and
      the index mark have taken theirs, all but what does not go round. */
  lemma GapBudget(fm: bool, hasIam: bool, spare: int, n: nat)
    requires hasIam || n > 0
    ensures var fixed := if fm then 40 + 40 + (if hasIam then 7 else 0) else 80 + 40 + (if hasIam then 16 else 0);
            var gaps := if hasIam then n + 1 else n;
            var left := spare - 16 * fixed;
            left >= 0 ==> GapFor(fm, hasIam, spare, n) * (16 * gaps) <= left < (GapFor(fm, hasIam, spare, n) + 1) * (16 * gaps)
  {
    hide TruncDiv;
    var fixed := if fm then 40 + 40 + (if hasIam then 7 else 0) else 80 + 40 + (if hasIam then 16 else 0);
    var gaps, left := if hasIam then n + 1 else n, spare - 16 * fixed;
    if left >= 0 {
      WholeParts(left, 16 * gaps);
      assert GapFor(fm, hasIam, spare, n) == TruncDiv(left, 16 * gaps);
    }
  }

  lemma WholeParts(a: nat, d: nat)
    requires d > 0
    ensures TruncDiv(a, d) * d <= a < (TruncDiv(a, d) + 1) * d
  {
    var q := a / d;
    assert q * d + a % d == a;
    assert (q + 1) * d == q * d + d;
  }

  lemma DivAtLeast(a: int, d: nat, k: nat)
    requires d > 0 && a >= k * d
    ensures a >= 0 && a / d >= k
  {
    var q := a / d;
    assert q * d + a % d == a;
    TimesLess(q, k, d);
  }

  lemma TimesLess(q: int, k: int, d: nat)
    ensures q < k ==> q * d + d <= k * d
  {
    if q < k {
      var e: nat := k - q - 1;
      assert (q + 1 + e) * d == q * d + d + e * d;
      assert e * d >= 0;
    }
  }

  /** choose_post_data_gap: stretches the track by as few steps of 1000 cells as
      make the gap large enough. */
  method ChoosePostDataGap(fm: bool, hasIam: bool, gapBits: int, totalBits: nat, n: nat)
    returns (gap: int, total: nat, ghost steps: nat)
    requires hasIam || n > 0
    ensures total == totalBits + STRETCH * steps
    ensures gap == GapFor(fm, hasIam, gapBits + STRETCH * steps, n) >= LEAST_GAP
    ensures forall k: nat | k < steps :: GapFor(fm, hasIam, gapBits + STRETCH * k, n) < LEAST_GAP
  {
    hide GapFor;
    var spare := gapBits;
    total, steps := totalBits, 0;
    while true
      invariant spare == gapBits + STRETCH * steps && total == totalBits + STRETCH * steps
      invariant forall k: nat | k < steps :: GapFor(fm, hasIam, gapBits + STRETCH * k, n) < LEAST_GAP
      decreases 160 * (n + 1) + 2176 - spare
    {
      gap := GapFor(fm, hasIam, spare, n);
      if gap >= LEAST_GAP {
        return;
      }
      if spare >= 160 * (n + 1) + 2176 {
        EnoughSpace(fm, hasIam, spare, n);
      }
      spare := spare + STRETCH;
      total := total + STRETCH;
      steps := steps + 1;
    }
  }

  // ----- setting up a track

  /** DEFAULT_BITS_PER_TRACK, doubled for high density. */
  function DefaultBits(rpm: nat, high: bool): nat
    requires rpm > 0
  {
    100150 * 300 / rpm * (if high then 2 else 1)
  }

  /** A track of 300 and one of 360 revolutions a minute. */
  lemma DefaultBitsAre(high: bool)
    ensures DefaultBits(300, high) == (if high then 200300 else 100150)
    ensures DefaultBits(360, high) == (if high then 166916 else 83458)
  {
  }

  datatype Setup = TooMuchData | Laid(track: Track, totalBits: nat, dataBitoff: nat)

  /** The cells of n sectors of size bytes, gaps not counted. */
  function SectorBits(n: nat, size: nat): nat
  {
    n * (62 + size) * 16
  }

  lemma {:induction false} EqualSectors(t: Track, k: nat, size: nat)
    requires k <= |t.secs| && forall i | 0 <= i < k :: |t.secs[i].dat| == size
    ensures SecStart(t, k) == SecStart(t, 0) + SectorBits(k, size) + 16 * (k * t.gap)
  {
    if k > 0 {
      EqualSectors(t, k - 1, size);
      assert k * (62 + size) == (k - 1) * (62 + size) + (62 + size);
      assert k * t.gap == (k - 1) * t.gap + t.gap;
    }
  }

  /** What the encoder emits ends 120 byte times before the track does: the gap
      that is stored has at most the size that was computed. */
  lemma LayoutFits(t: Track, size: nat, total: nat, gap: int)
    requires t.hasIam && forall i | 0 <= i < |t.secs| :: |t.secs[i].dat| == size
    requires gap == GapFor(false, true, total - SectorBits(|t.secs|, size), |t.secs|) >= LEAST_GAP
    requires t.gap <= gap
    ensures TrackLen(t) + 120 * 16 <= total
  {
    hide SecStart, SectorBits;
    var n := |t.secs|;
    EqualSectors(t, n, size);
    HeadLength(t);
    var spare := total - SectorBits(n, size) - 1920 - 256;
    DivTimes(spare, (n + 1) * 16);
    SharedGap(t.gap, gap, n);
  }

  lemma HeadLength(t: Track)
    requires t.hasIam
    ensures SecStart(t, 0) == 256 + 16 * t.gap
  {
  }

  lemma SharedGap(g: nat, gap: int, n: nat)
    requires g <= gap
    ensures 16 * (n * g) + 16 * g <= gap * ((n + 1) * 16)
  {
    assert g * (n + 1) == n * g + g;
    assert (gap - g) * (n + 1) >= 0;
    assert (gap - g) * (n + 1) == gap * (n + 1) - g * (n + 1);
    assert gap * ((n + 1) * 16) == gap * (n + 1) * 16;
  }

  lemma DivTimes(a: int, d: nat)
    requires d > 0 && TruncDiv(a, d) >= 1
    ensures a >= 0 && TruncDiv(a, d) * d <= a
  {
    TruncSign(a, d);
  }

  lemma TruncSign(a: int, d: nat)
    requires d > 0
    ensures a < 0 ==> TruncDiv(a, d) <= 0
  {
  }

  /** The loop of setup_ibm_mfm_track over the sectors of an image. */
  method BuildSectors(n: nat, no: byte, secMap: seq<byte>, cylMap: seq<byte>, headMap: seq<byte>, markMap: seq<byte>,
                      dat: seq<byte>) returns (secs: seq<Sector>)
    requires n <= |secMap| && n <= |cylMap| && n <= |headMap| && n <= |markMap| && n * SectorSize(no) <= |dat|
    ensures |secs| == n
    ensures forall i | 0 <= i < n ::
              && i * SectorSize(no) + SectorSize(no) <= |dat|
              && secs[i] == Sector(cylMap[i], headMap[i], secMap[i], no, markMap[i],
                                   dat[i * SectorSize(no)..i * SectorSize(no) + SectorSize(no)])
  {
    hide SectorSize;
    var size := SectorSize(no);
    secs := [];
    for i := 0 to n
      invariant |secs| == i
      invariant forall k | 0 <= k < i ::
                  && k * size + size <= |dat|
                  && secs[k] == Sector(cylMap[k], headMap[k], secMap[k], no, markMap[k], dat[k * size..k * size + size])
    {
      TimesMono(i + 1, n, size);
      secs := secs + [Sector(cylMap[i], headMap[i], secMap[i], no, markMap[i], dat[i * size..i * size + size])];
    }
  }

  /** The track is the default one, made longer by as many steps as a large enough gap
      needs and no more; n sectors take used cells of it. */
  ghost predicate StretchedTo(base: nat, total: nat, n: nat, used: nat)
  {
    && base <= total && (total - base) % STRETCH == 0
    && GapFor(false, true, total - used, n) >= LEAST_GAP
    && forall k: nat :: base + STRETCH * k < total ==> GapFor(false, true, base - used + STRETCH * k, n) < LEAST_GAP
  }

  /** setup_ibm_mfm_track for MFM: the sectors of an image, their common size and
      the gaps that fill the track. */
  method SetupIbmMfmTrack(rpm: nat, high: bool, n: nat, no: byte, secMap: seq<byte>, cylMap: seq<byte>,
                          headMap: seq<byte>, markMap: seq<byte>, dat: seq<byte>) returns (r: Setup)
    requires rpm > 0 && no <= 7
    requires n <= |secMap| && n <= |cylMap| && n <= |headMap| && n <= |markMap| && n * SectorSize(no) <= |dat|
    ensures r.TooMuchData? <==> DefaultBits(rpm, high) < SectorBits(n, SectorSize(no))
    ensures r.Laid? ==>
              && TrackOk(r.track) && r.track.hasIam && |r.track.secs| == n
              && (forall i | 0 <= i < n ::
                    && i * SectorSize(no) + SectorSize(no) <= |dat|
                    && r.track.secs[i] == Sector(cylMap[i], headMap[i], secMap[i], no, markMap[i],
                                                 dat[i * SectorSize(no)..i * SectorSize(no) + SectorSize(no)]))
              && StretchedTo(DefaultBits(rpm, high), r.totalBits, n, SectorBits(n, SectorSize(no)))
              && r.track.gap == GapFor(false, true, r.totalBits - SectorBits(n, SectorSize(no)), n) % 256
              && r.dataBitoff == 80 * 16
              && TrackLen(r.track) + 120 * 16 <= r.totalBits
              && r.dataBitoff + TrackLen(r.track) < r.totalBits
  {
    hide GapFor, SectorBits, DefaultBits, TrackLen, SectorSize;
    var size := SectorSize(no);
    var secs := BuildSectors(n, no, secMap, cylMap, headMap, markMap, dat);
    var bits := DefaultBits(rpm, high);
    if bits < SectorBits(n, size) {
      return TooMuchData;
    }
    var gap, total, steps := ChoosePostDataGap(false, true, bits - SectorBits(n, size), bits, n);
    var track := Track(true, gap % 256, secs);
    LayoutFits(track, size, total, gap);
    return Laid(track, total, 80 * 16);
  }

  lemma TimesMono(a: nat, b: nat, m: nat)
    requires a <= b
    ensures a * m <= b * m && (a > 0 ==> a * m == (a - 1) * m + m)
  {
  }

  // ----- writing the track

  /** track_read_raw for an IBM MFM track: the encoder, then tbuf_finalise. */
  method TrackReadRaw(t: Track, dataBitoff: nat, totalBits: nat) returns (tbuf: Tbuf)
    requires t.secs != [] && dataBitoff + TrackLen(t) < totalBits
    ensures tbuf.Shaped() && tbuf.bitlen == totalBits
    ensures Finished(tbuf.Ring(), dataBitoff, t)
  {
    hide *;
    tbuf := new Tbuf(dataBitoff, totalBits);
    IbmMfmReadRaw(tbuf, t);
    ghost var log := TrackCells(false, t, |t.secs|);
    assert tbuf.log == log;
    tbuf.StartPosition();
    ghost var pos, prev, before := tbuf.pos, tbuf.prev, tbuf.Ring();
    TrackLength(false, t, |t.secs|);
    LengthIs(t);
    tbuf.Finalise();
    FinishedRing(totalBits, dataBitoff, log, pos, tbuf.Ring(), prev);
    FinalisedIsFinished(tbuf.Ring(), dataBitoff, t);
  }

  lemma LengthIs(t: Track)
    requires t.secs != []
    ensures TrackLen(t) == SecStart(t, |t.secs|) > 0
  {
  }
}
