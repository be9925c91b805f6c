/** The AmigaDOS round trip: what the encoder writes, the scanner reads back. */
module AmigaDosTrack {
  import opened Bits
  import opened Mfm
  import opened TrackBuffer
  import opened StreamReader
  import opened Revolutions
  import opened SyncMarks
  import opened Gap
  import opened AmigaDos
  import opened AmigaDosReader

  /** Eleven sectors, each behind a sync mark that the track type accepts, headers and
      labels free. */
  ghost predicate TrackOk(f: Filter, ims: seq<Image>)
  {
    Known(f) && ImagesOk(ims) && forall j {:trigger SyncOf(ims, j)} | 0 <= j < SECTORS :: Accepts(f, SyncOf(ims, j))
  }

  function SyncOf(ims: seq<Image>, k: nat): (s: seq<bool>)
    requires ImagesOk(ims) && k < SECTORS
    ensures |s| == 32
  {
    ims[k].sync
  }

  // ----- decoding one sector

  lemma FieldOfLayout(raw: seq<byte>, off: nat, bs: seq<byte>)
    requires off + 2 * |bs| <= |raw|
    requires AllOdds(raw)[4 * off..4 * (off + 2 * |bs|)] == Layout(EvenOdd, bs)
    ensures Field(raw, off, |bs|) == bs
  {
    hide AllOdds, Layout, DecodedByte, Field;
    var part, n := raw[off..off + 2 * |bs|], |bs|;
    AllOddsSlice(raw, off, off + 2 * n);
    assert |part| == 2 * n;
    forall i | 0 <= i < n ensures DecodedByte(EvenOdd, part, n, i) == bs[i] {
      DecodeUndoesLayout(EvenOdd, part, bs, i);
    }
    FieldIs(raw, off, n, bs);
  }

  lemma FieldIs(raw: seq<byte>, off: nat, n: nat, bs: seq<byte>)
    requires off + 2 * n <= |raw| && |bs| == n
    requires forall i | 0 <= i < n :: DecodedByte(EvenOdd, raw[off..off + 2 * n], n, i) == bs[i]
    ensures Field(raw, off, n) == bs
  {
    hide DecodedByte;
  }

  lemma {:induction false} HalvesOfBits(bs: seq<byte>)
    ensures AllEvens(bs) == EvenBits(BytesBits(bs))
    ensures AllOdds(bs) == DataBits(BytesBits(bs))
  {
    if bs != [] {
      hide ToBits, EvenBits, DataBits;
      var front, b := BytesBits(bs[..|bs| - 1]), ByteBits(bs[|bs| - 1]);
      HalvesOfByte(bs[|bs| - 1]);
      HalvesOfBits(bs[..|bs| - 1]);
      HalvesAppend(front, b);
    }
  }

  lemma HalvesAppend(a: seq<bool>, b: seq<bool>)
    requires |a| % 2 == 0
    ensures EvenBits(a + b) == EvenBits(a) + EvenBits(b)
    ensures DataBits(a + b) == DataBits(a) + DataBits(b)
  {
  }

  lemma HalvesOfByte(b: byte)
    ensures Evens(b) == EvenBits(ByteBits(b)) && Odds(b) == DataBits(ByteBits(b))
  {
  }

  /** The bytes of a word, most significant first. */
  function BytesOf(c: seq<bool>): (bs: seq<byte>)
    requires |c| % 8 == 0
    ensures |bs| == |c| / 8
  {
    if c == [] then [] else BytesOf(c[..|c| - 8]) + [ByteOf(c[|c| - 8..])]
  }

  lemma {:induction false} BytesOfBits(c: seq<bool>)
    requires |c| % 8 == 0
    ensures BytesBits(BytesOf(c)) == c
  {
    hide ByteOf, ByteBits;
    if c != [] {
      BytesOfBits(c[..|c| - 8]);
      BitsOfByte(c[|c| - 8..]);
      assert BytesOf(c)[..|c| / 8 - 1] == BytesOf(c[..|c| - 8]);
    }
  }

  /** A checksum word written in even-odd layout reads back as its own bits. */
  lemma FieldOfWord(raw: seq<byte>, off: nat, c: seq<bool>)
    requires |c| == 32 && off + 8 <= |raw|
    requires AllOdds(raw)[4 * off..4 * (off + 8)] == WordLayout(c)
    ensures BytesBits(Field(raw, off, 4)) == c
  {
    hide AllOdds, Field, EvenBits, DataBits, AllEvens;
    BytesOfBits(c);
    HalvesOfBits(BytesOf(c));
    FieldOfLayout(raw, off, BytesOf(c));
  }

  /** Decoding the cells after a sync mark gives the header and the data that
      were encoded, and both checksums match. */
  lemma SectorDecodes(im: Image, i: nat, raw: seq<byte>)
    requires ImageOk(im) && i < SECTORS && |raw| == RAW_BYTES
    requires AllOdds(raw) == Body(im, i)
    ensures RawHeader(raw) == Header(im, i) && RawData(raw) == im.dat
    ensures SumsMatch(raw)
  {
    hide AllOdds, Layout, Checksum, Field, BytesBits, WordLayout;
    var h := Header(im, i);
    BodySlices(im, i);
    FieldOfLayout(raw, 0, h[..4]);
    FieldOfLayout(raw, 8, h[4..]);
    FieldOfWord(raw, 40, Checksum(h));
    FieldOfWord(raw, 48, Checksum(im.dat));
    FieldOfLayout(raw, 56, im.dat);
    assert h[..4] + h[4..] == h;
  }

  lemma BodySlices(im: Image, i: nat)
    requires ImageOk(im) && i < SECTORS
    ensures var h, d := Header(im, i), Body(im, i);
            && d[0..32] == Layout(EvenOdd, h[..4]) && d[32..160] == Layout(EvenOdd, h[4..])
            && d[160..192] == WordLayout(Checksum(h)) && d[192..224] == WordLayout(Checksum(im.dat))
            && d[224..4320] == Layout(EvenOdd, im.dat)
  {
    hide Layout, Checksum, WordLayout;
  }

  // ----- where things lie on the track

  /** The cells of a stream that holds a whole track after a lead-in. */
  ghost predicate HoldsTrack(f: Filter, cells: seq<bool>, lead: nat, prev: bool, ims: seq<Image>)
  {
    && TrackOk(f, ims)
    && lead + 8704 * SECTORS <= |cells|
    && cells[lead..lead + 8704 * SECTORS] == TrackCells(prev, ims, SECTORS)
  }

  lemma {:induction false} TrackPrefix(f: Filter, prev: bool, ims: seq<Image>, k: nat, n: nat)
    requires TrackOk(f, ims) && k <= n <= SECTORS
    ensures TrackCells(prev, ims, n)[..8704 * k] == TrackCells(prev, ims, k)
  {
    hide TrackCells, SectorCells, PrevBit, ImageOk;
    if k < n {
      TrackPrefix(f, prev, ims, k, n - 1);
      TrackStep(f, prev, ims, n);
      assert TrackCells(prev, ims, n)[..8704 * k] == TrackCells(prev, ims, n - 1)[..8704 * k];
    }
  }

  lemma TrackStep(f: Filter, prev: bool, ims: seq<Image>, n: nat)
    requires TrackOk(f, ims) && 0 < n <= SECTORS
    ensures TrackCells(prev, ims, n)
         == TrackCells(prev, ims, n - 1) + SectorCells(PrevBit(prev, ims, n - 1), ims[n - 1], n - 1)
  {
    hide SectorCells, PrevBit;
  }

  /** Sector k stands at its place. */
  lemma SectorAt(f: Filter, cells: seq<bool>, lead: nat, prev: bool, ims: seq<Image>, k: nat)
    requires HoldsTrack(f, cells, lead, prev, ims) && k < SECTORS
    ensures var base := lead + 8704 * k;
            cells[base..base + 8704] == SectorCells(PrevBit(prev, ims, k), ims[k], k)
  {
    hide SectorCells, PrevBit;
    var t := TrackCells(prev, ims, SECTORS);
    TrackPrefix(f, prev, ims, k + 1, SECTORS);
    SliceOfSlice(cells, lead, lead + 8704 * SECTORS, 8704 * k, 8704 * (k + 1));
    assert t[8704 * k..8704 * (k + 1)] == t[..8704 * (k + 1)][8704 * k..];
  }

  /** The parts of a sector. */
  lemma PartsAt(f: Filter, cells: seq<bool>, lead: nat, prev: bool, ims: seq<Image>, k: nat)
    requires HoldsTrack(f, cells, lead, prev, ims) && k < SECTORS
    ensures var base := lead + 8704 * k;
            && cells[base..base + 32] == Encode(PrevBit(prev, ims, k), Zeros(16))
            && cells[base + 32..base + 64] == ims[k].sync
            && cells[base + 64..base + 8704] == Encode(ims[k].sync[31], Body(ims[k], k))
  {
    hide Encode, Body, PrevBit, Accepts, Known;
    var base := lead + 8704 * k;
    SectorAt(f, cells, lead, prev, ims, k);
    SliceOfSlice(cells, base, base + 8704, 0, 32);
    SliceOfSlice(cells, base, base + 8704, 32, 64);
    SliceOfSlice(cells, base, base + 8704, 64, 8704);
  }

  lemma GapIsLegal(f: Filter, cells: seq<bool>, lead: nat, prev: bool, ims: seq<Image>, k: nat)
    requires HoldsTrack(f, cells, lead, prev, ims) && k < SECTORS
    ensures var base := lead + 8704 * k;
            base + 32 <= |cells| && LegalIn(cells, base, base + 32, lead % 2)
  {
    hide Encode, LegalIn, PrevBit, HoldsTrack, Body;
    TrackBounds(f, cells, lead, prev, ims);
    TrackIsOk(f, cells, lead, prev, ims);
    PartsAt(f, cells, lead, prev, ims, k);
    EncodedRunIsLegal(cells, lead + 8704 * k, lead + 8704 * k + 32, PrevBit(prev, ims, k), Zeros(16));
  }

  /** From the end of one sync mark to the start of the next the cells are
      legal MFM, across the sector boundary. */
  lemma LegalBetween(f: Filter, cells: seq<bool>, lead: nat, prev: bool, ims: seq<Image>, k: nat)
    requires HoldsTrack(f, cells, lead, prev, ims) && k < SECTORS
    ensures var hi := lead + 8704 * (k + 1) + (if k + 1 < SECTORS then 32 else 0);
            hi <= |cells| && LegalIn(cells, lead + 8704 * k + 64, hi, lead % 2)
  {
    hide Encode, Body, LegalIn, Accepts, Known;
    var from := lead + 8704 * k + 64;
    var last := ims[k].sync[31];
    var mid := lead + 8704 * (k + 1);
    PartsAt(f, cells, lead, prev, ims, k);
    if k + 1 < SECTORS {
      PartsAt(f, cells, lead, prev, ims, k + 1);
      EncodeAppend(last, Body(ims[k], k), Zeros(16));
      assert cells[from..mid + 32] == cells[from..mid] + cells[mid..mid + 32];
      EncodedRunIsLegal(cells, from, mid + 32, last, Body(ims[k], k) + Zeros(16));
    } else {
      EncodedRunIsLegal(cells, from, mid, last, Body(ims[k], k));
    }
  }

  function MarkAt(lead: nat, k: nat): nat
  {
    lead + 8704 * k + 32
  }

  lemma SyncInSector(f: Filter, cells: seq<bool>, lead: nat, prev: bool, ims: seq<Image>, k: nat, w: nat)
    requires HoldsTrack(f, cells, lead, prev, ims) && k < SECTORS
    requires lead + 8704 * k <= w < lead + 8704 * (k + 1) && w + 32 <= lead + 8704 * SECTORS
    ensures Accepts(f, cells[w..w + 32]) <==> w == MarkAt(lead, k)
  {
    hide *;
    TrackBounds(f, cells, lead, prev, ims);
    var a := lead + 8704 * k + 32;
    assert MarkAt(lead, k) == a by { MarkAtIs(lead, k); }
    PartsAt(f, cells, lead, prev, ims, k);
    SyncsOk(f, cells, lead, prev, ims, k);
    if Accepts(f, cells[w..w + 32]) {
      HalvesOfSync(f, cells, w);
    }
    if w < a {
      GapIsLegal(f, cells, lead, prev, ims, k);
      NoSyncBefore(f, cells, a - 32, a, w, lead % 2);
    } else if w == a {
    } else {
      LegalBetween(f, cells, lead, prev, ims, k);
      var hi := if w + 32 < a + 32 then a + 32 else w + 32;
      LegalSlice(cells, a + 32, a + 8704 - (if k + 1 < SECTORS then 0 else 32), a + 32, hi, lead % 2);
      NoSyncAfter(f, cells, a, hi, w, lead % 2);
    }
  }

  lemma MarkAtIs(lead: nat, k: nat)
    ensures MarkAt(lead, k) == lead + 8704 * k + 32
  {
  }

  lemma TrackBounds(f: Filter, cells: seq<bool>, lead: nat, prev: bool, ims: seq<Image>)
    requires HoldsTrack(f, cells, lead, prev, ims)
    ensures lead + 8704 * SECTORS <= |cells|
  {
  }

  lemma SyncsOk(f: Filter, cells: seq<bool>, lead: nat, prev: bool, ims: seq<Image>, k: nat)
    requires HoldsTrack(f, cells, lead, prev, ims) && k < SECTORS
    ensures Known(f) && |ims[k].sync| == 32 && Accepts(f, ims[k].sync)
  {
    hide Accepts, Known;
    assert Accepts(f, SyncOf(ims, k));
  }

  lemma TrackIsOk(f: Filter, cells: seq<bool>, lead: nat, prev: bool, ims: seq<Image>)
    requires HoldsTrack(f, cells, lead, prev, ims)
    ensures TrackOk(f, ims)
  {
  }

  // ----- going round

  /** A finished track of n cells, from its first sector on. */
  function Turn(ims: seq<Image>, n: nat): (t: seq<bool>)
    requires n >= 8704 * SECTORS && ImagesOk(ims)
    ensures |t| == n
  {
    TrackCells(false, ims, SECTORS) + GapCells(PrevBit(false, ims, SECTORS), n - 8704 * SECTORS)
  }

  /** The ring of a finished track whose data start at start; there is a gap. */
  ghost predicate Written(ring: seq<bool>, start: nat, f: Filter, ims: seq<Image>)
  {
    && TrackOk(f, ims) && start < |ring| && 8704 * SECTORS < |ring|
    && forall j | 0 <= j < |ring| :: ring[j] == Turn(ims, |ring|)[Ahead(start, j, |ring|)]
  }

  /** The track in revolution j. */
  lemma TrackInTurn(f: Filter, ims: seq<Image>, n: nat, j: nat, m: nat)
    requires TrackOk(f, ims) && 8704 * SECTORS < n && j < m
    ensures HoldsTrack(f, Spin(Turn(ims, n), m), |Spin(Turn(ims, n), j)|, false, ims)
  {
    hide Spin, TrackCells, GapCells, PrevBit, ImageOk, Known;
    var t := Turn(ims, n);
    SpinTurn(t, j, m);
    var b := |Spin(t, j)|;
    SliceOfSlice(Spin(t, m), b, b + n, 0, 8704 * SECTORS);
  }

  lemma GapInTurn(f: Filter, ims: seq<Image>, n: nat, j: nat, m: nat)
    requires TrackOk(f, ims) && 8704 * SECTORS < n && j < m
    ensures var c, b := Spin(Turn(ims, n), m), |Spin(Turn(ims, n), j)|;
            var e := b + 8704 * SECTORS;
            && b + n <= |c| && c[e..b + n] == GapCells(PrevBit(false, ims, SECTORS), n - 8704 * SECTORS)
  {
    hide Spin, TrackCells, GapCells, PrevBit, ImageOk, Known;
    var t := Turn(ims, n);
    SpinTurn(t, j, m);
    var b := |Spin(t, j)|;
    SliceOfSlice(Spin(t, m), b, b + n, 8704 * SECTORS, n);
  }

  /** The data of the last sector run on into the gap as legal MFM. */
  lemma LastRunsOn(f: Filter, c: seq<bool>, b: nat, ims: seq<Image>, z: nat)
    requires HoldsTrack(f, c, b, false, ims) && b + 8704 * SECTORS + 2 * z <= |c|
    requires var e := b + 8704 * SECTORS; c[e..e + 2 * z] == Encode(PrevBit(false, ims, SECTORS), Zeros(z))
    ensures LegalIn(c, MarkAt(b, SECTORS - 1) + 32, b + 8704 * SECTORS + 2 * z, b % 2)
  {
    hide Encode, Body, LegalIn, Accepts, Known, TrackCells;
    var k := SECTORS - 1;
    var from, e := b + 8704 * k + 64, b + 8704 * SECTORS;
    PartsAt(f, c, b, false, ims, k);
    LastBitIs(ims[k].sync[31], Body(ims[k], k));
    EncodeAppend(ims[k].sync[31], Body(ims[k], k), Zeros(z));
    assert c[from..e + 2 * z] == c[from..e] + c[e..e + 2 * z];
    EncodedRunIsLegal(c, from, e + 2 * z, ims[k].sync[31], Body(ims[k], k) + Zeros(z));
  }

  lemma LastBitIs(prev: bool, d: seq<bool>)
    requires d != []
    ensures LastBit(prev, d) == d[|d| - 1]
  {
  }

  /** The gap in revolution j and what surrounds it. */
  lemma GapZone(f: Filter, ims: seq<Image>, n: nat, j: nat, m: nat) returns (zs: nat, ze: nat)
    requires TrackOk(f, ims) && 8704 * SECTORS < n && j + 1 < m
    ensures var c, b := Spin(Turn(ims, n), m), |Spin(Turn(ims, n), j)|;
            && b + n == |Spin(Turn(ims, n), j + 1)| && b + n + 64 <= |c|
            && MarkAt(b, SECTORS) - 32 <= zs <= ze <= b + n
            && LegalIn(c, MarkAt(b, SECTORS - 1) + 32, zs, b % 2) && LegalIn(c, ze, b + n + 32, (b + n) % 2)
            && (forall i | zs <= i < ze :: !c[i])
            && Accepts(f, c[b + n + 32..b + n + 64])
  {
    hide *;
    OkParts(f, ims);
    var c, b := Spin(Turn(ims, n), m), |Spin(Turn(ims, n), j)|;
    var e, gap, prev := b + 8704 * SECTORS, n - 8704 * SECTORS, PrevBit(false, ims, SECTORS);
    SpinTurn(Turn(ims, n), j, m);
    TrackInTurn(f, ims, n, j, m);
    TrackInTurn(f, ims, n, j + 1, m);
    GapInTurn(f, ims, n, j, m);
    GapPieces(c, e, b + n, prev);
    zs := e + 2 * ForwardPairs(gap);
    ze := zs + SpliceCells(gap);
    LastRunsOn(f, c, b, ims, ForwardPairs(gap));
    TrackBounds(f, c, b + n, false, ims);
    PartsAt(f, c, b + n, false, ims, 0);
    NothingBefore(f, ims);
    ReverseThenLegal(c, ze, b + n, 16);
    SyncsOk(f, c, b + n, false, ims, 0);
    MarkAtIs(b, SECTORS);
  }

  lemma NothingBefore(f: Filter, ims: seq<Image>)
    requires TrackOk(f, ims)
    ensures !PrevBit(false, ims, 0)
  {
  }

  /** Between the last mark of one revolution and the first of the next no sync
      shows. */
  lemma NoSyncInGap(f: Filter, ims: seq<Image>, n: nat, j: nat, m: nat, w: nat)
    requires TrackOk(f, ims) && 8704 * SECTORS < n && j + 1 < m
    requires var b := |Spin(Turn(ims, n), j)|; MarkAt(b, SECTORS - 1) < w < b + n + 32
    ensures w + 32 <= |Spin(Turn(ims, n), m)| && !Accepts(f, Spin(Turn(ims, n), m)[w..w + 32])
  {
    hide *;
    OkParts(f, ims);
    var c, b := Spin(Turn(ims, n), m), |Spin(Turn(ims, n), j)|;
    var zs, ze := GapZone(f, ims, n, j, m);
    var a := MarkAt(b, SECTORS - 1);
    MarkAtIs(b, SECTORS - 1);
    MarkAtIs(b, SECTORS);
    TrackInTurn(f, ims, n, j, m);
    if w + 32 <= zs {
      PartsAt(f, c, b, false, ims, SECTORS - 1);
      SyncsOk(f, c, b, false, ims, SECTORS - 1);
      NoSyncAfter(f, c, a, zs, w, b % 2);
    } else if w < ze {
      NoSyncAcrossSplice(f, c, a + 32, zs, ze, b + n + 32, b % 2, (b + n) % 2, w);
    } else {
      NoSyncBefore(f, c, ze, b + n + 32, w, (b + n) % 2);
    }
    if Accepts(f, c[w..w + 32]) {
      HalvesOfSync(f, c, w);
    }
  }

  lemma OkParts(f: Filter, ims: seq<Image>)
    requires TrackOk(f, ims)
    ensures SECTORS == 11 && Known(f) && ImagesOk(ims)
  {
  }

  /** In revolution j, from its first mark up to that of the next one, exactly the
      marks show an accepted sync. */
  lemma SyncInTurn(f: Filter, ims: seq<Image>, n: nat, j: nat, m: nat, w: nat)
    requires TrackOk(f, ims) && 8704 * SECTORS < n && j + 1 < m
    requires var b := |Spin(Turn(ims, n), j)|; b <= w < b + n + 32
    ensures var b, c := |Spin(Turn(ims, n), j)|, Spin(Turn(ims, n), m);
            w + 32 <= |c| && (Accepts(f, c[w..w + 32]) <==> exists k | 0 <= k < SECTORS :: w == MarkAt(b, k))
  {
    hide Turn, Spin, Accepts, HoldsTrack, Known, ImageOk;
    var c, b := Spin(Turn(ims, n), m), |Spin(Turn(ims, n), j)|;
    if w > MarkAt(b, SECTORS - 1) {
      NoSyncInGap(f, ims, n, j, m, w);
    } else {
      TrackInTurn(f, ims, n, j, m);
      TrackBounds(f, c, b, false, ims);
      var k := (w - b) / 8704;
      SyncInSector(f, c, b, false, ims, k, w);
      forall i | 0 <= i < SECTORS && w == MarkAt(b, i) ensures i == k { }
    }
  }

  lemma {:induction false} FindTurn<T>(t: seq<T>, m: nat, w: nat) returns (j: nat)
    requires |t| > 0 && w < |Spin(t, m)|
    ensures j < m && |Spin(t, j)| <= w < |Spin(t, j)| + |t|
  {
    j := m - 1;
    if w < |Spin(t, m - 1)| {
      j := FindTurn(t, m - 1, w);
    }
  }

  /** Sync marks occur only where the encoder put them: however often a finished track
      goes round, of all its windows exactly those at the sector starts show a sync
      that the track type accepts. */
  lemma SyncOnlyWhereWritten(f: Filter, ims: seq<Image>, n: nat, m: nat, w: nat)
    requires TrackOk(f, ims) && 8704 * SECTORS < n && w + 32 <= |Spin(Turn(ims, n), m)|
    ensures var t := Turn(ims, n);
            Accepts(f, Spin(t, m)[w..w + 32])
            <==> exists j, k | 0 <= j < m && 0 <= k < SECTORS :: w == MarkAt(|Spin(t, j)|, k)
  {
    hide Turn, Spin, Accepts, Known, ImageOk;
    var t := Turn(ims, n);
    SpinPrefix(t, m, m + 1);
    assert Spin(t, m)[w..w + 32] == Spin(t, m + 1)[w..w + 32];
    var j := FindTurn(t, m, w);
    SyncInTurn(f, ims, n, j, m + 1, w);
    forall i, k | 0 <= i < m && 0 <= k < SECTORS && w == MarkAt(|Spin(t, i)|, k) ensures i == j {
      SameTurn(t, i, j, m, w);
    }
  }

  lemma SameTurn<T>(t: seq<T>, i: nat, j: nat, m: nat, w: nat)
    requires i < m && j < m && |Spin(t, i)| <= w < |Spin(t, i)| + |t| && |Spin(t, j)| <= w < |Spin(t, j)| + |t|
    ensures i == j
  {
    if i < j {
      SpinTurn(t, i, j);
    } else if j < i {
      SpinTurn(t, j, i);
    }
  }

  // ----- the order in which the sectors are met

  /** The first index pulse falls before the end of the mark of sector k0, and behind
      that of the sector before; 11 stands for sector 0 of the next turn. */
  predicate FirstMet(n: nat, start: nat, k0: nat)
  {
    && k0 <= SECTORS && start < n
    && (k0 < SECTORS ==> 8704 * k0 + 64 > n - start)
    && (k0 > 0 ==> 8704 * (k0 - 1) + 64 <= n - start)
  }

  lemma FindFirst(n: nat, start: nat) returns (k0: nat)
    requires start < n
    ensures FirstMet(n, start, k0)
  {
    k0 := 0;
    while k0 < SECTORS && 8704 * k0 + 64 <= n - start
      invariant k0 <= SECTORS && (k0 > 0 ==> 8704 * (k0 - 1) + 64 <= n - start)
    {
      k0 := k0 + 1;
    }
  }

  /** The sector met as number i, and the number under which sector k is met. */
  function Sec(k0: nat, i: nat): (k: nat)
    requires k0 <= SECTORS && i < SECTORS
    ensures k < SECTORS
  {
    if k0 + i < SECTORS then k0 + i else k0 + i - SECTORS
  }

  function Rank(k0: nat, k: nat): (i: nat)
    requires k0 <= SECTORS && k < SECTORS
    ensures i < SECTORS && Sec(k0, i) == k
    ensures forall j | 0 <= j < SECTORS && Sec(k0, j) == k :: j == i
  {
    if k >= k0 then k - k0 else k + SECTORS - k0
  }

  /** Where the mark of the sector met as number i ends, counted from the first index
      pulse. */
  function MarkEnd(n: nat, start: nat, k0: nat, i: nat): (p: nat)
    requires FirstMet(n, start, k0) && i < SECTORS
    ensures p > 0
  {
    if k0 + i < SECTORS then 8704 * (k0 + i) + 64 + start - n else 8704 * (k0 + i - SECTORS) + 64 + start
  }

  /** Its distance from the last index pulse. */
  function OffsetOf(n: nat, start: nat, k: nat): nat
  {
    var p := 8704 * k + 64 + start;
    if p >= n then p - n else p
  }

  lemma MarkEndTurn(n: nat, start: nat, k0: nat, i: nat)
    requires FirstMet(n, start, k0) && i < SECTORS && n > 8704 * SECTORS
    ensures var p := MarkEnd(n, start, k0, i);
            p <= n && OffsetOf(n, start, Sec(k0, i)) == if p == n then 0 else p
  {
  }

  /** The header of sector k, as decoded, is not one of a standard track. */
  predicate HeaderIsExtended(track: byte, im: Image, k: nat)
    requires ImageOk(im) && k < SECTORS
  {
    NonStandard(track, im.sync, Header(im, k))
  }

  function AnyExtended(track: byte, ims: seq<Image>, k0: nat, i: nat): bool
    requires k0 <= SECTORS && i <= SECTORS && ImagesOk(ims)
  {
    i > 0 && (AnyExtended(track, ims, k0, i - 1) || HeaderIsExtended(track, ims[Sec(k0, i - 1)], Sec(k0, i - 1)))
  }

  /** What the scan has found when it has met i sectors. */
  function FoundAfter(track: byte, ims: seq<Image>, n: nat, start: nat, k0: nat, i: nat): (f: Found)
    requires k0 <= SECTORS && i <= SECTORS && ImagesOk(ims)
    ensures |f.blocks| == SECTORS && f.valid == i
  {
    var zero := Rank(k0, 0) < i;
    Found(seq(SECTORS, k requires 0 <= k < SECTORS =>
            if Rank(k0, k) < i then Good(ims[k].sync, Header(ims[k], k), ims[k].dat) else Bad),
          i,
          if i == 0 then 0 else if zero then SECTORS else SECTORS - k0,
          if i == 0 then 0 else OffsetOf(n, start, if zero then 0 else k0) - 31,
          AnyExtended(track, ims, k0, i))
  }

  lemma StoredNext(track: byte, ims: seq<Image>, n: nat, start: nat, k0: nat, i: nat)
    requires k0 <= SECTORS && i < SECTORS && ImagesOk(ims)
    ensures var k := Sec(k0, i);
            var f, h, off := FoundAfter(track, ims, n, start, k0, i), Header(ims[k], k), OffsetOf(n, start, k) - 31;
            && h[2] == k && h[3] == SECTORS - k
            && f.blocks[k] == Bad
            && Found(f.blocks[k := Good(ims[k].sync, h, ims[k].dat)], i + 1,
                     if f.least < h[3] then h[3] else f.least, if f.least < h[3] then off else f.bitoff,
                     f.extended || NonStandard(track, ims[k].sync, h))
               == FoundAfter(track, ims, n, start, k0, i + 1)
  {
    hide NonStandard, OffsetOf;
    var k := Sec(k0, i);
    var f, g := FoundAfter(track, ims, n, start, k0, i), FoundAfter(track, ims, n, start, k0, i + 1);
    var h := Header(ims[k], k);
    assert Rank(k0, k) == i;
    forall j | 0 <= j < SECTORS ensures f.blocks[k := Good(ims[k].sync, h, ims[k].dat)][j] == g.blocks[j] {
      assert Sec(k0, Rank(k0, j)) == j;
    }
  }

  // ----- the ring and the turning track

  /** Seen from the first sector, a ring that has turned some times is a part of the
      turning track. */
  lemma {:induction false} Rotated(a: seq<bool>, b: seq<bool>, m: nat)
    ensures a + Spin(b + a, m) == Spin(a + b, m) + a
  {
    if m > 0 {
      Rotated(a, b, m - 1);
      var s, t := Spin(b + a, m - 1), Spin(a + b, m - 1);
      assert a + (s + (b + a)) == (a + s) + (b + a);
      assert t + a + (b + a) == t + (a + b) + a;
    }
  }

  lemma RingParts(ring: seq<bool>, start: nat, f: Filter, ims: seq<Image>)
    requires Written(ring, start, f, ims)
    ensures ring == ring[..start] + ring[start..] && Turn(ims, |ring|) == ring[start..] + ring[..start]
  {
    hide Turn, ImageOk, Known;
    var t, n := Turn(ims, |ring|), |ring|;
    var r := ring[start..] + ring[..start];
    forall i | 0 <= i < n ensures t[i] == r[i] {
      if i < n - start {
        assert r[i] == ring[start + i];
      } else {
        assert r[i] == ring[i - (n - start)];
      }
    }
  }

  /** The cells of the turning ring, where they lie on the turning track. */
  lemma RingInTrack(ring: seq<bool>, start: nat, f: Filter, ims: seq<Image>, m: nat)
    requires Written(ring, start, f, ims)
    ensures var s, r := Spin(Turn(ims, |ring|), m + 1), Spin(ring, m);
            |ring| - start + |r| <= |s| && s[|ring| - start..|ring| - start + |r|] == r
  {
    hide Turn, Spin, Written, TrackOk;
    WrittenBounds(ring, start, f, ims);
    OkParts(f, ims);
    var t, n := Turn(ims, |ring|), |ring|;
    RingParts(ring, start, f, ims);
    var a, b := ring[..start], ring[start..];
    Rotated(a, b, m);
    SpinFront(t, m);
    assert Spin(t, m + 1) == b + (a + Spin(t, m)) == b + (Spin(ring, m) + a);
    assert (b + (Spin(ring, m) + a))[|b|..|b| + |Spin(ring, m)|] == Spin(ring, m);
  }

  lemma WrittenBounds(ring: seq<bool>, start: nat, f: Filter, ims: seq<Image>)
    requires Written(ring, start, f, ims)
    ensures start < |ring| && 8704 * SECTORS < |ring| && TrackOk(f, ims)
  {
  }

  // ----- the scan

  /** A finished ring read from a reset on, k0 being the first sector met. */
  ghost predicate Read(lead: seq<bool>, ring: seq<bool>, start: nat, f: Filter, ims: seq<Image>, revs: nat, k0: nat)
  {
    LeadsIn(lead, ring) && Written(ring, start, f, ims) && revs >= 2 && FirstMet(|ring|, start, k0)
  }

  lemma ReadParts(lead: seq<bool>, ring: seq<bool>, start: nat, f: Filter, ims: seq<Image>, revs: nat, k0: nat)
    requires Read(lead, ring, start, f, ims, revs, k0)
    ensures LeadsIn(lead, ring) && |lead| >= 32 && Written(ring, start, f, ims) && FirstMet(|ring|, start, k0)
    ensures start < |ring| && 8704 * SECTORS < |ring| && k0 <= SECTORS
    ensures SECTORS == 11 && Known(f) && ImagesOk(ims)
    ensures TrackOk(f, ims) && revs >= 2
  {
    hide ImageOk, Accepts, Known;
  }

  /** The register and the cells behind the first index pulse, on the turning track. */
  lemma OnTrack(lead: seq<bool>, ring: seq<bool>, start: nat, f: Filter, ims: seq<Image>, revs: nat, k0: nat, p: nat)
    requires Read(lead, ring, start, f, ims, revs, k0) && p <= |Spin(ring, revs)|
    ensures |ring| >= 8704 * SECTORS && ImagesOk(ims)
    ensures var c, s, o := Delivered(lead, ring, revs), Spin(Turn(ims, |ring|), revs + 2), 2 * |ring| - start;
            && 32 <= o + p <= o + |Spin(ring, revs)| <= |s| && |lead| + |Spin(ring, revs)| == |c|
            && WordAt(c, |lead| + p) == s[o + p - 32..o + p]
            && c[|lead| + p..] == s[o + p..o + |Spin(ring, revs)|]
  {
    hide *;
    ReadParts(lead, ring, start, f, ims, revs, k0);
    SameLengths(lead, ring, revs);
    var s, wide, n, r := Spin(Turn(ims, |ring|), revs + 2), Spin(ring, revs + 1), |ring|, Spin(ring, revs);
    RegisterAt(lead, ring, revs, p);
    RingInTrack(ring, start, f, ims, revs + 1);
    SpinFront(ring, revs);
    DeliveredIs(lead, ring, revs);
    SliceOfSlice(s, n - start, n - start + |wide|, n + p - 32, n + p);
    SliceOfSlice(s, n - start, n - start + |wide|, n + p, n + |r|);
    assert wide[n + p..n + |r|] == r[p..] == (lead + r)[|lead| + p..];
  }

  lemma DeliveredIs(lead: seq<bool>, ring: seq<bool>, revs: nat)
    ensures Delivered(lead, ring, revs) == lead + Spin(ring, revs)
  {
  }

  /** The revolution of the turning track in which sector i is met. */
  function TurnOf(k0: nat, i: nat): nat
  {
    if k0 + i < SECTORS then 1 else 2
  }

  lemma TurnBases<T>(t: seq<T>)
    ensures |Spin(t, 0)| == 0 && |Spin(t, 1)| == |t| && |Spin(t, 2)| == 2 * |t|
  {
  }

  lemma TwoTurns(ring: seq<bool>, revs: nat)
    requires revs >= 2
    ensures |Spin(ring, revs)| >= 2 * |ring|
  {
    TurnBases(ring);
    SpinPrefix(ring, 2, revs);
  }

  lemma MetAt(ims: seq<Image>, n: nat, start: nat, k0: nat, i: nat)
    requires n >= 8704 * SECTORS && ImagesOk(ims)
    requires FirstMet(n, start, k0) && i < SECTORS
    ensures var b := |Spin(Turn(ims, n), TurnOf(k0, i))|;
            b == TurnOf(k0, i) * n && 2 * n - start + MarkEnd(n, start, k0, i) == MarkAt(b, Sec(k0, i)) + 32
  {
    hide Turn, ImageOk, Spin;
    TurnBases(Turn(ims, n));
  }

  /** Between two marks that follow each other no sync shows. */
  lemma QuietTo(f: Filter, ims: seq<Image>, n: nat, j: nat, m: nat, k: nat, w: nat)
    requires TrackOk(f, ims) && 8704 * SECTORS < n && j + 1 < m && k < SECTORS
    requires k > 0 ==> MarkAt(|Spin(Turn(ims, n), j)|, k - 1) < w
    requires k == 0 ==> j > 0 && MarkAt(|Spin(Turn(ims, n), j - 1)|, SECTORS - 1) < w
    requires w < MarkAt(|Spin(Turn(ims, n), j)|, k)
    ensures w + 32 <= |Spin(Turn(ims, n), m)| && !Accepts(f, Spin(Turn(ims, n), m)[w..w + 32])
  {
    hide Turn, Spin, Accepts, Known, ImageOk;
    var t := Turn(ims, n);
    if k > 0 {
      SyncInTurn(f, ims, n, j, m, w);
    } else {
      SpinTurn(t, j - 1, j);
      NoSyncInGap(f, ims, n, j - 1, m, w);
    }
  }

  /** Before the mark of the sector met as number i. */
  lemma QuietBefore(lead: seq<bool>, ring: seq<bool>, start: nat, f: Filter, ims: seq<Image>, revs: nat, k0: nat, i: nat,
                    p: nat)
    requires Read(lead, ring, start, f, ims, revs, k0) && i < SECTORS && FirstMet(|ring|, start, k0)
    requires (if i == 0 then 0 else MarkEnd(|ring|, start, k0, i - 1)) < p < MarkEnd(|ring|, start, k0, i)
    ensures |lead| + p <= |Delivered(lead, ring, revs)| && !Accepts(f, WordAt(Delivered(lead, ring, revs), |lead| + p))
  {
    hide *;
    ReadParts(lead, ring, start, f, ims, revs, k0);
    var n, j, k := |ring|, TurnOf(k0, i), Sec(k0, i);
    MarkEndTurn(n, start, k0, i);
    TwoTurns(ring, revs);
    OnTrack(lead, ring, start, f, ims, revs, k0, p);
    MetAt(ims, n, start, k0, i);
    var w := 2 * n - start + p - 32;
    MarkBefore(ims, n, start, k0, i, w);
    QuietTo(f, ims, n, j, revs + 2, k, w);
  }

  /** The window lies behind the mark that comes before that of number i. */
  lemma MarkBefore(ims: seq<Image>, n: nat, start: nat, k0: nat, i: nat, w: nat)
    requires n > 8704 * SECTORS && ImagesOk(ims)
    requires FirstMet(n, start, k0) && i < SECTORS
    requires w + 32 > 2 * n - start + (if i == 0 then 0 else MarkEnd(n, start, k0, i - 1))
    ensures var j, k, t := TurnOf(k0, i), Sec(k0, i), Turn(ims, n);
            && 1 <= j <= 2
            && (k > 0 ==> MarkAt(|Spin(t, j)|, k - 1) < w)
            && (k == 0 ==> MarkAt(|Spin(t, j - 1)|, SECTORS - 1) < w)
  {
    hide Turn, ImageOk, Spin;
    TurnBases(Turn(ims, n));
    if i > 0 {
      MetAt(ims, n, start, k0, i - 1);
    }
  }

  lemma {:induction false} SkipQuiet(cells: seq<bool>, pulse: seq<bool>, p: nat, q: nat, track: byte, f: Filter, g: Found)
    requires |pulse| == |cells| && p <= q <= |cells| && |g.blocks| == SECTORS && g.valid < SECTORS
    requires forall r | p < r <= q :: !Accepts(f, WordAt(cells, r))
    ensures Scan(cells, pulse, p, track, f, g) == Scan(cells, pulse, q, track, f, g)
    decreases q - p
  {
    hide Scan, WordAt, Accepts;
    if p < q {
      ScanStep(cells, pulse, p, track, f, g);
      SkipQuiet(cells, pulse, p + 1, q, track, f, g);
    }
  }

  /** At the end of a mark: the word, the cells behind it, and the distance from the
      index pulse. */
  lemma AtMark(lead: seq<bool>, ring: seq<bool>, start: nat, f: Filter, ims: seq<Image>, revs: nat, k0: nat, i: nat)
    requires Read(lead, ring, start, f, ims, revs, k0) && i < SECTORS && FirstMet(|ring|, start, k0)
    ensures ImagesOk(ims)
    ensures var c, q, k := Delivered(lead, ring, revs), |lead| + MarkEnd(|ring|, start, k0, i), Sec(k0, i);
            && q + 8 * RAW_BYTES <= |c| && WordAt(c, q) == ims[k].sync
            && c[q..q + 8 * RAW_BYTES] == Encode(ims[k].sync[31], Body(ims[k], k))
            && |Pulses(|lead|, |ring|, revs)| == |c|
            && OffsetAt(Pulses(|lead|, |ring|, revs), q) == OffsetOf(|ring|, start, k)
  {
    hide *;
    ReadParts(lead, ring, start, f, ims, revs, k0);
    var c, s, n, k := Delivered(lead, ring, revs), Spin(Turn(ims, |ring|), revs + 2), |ring|, Sec(k0, i);
    var p, b, r := MarkEnd(n, start, k0, i), |Spin(Turn(ims, n), TurnOf(k0, i))|, |Spin(ring, revs)|;
    RawLength();
    MarkEndTurn(n, start, k0, i);
    TwoTurns(ring, revs);
    OnTrack(lead, ring, start, f, ims, revs, k0, p);
    MetAt(ims, n, start, k0, i);
    MarkAtIs(b, k);
    TurnBound(k0, i);
    TrackInTurn(f, ims, n, TurnOf(k0, i), revs + 2);
    PartsAt(f, s, b, false, ims, k);
    var o := 2 * n - start;
    SliceOfSlice(s, o + p, o + r, 0, 8 * RAW_BYTES);
    assert c[|lead| + p..][..8 * RAW_BYTES] == c[|lead| + p..|lead| + p + 8 * RAW_BYTES];
    SameLengths(lead, ring, revs);
    PulseBefore(lead, ring, revs, p);
  }

  lemma RawLength()
    ensures 8 * RAW_BYTES == 8640
  {
  }

  lemma TurnBound(k0: nat, i: nat)
    ensures TurnOf(k0, i) < 3
  {
  }

  lemma PulseBefore(lead: seq<bool>, ring: seq<bool>, revs: nat, p: nat)
    requires |lead| > 0 && revs >= 2 && 0 < p <= |ring|
    ensures |lead| + p <= |Pulses(|lead|, |ring|, revs)|
    ensures OffsetAt(Pulses(|lead|, |ring|, revs), |lead| + p) == if p == |ring| then 0 else p
  {
    hide Spin, OffsetAt, Pulses;
    TurnBases(ring);
    SameLengths(lead, ring, revs);
    TwoTurns(ring, revs);
    var r := if p == |ring| then 1 else 0;
    TurnedIn(|lead|, ring, r, revs, |lead| + p);
    OffsetFrom(Pulses(|lead|, |ring|, revs), |lead| + |Spin(ring, r)|, |lead| + p, |lead| + p);
  }

  /** At its mark, the sector met as number i is decoded and stored. */
  lemma SectorStored(lead: seq<bool>, ring: seq<bool>, start: nat, f: Filter, ims: seq<Image>, revs: nat, k0: nat, i: nat,
                     track: byte)
    requires Read(lead, ring, start, f, ims, revs, k0) && i < SECTORS && FirstMet(|ring|, start, k0)
    ensures ImagesOk(ims)
    ensures var c, pulse, q := Delivered(lead, ring, revs), Pulses(|lead|, |ring|, revs), |lead| + MarkEnd(|ring|, start, k0, i);
            && q + 8 * RAW_BYTES <= |c| == |pulse| && Accepts(f, WordAt(c, q))
            && AfterSync(c, pulse, q, track, f, FoundAfter(track, ims, |ring|, start, k0, i))
               == Scan(c, pulse, q + 8 * RAW_BYTES, track, f, FoundAfter(track, ims, |ring|, start, k0, i + 1))
  {
    hide *;
    ReadParts(lead, ring, start, f, ims, revs, k0);
    var c, pulse, k := Delivered(lead, ring, revs), Pulses(|lead|, |ring|, revs), Sec(k0, i);
    var q, g := |lead| + MarkEnd(|ring|, start, k0, i), FoundAfter(track, ims, |ring|, start, k0, i);
    RawLength();
    AtMark(lead, ring, start, f, ims, revs, k0, i);
    SyncOk(f, ims, k);
    var run := c[q..q + 8 * RAW_BYTES];
    var raw := PackedBytes(run, RAW_BYTES);
    RunDecodes(run, ims[k], k, raw);
    AfterSyncIs(c, pulse, q, track, f, g);
    StoreCases(g, track, ims[k].sync, raw, OffsetAt(pulse, q) - 31);
    StoredNext(track, ims, |ring|, start, k0, i);
    BadIsFree(g, k);
  }

  lemma BadIsFree(g: Found, k: nat)
    requires |g.blocks| == SECTORS && k < SECTORS && g.blocks[k] == Bad
    ensures !g.blocks[k].Good? && k < SECTORS
  {
  }

  lemma SyncOk(f: Filter, ims: seq<Image>, k: nat)
    requires TrackOk(f, ims) && k < SECTORS
    ensures ImagesOk(ims) && |ims| == SECTORS && ImageOk(ims[k]) && |ims[k].sync| == 32 && Accepts(f, ims[k].sync)
  {
    hide Accepts, Known;
    assert Accepts(f, SyncOf(ims, k));
  }

  lemma RunDecodes(run: seq<bool>, im: Image, i: nat, raw: seq<byte>)
    requires ImageOk(im) && i < SECTORS && |run| == 8 * RAW_BYTES
    requires run == Encode(im.sync[31], Body(im, i)) && raw == PackedBytes(run, RAW_BYTES)
    ensures RawHeader(raw) == Header(im, i) && RawData(raw) == im.dat && SumsMatch(raw)
  {
    hide Body, Encode, SumsMatch, RawHeader, RawData, AllOdds;
    PackedDataCells(run, raw);
    DataBitsOfEncode(im.sync[31], Body(im, i));
    SectorDecodes(im, i, raw);
  }

  lemma AfterSyncIs(cells: seq<bool>, pulse: seq<bool>, q: nat, track: byte, filter: Filter, f: Found)
    requires |pulse| == |cells| && q + 8 * RAW_BYTES <= |cells| && |f.blocks| == SECTORS
    ensures AfterSync(cells, pulse, q, track, filter, f)
         == Scan(cells, pulse, q + 8 * RAW_BYTES, track, filter,
                 Store(f, track, WordAt(cells, q), PackedBytes(cells[q..q + 8 * RAW_BYTES], RAW_BYTES),
                       OffsetAt(pulse, q) - 31))
  {
    hide Scan, Store, PackedBytes, WordAt, OffsetAt;
  }

  lemma NextMark(n: nat, start: nat, k0: nat, i: nat)
    requires FirstMet(n, start, k0) && n > 8704 * SECTORS && 0 < i < SECTORS
    ensures MarkEnd(n, start, k0, i - 1) + 8640 < MarkEnd(n, start, k0, i)
  {
  }

  /** From behind the sector met as number i - 1 the scan finds all the others. */
  lemma {:induction false} ScanFrom(lead: seq<bool>, ring: seq<bool>, start: nat, f: Filter, ims: seq<Image>, revs: nat,
                                    k0: nat, i: nat, p: nat, track: byte)
    requires Read(lead, ring, start, f, ims, revs, k0) && i <= SECTORS && FirstMet(|ring|, start, k0)
    requires p == if i == 0 then 0 else MarkEnd(|ring|, start, k0, i - 1) + 8640
    ensures ImagesOk(ims)
    ensures var c, pulse := Delivered(lead, ring, revs), Pulses(|lead|, |ring|, revs);
            && |lead| + p <= |c| == |pulse|
            && Scan(c, pulse, |lead| + p, track, f, FoundAfter(track, ims, |ring|, start, k0, i))
               == FoundAfter(track, ims, |ring|, start, k0, SECTORS)
    decreases SECTORS - i
  {
    hide *;
    ReadParts(lead, ring, start, f, ims, revs, k0);
    var c, pulse, l := Delivered(lead, ring, revs), Pulses(|lead|, |ring|, revs), |lead|;
    SameLengths(lead, ring, revs);
    RawLength();
    var g := FoundAfter(track, ims, |ring|, start, k0, i);
    if i > 0 {
      AtMark(lead, ring, start, f, ims, revs, k0, i - 1);
    }
    ScanStep(c, pulse, l + p, track, f, g);
    if i < SECTORS {
      var e := MarkEnd(|ring|, start, k0, i);
      AtMark(lead, ring, start, f, ims, revs, k0, i);
      if i > 0 {
        NextMark(|ring|, start, k0, i);
      }
      forall r | l + p < r <= l + e - 1 ensures r <= |c| && !Accepts(f, WordAt(c, r)) {
        QuietBefore(lead, ring, start, f, ims, revs, k0, i, r - l);
      }
      SkipQuiet(c, pulse, l + p, l + e - 1, track, f, g);
      ScanStep(c, pulse, l + e - 1, track, f, g);
      SectorStored(lead, ring, start, f, ims, revs, k0, i, track);
      ScanFrom(lead, ring, start, f, ims, revs, k0, i + 1, e + 8640, track);
    }
  }

  /** Some sector has a header or a sync that a standard track cannot express. */
  ghost predicate NeedsExtended(track: byte, ims: seq<Image>)
    requires ImagesOk(ims)
  {
    exists k | 0 <= k < SECTORS :: HeaderIsExtended(track, ims[k], k)
  }

  lemma {:induction false} ExtendedAmong(track: byte, ims: seq<Image>, k0: nat, i: nat)
    requires k0 <= SECTORS && i <= SECTORS && ImagesOk(ims)
    ensures AnyExtended(track, ims, k0, i)
         <==> exists k | 0 <= k < SECTORS && Rank(k0, k) < i :: HeaderIsExtended(track, ims[k], k)
  {
    hide HeaderIsExtended;
    if i > 0 {
      ExtendedAmong(track, ims, k0, i - 1);
      var k := Sec(k0, i - 1);
      assert Rank(k0, k) == i - 1;
    }
  }

  lemma AllMet(track: byte, ims: seq<Image>, n: nat, start: nat, k0: nat)
    requires k0 <= SECTORS && ImagesOk(ims)
    ensures FoundAfter(track, ims, n, start, k0, 0) == NothingFound()
    ensures var g := FoundAfter(track, ims, n, start, k0, SECTORS);
            && (forall k | 0 <= k < SECTORS :: g.blocks[k] == Good(ims[k].sync, Header(ims[k], k), ims[k].dat))
            && g.valid == SECTORS == g.least && g.bitoff == OffsetOf(n, start, 0) - 31
            && (g.extended <==> NeedsExtended(track, ims))
  {
    hide HeaderIsExtended, Header, OffsetOf;
    assert FoundAfter(track, ims, n, start, k0, 0).blocks == NothingFound().blocks;
    ExtendedAmong(track, ims, k0, SECTORS);
  }

  /** The round trip.  A finished track of any length, its data starting anywhere on
      the ring, read from a reset on for two revolutions or more by a track type that
      accepts its sync marks: all eleven sectors come back with sync, header and data,
      also if they run over the index; extended contents are reported exactly if there
      are some; and the data start reported is one cell more than the distance of the
      first sector from the last index pulse before the end of its mark. */
  lemma RoundTrip(lead: seq<bool>, ring: seq<bool>, start: nat, f: Filter, ims: seq<Image>, revs: nat, track: byte)
    requires LeadsIn(lead, ring) && Written(ring, start, f, ims) && revs >= 2
    ensures ImagesOk(ims)
    ensures var c, pulse := Delivered(lead, ring, revs), Pulses(|lead|, |ring|, revs);
            && |c| == |pulse|
            && var g := Scan(c, pulse, IndexFrom(pulse, 0), track, f, NothingFound());
               && g.valid == SECTORS
               && (forall k | 0 <= k < SECTORS :: g.blocks[k] == Good(ims[k].sync, Header(ims[k], k), ims[k].dat))
               && g.bitoff - (11 - g.least) * 8704 - 32
                  == start + 1 - (if start + 64 >= |ring| then |ring| else 0)
               && (g.extended <==> NeedsExtended(track, ims))
  {
    hide *;
    WrittenBounds(ring, start, f, ims);
    var k0 := FindFirst(|ring|, start);
    ReadIs(lead, ring, start, f, ims, revs, k0);
    ReadParts(lead, ring, start, f, ims, revs, k0);
    SameLengths(lead, ring, revs);
    FirstIndex(|lead|, |ring|, revs);
    AllMet(track, ims, |ring|, start, k0);
    ScanFrom(lead, ring, start, f, ims, revs, k0, 0, 0, track);
    FirstOffset(|ring|, start);
  }

  lemma ReadIs(lead: seq<bool>, ring: seq<bool>, start: nat, f: Filter, ims: seq<Image>, revs: nat, k0: nat)
    requires LeadsIn(lead, ring) && Written(ring, start, f, ims) && revs >= 2 && FirstMet(|ring|, start, k0)
    ensures Read(lead, ring, start, f, ims, revs, k0)
  {
    hide Written, LeadsIn, FirstMet;
  }

  lemma FirstOffset(n: nat, start: nat)
    ensures OffsetOf(n, start, 0) - 31 - 32 == start + 1 - (if start + 64 >= n then n else 0)
  {
  }

  /** A standard track is not reported as extended. */
  lemma StandardIsNotExtended(track: byte, ims: seq<Image>)
    requires ImagesOk(ims)
    requires forall i | 0 <= i < SECTORS :: ims[i] == StdImage(track, ims[i].dat)
    ensures !NeedsExtended(track, ims)
  {
    hide Header;
    forall k | 0 <= k < SECTORS ensures !HeaderIsExtended(track, ims[k], k) {
      StandardHeader(track, ims[k], k);
    }
  }

  lemma StandardHeader(track: byte, im: Image, k: nat)
    requires ImageOk(im) && k < SECTORS && im == StdImage(track, im.dat)
    ensures !HeaderIsExtended(track, im, k)
  {
  }

  // ----- writing the track

  /** track_read_raw for an AmigaDOS track: the encoder, then tbuf_finalise. */
  method TrackReadRaw(f: Filter, ims: seq<Image>, dataBitoff: nat, totalBits: nat) returns (tbuf: Tbuf)
    requires TrackOk(f, ims) && dataBitoff < totalBits && 8704 * SECTORS < totalBits
    ensures tbuf.Shaped() && tbuf.bitlen == totalBits
    ensures Written(tbuf.Ring(), dataBitoff, f, ims)
  {
    hide *;
    OkParts(f, ims);
    tbuf := new Tbuf(dataBitoff, totalBits);
    AdosReadRaw(tbuf, ims);
    ghost var log := TrackCells(false, ims, SECTORS);
    assert tbuf.log == log;
    tbuf.StartPosition();
    ghost var pos, prev := tbuf.pos, tbuf.prev;
    tbuf.Finalise();
    FinishedRing(totalBits, dataBitoff, log, pos, tbuf.Ring(), prev);
    WrittenIs(tbuf.Ring(), dataBitoff, f, ims);
  }

  lemma WrittenIs(ring: seq<bool>, start: nat, f: Filter, ims: seq<Image>)
    requires TrackOk(f, ims) && start < |ring| && 8704 * SECTORS < |ring|
    requires forall j | 0 <= j < |ring| ::
               ring[j] == (TrackCells(false, ims, SECTORS)
                           + GapCells(PrevBit(false, ims, SECTORS), |ring| - |TrackCells(false, ims, SECTORS)|))
                          [Ahead(start, j, |ring|)]
    ensures Written(ring, start, f, ims)
  {
    hide TrackCells, GapCells, PrevBit, ImageOk, Accepts, Known;
  }
}
