/** A whole track of an SCP image: bit cells become flux intervals, and no time is
    lost between them. */
module ScpTrack {
  import opened ScpSamples
  import opened Speed

  const NS_PER_TICK: nat := 25

  /** One bit cell: whether it is weak, how long it lasts, whether the flux turns. */
  datatype Cell = Cell(weak: bool, ns: nat, flux: bool)

  datatype Raw = Raw(bits: seq<bool>, speed: seq<nat>, splice: nat, dataStart: nat)

  predicate RawOk(t: Raw)
  {
    0 < |t.bits| == |t.speed| && t.splice < |t.bits|
  }

  /** Where the image starts: at the write splice, unless that lies behind the
      start of the data. */
  function FirstBit(t: Raw): nat
  {
    if t.splice > t.dataStart then 0 else t.splice
  }

  function CellAt(t: Raw, av: nat, bit: nat): Cell
    requires RawOk(t) && bit < |t.bits|
  {
    if t.speed[bit] == SPEED_WEAK then Cell(true, av, false) else Cell(false, av * t.speed[bit] / SPEED_AVG, t.bits[bit])
  }

  function Around(t: Raw, k: nat): (bit: nat)
    requires RawOk(t) && k < 2 * |t.bits|
    ensures bit < |t.bits|
  {
    if k < |t.bits| then k else k - |t.bits|
  }

  /** The n cells from bit on, around the ring. */
  function Cells(t: Raw, av: nat, bit: nat, n: nat): (cs: seq<Cell>)
    requires RawOk(t) && bit < |t.bits| && n <= |t.bits|
    ensures |cs| == n
  {
    if n == 0 then [] else Cells(t, av, bit, n - 1) + [CellAt(t, av, Around(t, bit + n - 1))]
  }

  lemma {:induction false} CellsAt(t: Raw, av: nat, bit: nat, n: nat, k: nat)
    requires RawOk(t) && bit < |t.bits| && k < n <= |t.bits|
    ensures Cells(t, av, bit, n)[k] == CellAt(t, av, Around(t, bit + k))
  {
    if k < n - 1 {
      CellsAt(t, av, bit, n - 1, k);
    }
  }

  /** The cell that lies k cells behind the start of the data, round the ring. */
  function FromData(t: Raw, k: nat): (bit: nat)
    requires RawOk(t) && t.dataStart < |t.bits| && k < |t.bits|
    ensures bit < |t.bits|
  {
    (t.dataStart + k) % |t.bits|
  }

  /** How many cells there are from the start of the data round to the write splice. */
  function DataLength(t: Raw): (n: nat)
    requires RawOk(t) && t.dataStart < |t.bits|
    ensures 0 < n <= |t.bits|
  {
    if t.splice <= t.dataStart then t.splice + |t.bits| - t.dataStart else t.splice - t.dataStart
  }

  /** The image is cut in the gap: from the start of the data up to the write splice its
      cells lie side by side, in the order of the ring.  It begins with the splice
      itself, if that is not behind the start of the data, and with the index otherwise. */
  lemma CutInTheGap(t: Raw, av: nat, k: nat)
    requires RawOk(t) && t.dataStart < |t.bits| && k < DataLength(t)
    ensures var image := Cells(t, av, FirstBit(t), |t.bits|);
            var start := t.dataStart - FirstBit(t);
            && 0 <= start && start + k < |image| && image[start + k] == CellAt(t, av, FromData(t, k))
            && image[0] == CellAt(t, av, if t.splice <= t.dataStart then t.splice else 0)
  {
    hide Cells, CellAt;
    var first, n := FirstBit(t), |t.bits|;
    CellsAt(t, av, first, n, t.dataStart - first + k);
    CellsAt(t, av, first, n, 0);
    Wrapped(t.dataStart + k, n);
  }

  lemma Wrapped(a: nat, n: nat)
    requires 0 < n && a < 2 * n
    ensures a % n == if a < n then a else a - n
  {
  }

  /** The samples so far, the nanoseconds since the last of them, and whether a weak
      cell has been met since the last flux. */
  datatype Reading = Reading(samples: seq<sample>, ns: nat, weak: bool)

  function Feed(r: Reading, c: Cell): Reading
  {
    var ns := r.ns + c.ns;
    if c.weak then Reading(r.samples, ns, true)
    else if c.flux then Reading(r.samples + Emitted(ns / NS_PER_TICK, r.weak), ns % NS_PER_TICK, false)
    else Reading(r.samples, ns, r.weak)
  }

  function FeedAll(cs: seq<Cell>, weak: bool): Reading
  {
    if cs == [] then Reading([], 0, weak) else Feed(FeedAll(cs[..|cs| - 1], weak), cs[|cs| - 1])
  }

  function TotalNs(cs: seq<Cell>): nat
  {
    if cs == [] then 0 else TotalNs(cs[..|cs| - 1]) + cs[|cs| - 1].ns
  }

  /** The time of the first n cells of the ring, by their speeds in thousandths of the
      average; a weak cell lasts as long as an average one. */
  function RingNs(t: Raw, av: nat, n: nat): nat
    requires RawOk(t) && n <= |t.speed|
  {
    if n == 0 then 0
    else RingNs(t, av, n - 1) + (if t.speed[n - 1] == 0xfffe then av else av * t.speed[n - 1] / 1000)
  }

  lemma {:induction false} PartOfRing(t: Raw, av: nat, bit: nat, n: nat)
    requires RawOk(t) && bit < |t.bits| && n <= |t.bits|
    ensures var cells := |t.bits|;
            TotalNs(Cells(t, av, bit, n)) + RingNs(t, av, bit)
            == if bit + n <= cells then RingNs(t, av, bit + n) else RingNs(t, av, cells) + RingNs(t, av, bit + n - cells)
  {
    hide RingNs;
    NothingYet(t, av);
    if n > 0 {
      PartOfRing(t, av, bit, n - 1);
      OneCellOn(t, av, Around(t, bit + n - 1));
      assert Cells(t, av, bit, n)[..n - 1] == Cells(t, av, bit, n - 1);
    }
  }

  lemma NothingYet(t: Raw, av: nat)
    requires RawOk(t)
    ensures RingNs(t, av, 0) == 0
  {
  }

  lemma OneCellOn(t: Raw, av: nat, bit: nat)
    requires RawOk(t) && bit < |t.bits|
    ensures RingNs(t, av, bit + 1) == RingNs(t, av, bit) + CellAt(t, av, bit).ns
  {
  }

  /** Wherever the image is cut, it lasts as long as the whole ring. */
  lemma WholeRing(t: Raw, av: nat)
    requires RawOk(t)
    ensures TotalNs(Cells(t, av, FirstBit(t), |t.bits|)) == RingNs(t, av, |t.bits|)
  {
    PartOfRing(t, av, FirstBit(t), |t.bits|);
  }

  /** Exactly the cells with the weak speed are weak, and only the others show their
      bit as a flux. */
  lemma WeakCells(t: Raw, av: nat, bit: nat)
    requires RawOk(t) && bit < |t.bits|
    ensures CellAt(t, av, bit).weak <==> t.speed[bit] == 0xfffe
    ensures CellAt(t, av, bit).flux <==> t.speed[bit] != 0xfffe && t.bits[bit]
  {
  }

  /** A flux that is written. */
  predicate Turns(c: Cell)
  {
    !c.weak && c.flux
  }

  /** Cell i is weak and no flux has been written since. */
  ghost predicate WeakSince(cs: seq<Cell>, i: nat)
  {
    i < |cs| && cs[i].weak && forall j | i < j < |cs| :: !Turns(cs[j])
  }

  /** The next interval counts as weak exactly if a weak cell has been met since the last
      flux; on a track without flux so far, also if the track before ended that way. */
  lemma {:induction false} WeakIffMet(cs: seq<Cell>, weak: bool)
    ensures FeedAll(cs, weak).weak <==>
              (exists i: nat :: WeakSince(cs, i)) || (weak && forall j | 0 <= j < |cs| :: !Turns(cs[j]))
  {
    hide Emitted;
    if cs != [] {
      var n := |cs| - 1;
      var front, c := cs[..n], cs[n];
      WeakIffMet(front, weak);
      forall i: nat | WeakSince(front, i) && !Turns(c) ensures WeakSince(cs, i) {
        assert forall j | i < j < n :: cs[j] == front[j];
      }
      forall i: nat | WeakSince(cs, i) && i < n ensures WeakSince(front, i) {
        assert forall j | i < j < n :: cs[j] == front[j];
      }
      if c.weak {
        assert WeakSince(cs, n);
      }
      assert forall j | 0 <= j < n :: cs[j] == front[j];
    }
  }

  /** The extra ticks of the intervals written so far. */
  function Extras(cs: seq<Cell>, weak: bool): nat
  {
    if cs == [] then 0
    else
      var r, c := FeedAll(cs[..|cs| - 1], weak), cs[|cs| - 1];
      Extras(cs[..|cs| - 1], weak) + (if !c.weak && c.flux then ExtraTick((r.ns + c.ns) / NS_PER_TICK, r.weak) else 0)
  }

  /** No drift: up to any cell the samples and the time since the last of them are
      exactly the time of the cells and the extra ticks. */
  lemma {:induction false} NoDrift(cs: seq<Cell>, weak: bool)
    ensures var r := FeedAll(cs, weak);
            NS_PER_TICK * Duration(r.samples) + r.ns == TotalNs(cs) + NS_PER_TICK * Extras(cs, weak)
  {
    hide Duration, Emitted, ExtraTick;
    Nothing();
    if cs != [] {
      var front, c := cs[..|cs| - 1], cs[|cs| - 1];
      NoDrift(front, weak);
      var r := FeedAll(front, weak);
      var cell := (r.ns + c.ns) / NS_PER_TICK;
      EmittedTime(cell, r.weak);
      DurationAppend(r.samples, Emitted(cell, r.weak));
    }
  }

  /** Every flux is placed to within the tick: right after it the samples last as long
      as the cells, rounded down to ticks, plus the extra ticks. */
  lemma FluxTimes(cs: seq<Cell>, c: Cell, weak: bool)
    requires !c.weak && c.flux
    ensures Duration(FeedAll(cs + [c], weak).samples) == TotalNs(cs + [c]) / NS_PER_TICK + Extras(cs + [c], weak)
  {
    hide Duration, Extras, TotalNs, Emitted;
    NoDrift(cs + [c], weak);
    assert (cs + [c])[..|cs|] == cs;
    assert FeedAll(cs + [c], weak).ns < NS_PER_TICK;
  }

  // ----- what is left at the end of the revolution

  /** The remainder joins the first sample if that is not an overflow and stays one
      sample; first is what lies in the first place of the buffer. */
  predicate Joins(first: sample, cell: nat)
  {
    first != 0 && cell < SHORT_WEAK_THRESH && first + cell < 0x1_0000
  }

  /** Less than 100us are merged if the sample has room; a longer rest never is. */
  lemma RestMerged(first: sample, cell: nat)
    ensures Joins(first, cell) <==> first != 0 && cell * 25 < 100_000 && first + cell <= 0xffff
  {
  }

  function Finish(r: Reading, stale: sample): Reading
  {
    var cell := r.ns / NS_PER_TICK;
    var first := if r.samples == [] then stale else r.samples[0];
    if Joins(first, cell) then
      if r.samples == [] then r else r.(samples := r.samples[0 := first + cell])
    else if cell > 0 then Reading(r.samples + Emitted(cell, r.weak), r.ns % NS_PER_TICK, false)
    else r
  }

  function LastExtra(r: Reading, stale: sample): nat
  {
    var cell := r.ns / NS_PER_TICK;
    if Joins(if r.samples == [] then stale else r.samples[0], cell) || cell == 0 then 0 else ExtraTick(cell, r.weak)
  }

  lemma DurationUpdate(s: seq<sample>, n: sample)
    requires s != [] && s[0] != 0 && n >= s[0]
    ensures Duration(s[0 := n]) == Duration(s) + (n - s[0])
  {
    Two(s[0], n);
    Two(n, n);
    DurationAppend([s[0]], s[1..]);
    DurationAppend([n], s[1..]);
    assert [s[0]] + s[1..] == s && [n] + s[1..] == s[0 := n];
  }

  ghost predicate HasFlux(cs: seq<Cell>)
  {
    exists i | 0 <= i < |cs| :: !cs[i].weak && cs[i].flux
  }

  /** Samples are written exactly if some cell that is not weak holds a flux; until
      then all time is still owed. */
  lemma {:induction false} SamplesIffFlux(cs: seq<Cell>, weak: bool)
    ensures FeedAll(cs, weak).samples != [] <==> HasFlux(cs)
    ensures !HasFlux(cs) ==> FeedAll(cs, weak).ns == TotalNs(cs)
  {
    hide Feed, HasFlux;
    if cs == [] {
      NoFlux();
    } else {
      var front, c := cs[..|cs| - 1], cs[|cs| - 1];
      SamplesIffFlux(front, weak);
      FluxInFront(cs);
      OneCell(FeedAll(front, weak), c);
    }
  }

  lemma NoFlux()
    ensures !HasFlux([])
  {
  }

  lemma OneCell(r: Reading, c: Cell)
    ensures Feed(r, c).samples != [] <==> r.samples != [] || (!c.weak && c.flux)
    ensures Feed(r, c).samples == [] ==> Feed(r, c).ns == r.ns + c.ns
  {
    hide Emitted;
    EmittedTime((r.ns + c.ns) / NS_PER_TICK, r.weak);
  }

  lemma FluxInFront(cs: seq<Cell>)
    requires cs != []
    ensures HasFlux(cs) <==> HasFlux(cs[..|cs| - 1]) || (!cs[|cs| - 1].weak && cs[|cs| - 1].flux)
  {
    var front := cs[..|cs| - 1];
    if HasFlux(front) {
      var i :| 0 <= i < |front| && !front[i].weak && front[i].flux;
      assert !cs[i].weak && cs[i].flux;
    }
    if HasFlux(cs) {
      var i :| 0 <= i < |cs| && !cs[i].weak && cs[i].flux;
      assert i < |front| ==> !front[i].weak && front[i].flux;
    }
  }

  /** The whole track: the stored time is the time of all cells in whole ticks, plus
      the extra ticks, exactly unless the track has no flux, lasts at least one tick
      and is short enough to be merged into a sample that an earlier track left in
      the buffer. */
  lemma TrackDuration(cs: seq<Cell>, weak: bool, stale: sample)
    ensures var r := FeedAll(cs, weak);
            Duration(Finish(r, stale).samples) == TotalNs(cs) / NS_PER_TICK + Extras(cs, weak) + LastExtra(r, stale)
            <==> HasFlux(cs) || TotalNs(cs) / NS_PER_TICK == 0 || !Joins(stale, TotalNs(cs) / NS_PER_TICK)
  {
    hide HasFlux, TotalNs, FeedAll, Extras, Duration, Joins, Finish, LastExtra;
    SamplesIffFlux(cs, weak);
    DurationOf(cs, weak, stale);
  }

  lemma DurationOf(cs: seq<Cell>, weak: bool, stale: sample)
    ensures var r := FeedAll(cs, weak);
            var cell := r.ns / NS_PER_TICK;
            Duration(Finish(r, stale).samples) == TotalNs(cs) / NS_PER_TICK + Extras(cs, weak) + LastExtra(r, stale)
            <==> r.samples != [] || cell == 0 || !Joins(stale, cell)
  {
    hide Duration, Extras, TotalNs, Emitted, FeedAll, ExtraTick;
    NoDrift(cs, weak);
    var r := FeedAll(cs, weak);
    var cell := r.ns / NS_PER_TICK;
    EmittedTime(cell, r.weak);
    DurationAppend(r.samples, Emitted(cell, r.weak));
    if r.samples != [] && Joins(r.samples[0], cell) {
      DurationUpdate(r.samples, r.samples[0] + cell);
    }
  }

  /** One cell of 100ns without flux, and 5 in the first place of the buffer from an
      earlier track: four ticks are owed and none are stored. */
  lemma TimeLostWithoutFlux()
    ensures var cs := [Cell(false, 100, false)];
            && !HasFlux(cs) && TotalNs(cs) / NS_PER_TICK == 4 && Joins(5, 4)
            && Finish(FeedAll(cs, false), 5) == Reading([], 100, false)
  {
    var cs := [Cell(false, 100, false)];
    assert cs[..0] == [];
    assert FeedAll([], false) == Reading([], 0, false) && TotalNs([]) == 0;
  }

  // ----- the loop

  lemma CellsMore(t: Raw, av: nat, bit: nat, n: nat)
    requires RawOk(t) && bit < |t.bits| && n < |t.bits|
    ensures Cells(t, av, bit, n + 1)[..n] == Cells(t, av, bit, n)
    ensures Cells(t, av, bit, n + 1)[n] == CellAt(t, av, Around(t, bit + n))
  {
  }

  lemma FeedMore(t: Raw, av: nat, bit: nat, n: nat, weak: bool)
    requires RawOk(t) && bit < |t.bits| && n < |t.bits|
    ensures FeedAll(Cells(t, av, bit, n + 1), weak)
         == Feed(FeedAll(Cells(t, av, bit, n), weak), CellAt(t, av, Around(t, bit + n)))
  {
    hide Feed, Cells;
    CellsMore(t, av, bit, n);
  }

  lemma {:induction false} FeedGrows(t: Raw, av: nat, bit: nat, n: nat, m: nat, weak: bool)
    requires RawOk(t) && bit < |t.bits| && n <= m <= |t.bits|
    ensures |FeedAll(Cells(t, av, bit, n), weak).samples| <= |FeedAll(Cells(t, av, bit, m), weak).samples|
    decreases m
  {
    hide Cells, Emitted, FeedAll;
    if n < m {
      FeedMore(t, av, bit, m - 1, weak);
      FeedGrows(t, av, bit, n, m - 1, weak);
    }
  }

  /** The loop over the cells of a track. */
  method SampleCells(dat: array<sample>, t: Raw, av: nat, before: bool) returns (j: nat, cell: nat, weak: bool)
    requires RawOk(t) && dat.Length > 0
    requires |FeedAll(Cells(t, av, FirstBit(t), |t.bits|), before).samples| <= dat.Length
    modifies dat
    ensures var r := FeedAll(Cells(t, av, FirstBit(t), |t.bits|), before);
            j == |r.samples| <= dat.Length && dat[..j] == r.samples && cell == r.ns && weak == r.weak
    ensures j == 0 ==> dat[0] == old(dat[0])
  {
    hide Emitted, FeedAll, Cells;
    ghost var first := FirstBit(t);
    ghost var r := FeedAll(Cells(t, av, first, 0), before);
    FedNone(t, av, first, before);
    var bit := if t.splice > t.dataStart then 0 else t.splice;
    j, cell, weak := 0, 0, before;
    for i := 0 to |t.bits|
      invariant bit == if first + i < |t.bits| then first + i else first + i - |t.bits|
      invariant r == FeedAll(Cells(t, av, first, i), before)
      invariant j == |r.samples| <= dat.Length && dat[..j] == r.samples && cell == r.ns && weak == r.weak
      invariant j == 0 ==> dat[0] == old(dat[0])
    {
      FeedMore(t, av, first, i, before);
      FeedGrows(t, av, first, i + 1, |t.bits|, before);
      r := FeedAll(Cells(t, av, first, i + 1), before);
      if t.speed[bit] == SPEED_WEAK {
        cell := cell + av;
        weak := true;
      } else {
        cell := cell + av * t.speed[bit] / SPEED_AVG;
        if t.bits[bit] {
          EmittedTime(cell / NS_PER_TICK, weak);
          j := Emit(dat, j, cell / NS_PER_TICK, weak);
          cell := cell % NS_PER_TICK;
          weak := false;
        }
      }
      bit := bit + 1;
      if bit >= |t.bits| {
        bit := 0;
      }
    }
  }

  /** The part of scp_close that samples one track; it starts with the weak flag the
      last track left behind and hands on its own. */
  method SampleTrack(dat: array<sample>, t: Raw, av: nat, before: bool) returns (j: nat, duration: nat, weak: bool)
    requires RawOk(t) && dat.Length > 0
    requires var r := FeedAll(Cells(t, av, FirstBit(t), |t.bits|), before);
             && |r.samples| <= dat.Length && |Finish(r, dat[0]).samples| <= dat.Length
    modifies dat
    ensures var r := Finish(FeedAll(Cells(t, av, FirstBit(t), |t.bits|), before), old(dat[0]));
            && j == |r.samples| && dat[..j] == r.samples && weak == r.weak && duration == Duration(r.samples)
  {
    hide Emitted, FeedAll, Cells, Duration;
    var cell;
    j, cell, weak := SampleCells(dat, t, av, before);
    cell := cell / NS_PER_TICK;
    if dat[0] != 0 && cell < SHORT_WEAK_THRESH && dat[0] + cell < 0x1_0000 {
      dat[0] := dat[0] + cell;
    } else if cell != 0 {
      j := Emit(dat, j, cell, weak);
      weak := false;
    }
    duration := CountTicks(dat, j);
  }

  lemma FedNone(t: Raw, av: nat, first: nat, weak: bool)
    requires RawOk(t) && first < |t.bits|
    ensures FeedAll(Cells(t, av, first, 0), weak) == Reading([], 0, weak)
  {
  }

  method CountTicks(dat: array<sample>, j: nat) returns (duration: nat)
    requires j <= dat.Length
    ensures duration == Duration(dat[..j])
  {
    duration := 0;
    for i := 0 to j
      invariant duration == Duration(dat[..i])
    {
      assert dat[..i + 1][..i] == dat[..i];
      duration := duration + (if dat[i] == 0 then 0x1_0000 else dat[i]);
    }
  }
}
