/** The software PLL that turns flux intervals into bit cells. */
module Pll {
  import opened Bits
  import opened TrackBuffer

  const CLOCK_MAX_ADJ: nat := 10

  datatype Params = Params(centre: nat, periodPct: int, phasePct: int)

  /** The fields of struct stream that the PLL works on. */
  datatype State = State(flux: int, clock: int, latency: int, zeros: nat)

  function ClockMin(centre: nat): int { centre * (100 - CLOCK_MAX_ADJ) / 100 }
  function ClockMax(centre: nat): int { centre * (100 + CLOCK_MAX_ADJ) / 100 }

  function Clamp(lo: int, hi: int, x: int): int
  {
    var m := if hi < x then hi else x;
    if lo > m then lo else m
  }

  /** Enough flux is at hand for the next window. */
  predicate Loaded(s: State)
  {
    s.flux >= TruncDiv(s.clock, 2)
  }

  /** Where flux_next_bit leaves the clock after a flux reversal. */
  function Adjusted(p: Params, s: State, flux: int): int
  {
    var adj := if s.zeros <= 3 then TruncDiv(flux * p.periodPct, 100)
               else TruncDiv((p.centre - s.clock) * p.periodPct, 100);
    Clamp(ClockMin(p.centre), ClockMax(p.centre), s.clock + adj)
  }

  /** One window: the bit, and what is left. */
  function Window(p: Params, s: State): (State, bool)
  {
    var flux := s.flux - s.clock;
    if flux >= TruncDiv(s.clock, 2) then
      (State(flux, s.clock, s.latency + s.clock, s.zeros + 1), false)
    else
      var rest := TruncDiv(flux * (100 - p.phasePct), 100);
      (State(rest, Adjusted(p, s, flux), s.latency + s.clock + (flux - rest), 0), true)
  }

  /** flux_next_bit on the intervals fs: the state, the intervals that remain, and
      the bit if there is one. */
  datatype Step = End(s: State) | Bit(s: State, fs: seq<int>, bit: bool)

  function NextBit(p: Params, s: State, fs: seq<int>): (r: Step)
    decreases |fs|
  {
    if Loaded(s) then
      var (t, b) := Window(p, s);
      Bit(t, fs, b)
    else if fs == [] then End(s)
    else NextBit(p, s.(flux := s.flux + fs[0]), fs[1..])
  }

  function Sum(fs: seq<int>): int
  {
    if fs == [] then 0 else fs[0] + Sum(fs[1..])
  }

  /** Time is conserved: whatever the parameters and the intervals, latency and
      flux together grow by exactly the flux that is used up. */
  lemma {:induction false} TimeConserved(p: Params, s: State, fs: seq<int>)
    ensures var r := NextBit(p, s, fs);
            r.s.latency + r.s.flux + (if r.Bit? then Sum(r.fs) else 0) == s.latency + s.flux + Sum(fs)
    decreases |fs|
  {
    if !Loaded(s) && fs != [] {
      TimeConserved(p, s.(flux := s.flux + fs[0]), fs[1..]);
    }
  }

  class Decoder {
    const params: Params
    const fluxes: seq<int>
    var next: nat
    var flux: int
    var clock: int
    var latency: int
    var zeros: nat

    ghost predicate Valid()
      reads this
    {
      next <= |fluxes|
    }

    function View(): State
      reads this
    {
      State(flux, clock, latency, zeros)
    }

    constructor (params: Params, fluxes: seq<int>)
      ensures Valid() && this.params == params && this.fluxes == fluxes && next == 0
      ensures View() == State(0, params.centre, 0, 0)
    {
      this.params := params;
      this.fluxes := fluxes;
      next, flux, clock, latency, zeros := 0, 0, params.centre, 0, 0;
    }

    /** flux_next_bit; more is false when the source has run dry. */
    method FluxNextBit() returns (more: bool, bit: bool)
      requires Valid()
      modifies this
      ensures Valid()
      ensures var r := NextBit(params, old(View()), fluxes[old(next)..]);
              && View() == r.s && more == r.Bit?
              && (more ==> bit == r.bit && fluxes[next..] == r.fs)
              && (!more ==> next == |fluxes|)
    {
      hide Window, TruncDiv;
      ghost var r := NextBit(params, View(), fluxes[next..]);
      while flux < TruncDiv(clock, 2)
        invariant Valid()
        invariant NextBit(params, View(), fluxes[next..]) == r
        decreases |fluxes| - next
      {
        if next == |fluxes| {
          return false, false;
        }
        assert fluxes[next..][1..] == fluxes[next + 1..];
        flux := flux + fluxes[next];
        next := next + 1;
      }
      bit := CloseWindow();
      more := true;
    }

    /** The part of flux_next_bit behind the loop. */
    method CloseWindow() returns (bit: bool)
      modifies this`flux, this`clock, this`latency, this`zeros
      ensures (View(), bit) == Window(params, old(View()))
    {
      hide TruncDiv, Clamp;
      latency := latency + clock;
      flux := flux - clock;
      if flux >= TruncDiv(clock, 2) {
        zeros := zeros + 1;
        return false;
      }
      if zeros <= 3 {
        clock := clock + TruncDiv(flux * params.periodPct, 100);
      } else {
        clock := clock + TruncDiv((params.centre - clock) * params.periodPct, 100);
      }
      clock := Clamp(ClockMin(params.centre), ClockMax(params.centre), clock);
      var rest := TruncDiv(flux * (100 - params.phasePct), 100);
      latency := latency + flux - rest;
      flux := rest;
      zeros := 0;
      return true;
    }
  }

  // ----- whole runs

  datatype Result = Result(s: State, fs: seq<int>, bits: seq<bool>)

  /** Up to k bits. */
  function Run(p: Params, s: State, fs: seq<int>, k: nat): Result
    decreases k
  {
    if k == 0 then Result(s, fs, [])
    else
      var n := NextBit(p, s, fs);
      if n.End? then Result(n.s, [], [])
      else
        var r := Run(p, n.s, n.fs, k - 1);
        Result(r.s, r.fs, [n.bit] + r.bits)
  }

  lemma {:induction false} RunConserves(p: Params, s: State, fs: seq<int>, k: nat)
    ensures var r := Run(p, s, fs, k);
            r.s.latency + r.s.flux + Sum(r.fs) == s.latency + s.flux + Sum(fs)
    decreases k
  {
    if k > 0 {
      TimeConserved(p, s, fs);
      var n := NextBit(p, s, fs);
      if n.Bit? {
        RunConserves(p, n.s, n.fs, k - 1);
      }
    }
  }

  lemma {:induction false} RunSplit(p: Params, s: State, fs: seq<int>, j: nat, k: nat)
    requires |Run(p, s, fs, j).bits| == j
    ensures var a := Run(p, s, fs, j);
            var b := Run(p, a.s, a.fs, k);
            Run(p, s, fs, j + k) == Result(b.s, b.fs, a.bits + b.bits)
    decreases j
  {
    if j > 0 {
      var n := NextBit(p, s, fs);
      RunSplit(p, n.s, n.fs, j - 1, k);
    }
  }

  // ----- staying locked

  /** No adjustment of the period, 60% of the phase. */
  function Fixed(c: nat): Params
  {
    Params(c, 0, 60)
  }

  function Abs(x: int): nat
  {
    if x < 0 then -x else x
  }

  /** A reversal has just been seen, at most a sixth of a cell off its place. */
  predicate Locked(c: nat, s: State)
  {
    s.clock == c && 6 * Abs(s.flux) <= c
  }

  /** The most by which a reversal may be off when its window comes. */
  function Slack(c: nat): nat
  {
    c / 6 + c / 4
  }

  /** The next reversal is m windows away, give or take the slack. */
  predicate Approaching(c: nat, s: State, m: nat)
  {
    s.clock == c && Abs(s.flux - m * c) <= Slack(c)
  }

  /** An interval of n cells that are at most a sixteenth off. */
  predicate Near(c: nat, n: nat, f: int)
  {
    16 * Abs(f - n * c) <= n * c
  }

  /** The slack never reaches half a window. */
  lemma SlackIsSmall(c: nat)
    requires c >= 2
    ensures Slack(c) < c / 2
  {
  }

  lemma ClockFixed(c: nat, s: State)
    requires s.clock == c
    ensures Window(Fixed(c), s).0.clock == c
  {
    ClockKept(c);
    assert (s.flux - s.clock) * 0 == 0 && (c - s.clock) * 0 == 0;
  }

  lemma ClockKept(c: nat)
    ensures Clamp(ClockMin(c), ClockMax(c), c) == c
  {
  }

  /** One more window brings the reversal one window closer; in the last window
      it is seen, and the phase is pulled in. */
  lemma OneWindow(c: nat, s: State, m: nat)
    requires c >= 2 && 1 <= m && Approaching(c, s, m)
    ensures Loaded(s)
    ensures var (t, b) := Window(Fixed(c), s);
            && b == (m == 1)
            && (m > 1 ==> Approaching(c, t, m - 1))
            && (m == 1 ==> Locked(c, t) && Abs(s.flux - c) < c / 2)
  {
    hide Window, Clamp;
    SlackIsSmall(c);
    ClockFixed(c, s);
    WindowIs(c, s);
    StillToGo(c, s.flux, m);
    if m == 1 {
      PulledIn(c, s.flux - c);
    }
  }

  lemma WindowIs(c: nat, s: State)
    requires s.clock == c
    ensures var (t, b) := Window(Fixed(c), s);
            && b == (s.flux - c < TruncDiv(c, 2))
            && t.flux == if b then TruncDiv((s.flux - c) * 40, 100) else s.flux - c
  {
  }

  lemma StillToGo(c: nat, flux: int, m: nat)
    requires c >= 2 && 1 <= m && Abs(flux - m * c) <= Slack(c)
    ensures flux >= c / 2
    ensures m > 1 ==> flux - c >= c / 2 && Abs(flux - c - (m - 1) * c) <= Slack(c)
    ensures m == 1 ==> Abs(flux - c) <= Slack(c) < c / 2
  {
    OneCellLess(m, c);
    if m > 1 {
      OneCellLess(m - 1, c);
    }
    Margins(c, flux, (m - 1) * c);
  }

  lemma OneCellLess(m: nat, c: nat)
    requires m >= 1
    ensures m * c == (m - 1) * c + c && (m - 1) * c >= 0
  {
  }

  lemma Margins(c: nat, flux: int, ahead: nat)
    requires c >= 2 && Abs(flux - ahead - c) <= Slack(c)
    ensures flux >= c / 2 && (ahead >= c ==> flux - c >= c / 2) && Slack(c) < c / 2
  {
    SlackIsSmall(c);
  }

  lemma PulledIn(c: nat, flux: int)
    requires Abs(flux) <= Slack(c)
    ensures 6 * Abs(TruncDiv(flux * 40, 100)) <= c
  {
  }

  lemma {:induction false} Countdown(c: nat, s: State, fs: seq<int>, m: nat)
    requires c >= 2 && 1 <= m && Approaching(c, s, m)
    ensures var r := Run(Fixed(c), s, fs, m);
            r.bits == Zeros(m - 1) + [true] && r.fs == fs && Locked(c, r.s)
    decreases m
  {
    OneWindow(c, s, m);
    if m > 1 {
      Countdown(c, Window(Fixed(c), s).0, fs, m - 1);
    }
  }

  /** A locked PLL takes in one interval and is ready to count it down. */
  lemma TakesOne(c: nat, s: State, n: nat, f: int)
    requires c >= 2 && Locked(c, s) && 1 <= n <= 4 && Near(c, n, f)
    ensures !Loaded(s) && Approaching(c, s.(flux := s.flux + f), n)
  {
    FourCells(c, n);
    Arrives(c, s.flux, f, n * c);
  }

  lemma FourCells(c: nat, n: nat)
    requires 1 <= n <= 4
    ensures n * c <= 4 * c
  {
  }

  lemma Arrives(c: nat, flux: int, f: int, cells: int)
    requires c >= 2 && 6 * Abs(flux) <= c && 16 * Abs(f - cells) <= cells <= 4 * c
    ensures flux < TruncDiv(c, 2) && Abs(flux + f - cells) <= Slack(c)
  {
    hide TruncDiv, Slack, Abs;
    Sizes(flux, f - cells);
    SlackParts(c);
    Sixth(c, flux);
    Fourth(c, cells, f);
  }

  lemma Sizes(a: int, b: int)
    ensures a <= Abs(a) && Abs(a + b) <= Abs(a) + Abs(b)
  {
  }

  lemma SlackParts(c: nat)
    requires c >= 2
    ensures Slack(c) == c / 6 + c / 4 && TruncDiv(c, 2) == c / 2
  {
  }

  lemma Sixth(c: nat, flux: int)
    requires c >= 2 && 6 * Abs(flux) <= c
    ensures Abs(flux) <= c / 6 < c / 2
  {
  }

  lemma Fourth(c: nat, cells: int, f: int)
    requires 16 * Abs(f - cells) <= cells <= 4 * c
    ensures Abs(f - cells) <= c / 4
  {
  }

  lemma OneInterval(c: nat, s: State, n: nat, f: int, fs: seq<int>)
    requires c >= 2 && Locked(c, s) && 1 <= n <= 4 && Near(c, n, f)
    ensures var r := Run(Fixed(c), s, [f] + fs, n);
            r.bits == Zeros(n - 1) + [true] && r.fs == fs && Locked(c, r.s)
  {
    hide Locked, Near, Approaching, Window, Loaded;
    TakesOne(c, s, n, f);
    var t := s.(flux := s.flux + f);
    OneWindow(c, t, n);
    Countdown(c, t, fs, n);
    assert ([f] + fs)[1..] == fs;
    assert NextBit(Fixed(c), s, [f] + fs) == NextBit(Fixed(c), t, fs);
  }

  /** n - 1 zeros and a one for every interval. */
  function Cells(ns: seq<nat>): seq<bool>
    requires forall i | 0 <= i < |ns| :: ns[i] >= 1
  {
    if ns == [] then [] else Zeros(ns[0] - 1) + [true] + Cells(ns[1..])
  }

  // ----- how far off the reversals are seen

  /** The state in which the next window opens. */
  function Filled(s: State, fs: seq<int>): State
    decreases |fs|
  {
    if Loaded(s) || fs == [] then s else Filled(s.(flux := s.flux + fs[0]), fs[1..])
  }

  /** For each one among the next k bits, how far its reversal lay off the middle of
      its window. */
  function Errors(p: Params, s: State, fs: seq<int>, k: nat): seq<int>
    decreases k
  {
    if k == 0 then []
    else
      var n := NextBit(p, s, fs);
      if n.End? then []
      else (if n.bit then [Filled(s, fs).flux - s.clock] else []) + Errors(p, n.s, n.fs, k - 1)
  }

  lemma {:induction false} ErrorsSplit(p: Params, s: State, fs: seq<int>, j: nat, k: nat)
    requires |Run(p, s, fs, j).bits| == j
    ensures var a := Run(p, s, fs, j);
            Errors(p, s, fs, j + k) == Errors(p, s, fs, j) + Errors(p, a.s, a.fs, k)
    decreases j
  {
    if j > 0 {
      var n := NextBit(p, s, fs);
      ErrorsSplit(p, n.s, n.fs, j - 1, k);
    }
  }

  /** Less than half a cell each. */
  ghost predicate Within(c: nat, es: seq<int>)
  {
    forall i | 0 <= i < |es| :: Abs(es[i]) < c / 2
  }

  lemma {:induction false} CountdownError(c: nat, s: State, fs: seq<int>, m: nat)
    requires c >= 2 && 1 <= m && Approaching(c, s, m)
    ensures |Errors(Fixed(c), s, fs, m)| == 1 && Within(c, Errors(Fixed(c), s, fs, m))
    decreases m
  {
    hide Window;
    OneWindow(c, s, m);
    if m > 1 {
      CountdownError(c, Window(Fixed(c), s).0, fs, m - 1);
    }
  }

  lemma IntervalError(c: nat, s: State, n: nat, f: int, fs: seq<int>)
    requires c >= 2 && Locked(c, s) && 1 <= n <= 4 && Near(c, n, f)
    ensures |Errors(Fixed(c), s, [f] + fs, n)| == 1 && Within(c, Errors(Fixed(c), s, [f] + fs, n))
  {
    hide Near, Approaching, Window, Loaded, Within;
    TakesOne(c, s, n, f);
    var t := s.(flux := s.flux + f);
    OneWindow(c, t, n);
    CountdownError(c, t, fs, n);
    assert ([f] + fs)[1..] == fs;
    assert NextBit(Fixed(c), s, [f] + fs) == NextBit(Fixed(c), t, fs);
    assert Filled(s, [f] + fs) == Filled(t, fs);
  }

  lemma WithinJoin(c: nat, a: seq<int>, b: seq<int>)
    requires Within(c, a) && Within(c, b)
    ensures Within(c, a + b)
  {
  }

  /** The PLL keeps lock: every sequence of intervals of one to four cells, each
      cell at most a sixteenth off, is read as it was meant, however long, and every
      reversal is seen less than half a cell off the middle of its window. */
  lemma {:induction false} KeepsLock(c: nat, s: State, ns: seq<nat>, fs: seq<int>)
    requires c >= 2 && Locked(c, s) && |ns| == |fs|
    requires forall i | 0 <= i < |ns| :: 1 <= ns[i] <= 4 && Near(c, ns[i], fs[i])
    ensures var r := Run(Fixed(c), s, fs, |Cells(ns)|);
            r.bits == Cells(ns) && r.fs == [] && Locked(c, r.s)
    ensures var es := Errors(Fixed(c), s, fs, |Cells(ns)|);
            |es| == |ns| && Within(c, es)
    decreases |ns|
  {
    hide Locked, Near, Within, NextBit;
    if ns == [] {
      NothingOff(c, s, fs);
    } else {
      assert fs == [fs[0]] + fs[1..];
      OneInterval(c, s, ns[0], fs[0], fs[1..]);
      IntervalError(c, s, ns[0], fs[0], fs[1..]);
      var r := Run(Fixed(c), s, fs, ns[0]);
      KeepsLock(c, r.s, ns[1..], fs[1..]);
      RunSplit(Fixed(c), s, fs, ns[0], |Cells(ns[1..])|);
      ErrorsSplit(Fixed(c), s, fs, ns[0], |Cells(ns[1..])|);
      WithinJoin(c, Errors(Fixed(c), s, fs, ns[0]), Errors(Fixed(c), r.s, r.fs, |Cells(ns[1..])|));
    }
  }

  lemma NothingOff(c: nat, s: State, fs: seq<int>)
    ensures Errors(Fixed(c), s, fs, 0) == [] && Within(c, [])
  {
  }

  // ----- a ring of cells as a source of flux

  /** struct soft_stream: the cells of a track and how long each one takes. */
  datatype Soft = Soft(ring: seq<bool>, speed: seq<nat>, nsPerCell: nat)

  predicate SoftOk(f: Soft)
  {
    |f.ring| > 0 && |f.speed| == |f.ring|
  }

  function CellTime(f: Soft, i: nat): nat
    requires i < |f.speed|
  {
    f.nsPerCell * f.speed[i] / 1000
  }

  const MAX_FLUX: nat := 1_000_000

  datatype Interval = Interval(pos: nat, flux: int)

  /** ss_next_flux from position pos, flux having been counted so far. */
  function NextFlux(f: Soft, pos: nat, flux: int): (r: Interval)
    requires SoftOk(f) && pos < |f.ring| && forall i | 0 <= i < |f.ring| :: CellTime(f, i) > 0
    ensures r.pos < |f.ring|
    decreases MAX_FLUX - flux
  {
    var at := Next(pos, |f.ring|);
    var more := flux + CellTime(f, at);
    if !f.ring[at] && more < MAX_FLUX then NextFlux(f, at, more) else Interval(at, more)
  }

  /** The time of n cells behind position pos, each by its speed in thousandths. */
  function Passed(f: Soft, pos: nat, n: nat): nat
    requires SoftOk(f) && pos < |f.ring|
  {
    if n == 0 then 0
    else
      AdvanceInRange(pos, n, |f.ring|);
      Passed(f, pos, n - 1) + f.nsPerCell * f.speed[Advance(pos, n, |f.ring|)] / 1000
  }

  lemma {:induction false} PassedFirst(f: Soft, pos: nat, n: nat)
    requires SoftOk(f) && pos < |f.ring|
    ensures var at := Next(pos, |f.ring|);
            && Advance(pos, n + 1, |f.ring|) == Advance(at, n, |f.ring|)
            && Passed(f, pos, n + 1) == f.nsPerCell * f.speed[at] / 1000 + Passed(f, at, n)
  {
    var at := Next(pos, |f.ring|);
    if n == 0 {
      assert Advance(pos, 1, |f.ring|) == at && Passed(f, pos, 0) == Passed(f, at, 0) == 0;
    } else {
      PassedFirst(f, pos, n - 1);
      AdvanceInRange(at, n, |f.ring|);
    }
  }

  /** The source stops at the next set cell, or at the first at which a millisecond has
      passed, and has counted the time of all cells up to and including that one. */
  lemma {:induction false} NextFluxExact(f: Soft, pos: nat, flux: int) returns (n: nat)
    requires SoftOk(f) && pos < |f.ring| && forall i | 0 <= i < |f.ring| :: CellTime(f, i) > 0
    ensures forall j: nat :: Advance(pos, j, |f.ring|) < |f.ring|
    ensures var r := NextFlux(f, pos, flux);
            && n >= 1 && r.pos == Advance(pos, n, |f.ring|) && r.flux == flux + Passed(f, pos, n)
            && (f.ring[r.pos] || r.flux >= 1_000_000)
    ensures forall j | 1 <= j < n :: !f.ring[Advance(pos, j, |f.ring|)] && flux + Passed(f, pos, j) < 1_000_000
    decreases MAX_FLUX - flux
  {
    var at := Next(pos, |f.ring|);
    var more := flux + CellTime(f, at);
    forall j: nat ensures Advance(pos, j, |f.ring|) < |f.ring| {
      AdvanceInRange(pos, j, |f.ring|);
    }
    PassedFirst(f, pos, 0);
    if !f.ring[at] && more < MAX_FLUX {
      var k := NextFluxExact(f, at, more);
      n := k + 1;
      PassedFirst(f, pos, k);
      forall j | 1 <= j < n ensures !f.ring[Advance(pos, j, |f.ring|)] && flux + Passed(f, pos, j) < 1_000_000 {
        PassedFirst(f, pos, j - 1);
      }
    } else {
      n := 1;
    }
  }

  class SoftStream {
    const soft: Soft
    var pos: nat

    constructor (soft: Soft)
      requires SoftOk(soft)
      ensures this.soft == soft && pos == 0
    {
      this.soft := soft;
      pos := 0;
    }

    method SsNextFlux() returns (flux: int)
      requires SoftOk(soft) && pos < |soft.ring| && forall i | 0 <= i < |soft.ring| :: CellTime(soft, i) > 0
      modifies this
      ensures Interval(pos, flux) == NextFlux(soft, old(pos), 0)
    {
      flux := 0;
      var dat := false;
      ghost var r := NextFlux(soft, pos, 0);
      while !dat && flux < MAX_FLUX
        invariant pos < |soft.ring|
        invariant if dat || flux >= MAX_FLUX then Interval(pos, flux) == r else NextFlux(soft, pos, flux) == r
        decreases MAX_FLUX - flux
      {
        pos := pos + 1;
        if pos >= |soft.ring| {
          pos := 0;
        }
        dat := soft.ring[pos];
        flux := flux + CellTime(soft, pos);
      }
    }
  }

  /** The first k intervals from position pos on. */
  function Fluxes(f: Soft, pos: nat, k: nat): (fs: seq<int>)
    requires SoftOk(f) && pos < |f.ring| && forall i | 0 <= i < |f.ring| :: CellTime(f, i) > 0
    ensures |fs| == k
    decreases k
  {
    if k == 0 then []
    else
      var r := NextFlux(f, pos, 0);
      [r.flux] + Fluxes(f, r.pos, k - 1)
  }

  /** Cells at most a sixteenth off, short enough for four of them to stay below
      the limit, and never more than three zeros in a row. */
  ghost predicate Readable(f: Soft, c: nat)
  {
    && SoftOk(f) && c >= 2
    && (forall i | 0 <= i < |f.ring| :: 16 * Abs(CellTime(f, i) - c) <= c && 3 * CellTime(f, i) < MAX_FLUX)
    && (forall i: nat :: RunEnds(f, i))
  }

  /** One of four cells that follow each other on the ring is set. */
  predicate RunEnds(f: Soft, i: nat)
    requires SoftOk(f)
  {
    Cell(f, i) || Cell(f, i + 1) || Cell(f, i + 2) || Cell(f, i + 3)
  }

  /** The cell that is reached from the start of the ring in i steps. */
  function Cell(f: Soft, i: nat): bool
    requires SoftOk(f)
  {
    AdvanceInRange(0, i, |f.ring|);
    f.ring[Advance(0, i, |f.ring|)]
  }

  lemma TimesPositive(f: Soft, c: nat)
    requires Readable(f, c)
    ensures forall i | 0 <= i < |f.ring| :: CellTime(f, i) > 0
  {
  }

  /** One more cell, at most a sixteenth off. */
  lemma OneCellMore(c: nat, done: nat, flux: int, time: int)
    requires 16 * Abs(flux - done * c) <= done * c && 16 * Abs(time - c) <= c
    ensures 16 * Abs(flux + time - (done + 1) * c) <= (done + 1) * c
  {
    OneCellLess(done + 1, c);
  }

  /** From cell u on, done zeros having been passed since the last one, the
      source stops at the next one and has counted its cells. */
  lemma {:induction false} FluxTo(f: Soft, c: nat, u: nat, done: nat, flux: int) returns (n: nat)
    requires Readable(f, c) && done <= 3 && done <= u && 16 * Abs(flux - done * c) <= done * c
    requires forall j | u - done < j <= u :: !Cell(f, j)
    requires 3 * flux <= done * (MAX_FLUX - 1)
    ensures forall i | 0 <= i < |f.ring| :: CellTime(f, i) > 0
    ensures 1 <= n && n + done <= 4 && Advance(0, u, |f.ring|) < |f.ring|
    ensures var r := NextFlux(f, Advance(0, u, |f.ring|), flux);
            r.pos == Advance(0, u + n, |f.ring|) && Near(c, done + n, r.flux)
    ensures Cell(f, u + n) && forall j | u < j < u + n :: !Cell(f, j)
    decreases 4 - done
  {
    hide Advance, Near;
    TimesPositive(f, c);
    AdvanceInRange(0, u, |f.ring|);
    AdvanceInRange(0, u + 1, |f.ring|);
    StepOn(u, |f.ring|);
    var at := Advance(0, u + 1, |f.ring|);
    var more := flux + CellTime(f, at);
    OneCellMore(c, done, flux, CellTime(f, at));
    if Cell(f, u + 1) {
      n := 1;
      NearIs(c, done + 1, more);
    } else {
      assert RunEnds(f, if u < 2 then 0 else u - 2);
      var k := FluxTo(f, c, u + 1, done + 1, more);
      n := k + 1;
    }
  }

  lemma StepOn(u: nat, n: nat)
    requires n > 0
    ensures Advance(0, u + 1, n) == Next(Advance(0, u, n), n)
  {
  }

  lemma NearIs(c: nat, n: nat, f: int)
    ensures Near(c, n, f) <==> 16 * Abs(f - n * c) <= n * c
  {
  }

  lemma {:induction false} RunPrefix(p: Params, s: State, fs: seq<int>, k: nat, n: nat)
    requires k <= n && |Run(p, s, fs, n).bits| == n
    ensures Run(p, s, fs, k).bits == Run(p, s, fs, n).bits[..k]
    decreases k
  {
    if k > 0 {
      var r := NextBit(p, s, fs);
      RunPrefix(p, r.s, r.fs, k - 1, n - 1);
    }
  }

  /** The cells of the ring behind cell u, k of them. */
  function After(f: Soft, u: nat, k: nat): (c: seq<bool>)
    requires SoftOk(f)
    ensures |c| == k
  {
    seq(k, i requires 0 <= i < k => Cell(f, u + 1 + i))
  }

  /** The PLL, locked when the source stands at a cell, reads the cells behind it. */
  lemma {:induction false} ReadsFrom(f: Soft, c: nat, s: State, u: nat, j: nat, k: nat)
    requires Readable(f, c) && Locked(c, s) && k <= j
    ensures Advance(0, u, |f.ring|) < |f.ring| && forall i | 0 <= i < |f.ring| :: CellTime(f, i) > 0
    ensures Run(Fixed(c), s, Fluxes(f, Advance(0, u, |f.ring|), j), k).bits == After(f, u, k)
    decreases k
  {
    hide *;
    ReadableIs(f, c);
    TimesPositive(f, c);
    AdvanceInRange(0, u, |f.ring|);
    if k == 0 {
      NoBits(Fixed(c), s, Fluxes(f, Advance(0, u, |f.ring|), j));
    } else {
      var at := Advance(0, u, |f.ring|);
      NothingCounted(c);
      var n := FluxTo(f, c, u, 0, 0);
      var r := NextFlux(f, at, 0);
      var rest := Fluxes(f, r.pos, j - 1);
      FirstFlux(f, at, j);
      OneInterval(c, s, n, r.flux, rest);
      CellsOf(f, u, n);
      if k < n {
        RunPrefix(Fixed(c), s, [r.flux] + rest, k, n);
        AfterSplit(f, u, k, n);
      } else {
        var t := Run(Fixed(c), s, [r.flux] + rest, n);
        ReadsFrom(f, c, t.s, u + n, j - 1, k - n);
        RunSplit(Fixed(c), s, [r.flux] + rest, n, k - n);
        AfterSplit(f, u, n, k);
      }
    }
  }

  lemma NoBits(p: Params, s: State, fs: seq<int>)
    ensures Run(p, s, fs, 0).bits == []
  {
  }

  lemma NothingCounted(c: nat)
    ensures 16 * Abs(0 - 0 * c) <= 0 * c
  {
  }

  lemma FirstFlux(f: Soft, pos: nat, k: nat)
    requires SoftOk(f) && pos < |f.ring| && k > 0 && forall i | 0 <= i < |f.ring| :: CellTime(f, i) > 0
    ensures Fluxes(f, pos, k) == [NextFlux(f, pos, 0).flux] + Fluxes(f, NextFlux(f, pos, 0).pos, k - 1)
  {
  }

  lemma AfterSplit(f: Soft, u: nat, n: nat, k: nat)
    requires SoftOk(f) && n <= k
    ensures After(f, u, k) == After(f, u, n) + After(f, u + n, k - n)
    ensures After(f, u, k)[..n] == After(f, u, n)
  {
    hide Cell;
  }

  lemma ReadableIs(f: Soft, c: nat)
    requires Readable(f, c)
    ensures SoftOk(f) && c >= 2
  {
  }

  lemma CellsOf(f: Soft, u: nat, n: nat)
    requires SoftOk(f) && n >= 1 && Cell(f, u + n) && forall j | u < j < u + n :: !Cell(f, j)
    ensures After(f, u, n) == Zeros(n - 1) + [true]
  {
    hide Cell;
  }

  /** A ring of cells is read back as it is, from its second cell on and round
      and round, for as many bits as one likes. */
  lemma RingReadsBack(f: Soft, c: nat, s: State, k: nat)
    requires Readable(f, c) && Locked(c, s)
    ensures 0 < |f.ring| && forall i | 0 <= i < |f.ring| :: CellTime(f, i) > 0
    ensures Run(Fixed(c), s, Fluxes(f, 0, k), k).bits
         == seq(k, i requires 0 <= i < k => Cell(f, i + 1))
  {
    ReadsFrom(f, c, s, 0, k, k);
    assert After(f, 0, k) == seq(k, i requires 0 <= i < k => Cell(f, i + 1));
  }
}
