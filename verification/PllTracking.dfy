/** The PLL with its period adjustment: which way the clock moves, and why it keeps
    lock on a disk that turns too fast or too slowly. */
module PllTracking {
  import opened Bits
  import opened Pll

  // ----- which way the clock moves

  /** Whatever the clock was, it ends within a tenth of the centre. */
  lemma ClockLimits(p: Params, s: State, flux: int)
    ensures 90 * p.centre < 100 * Adjusted(p, s, flux) + 100 && 100 * Adjusted(p, s, flux) <= 110 * p.centre
  {
  }

  /** After at most three zeros: a reversal late in its window slows the clock down, an
      early one speeds it up, by that percentage of the phase error, rounded towards
      zero, as far as the limits allow. */
  lemma ClockFollows(p: Params, s: State, flux: int)
    requires p.periodPct >= 0 && s.zeros <= 3 && ClockMin(p.centre) <= s.clock <= ClockMax(p.centre)
    ensures var moved := Adjusted(p, s, flux) - s.clock;
            && (flux >= 0 ==> 0 <= 100 * moved <= flux * p.periodPct)
            && (flux <= 0 ==> flux * p.periodPct <= 100 * moved <= 0)
            && (ClockMin(p.centre) < Adjusted(p, s, flux) < ClockMax(p.centre)
                ==> -100 < 100 * moved - flux * p.periodPct < 100)
  {
    SameSign(flux, p.periodPct);
    Rounded(flux * p.periodPct);
  }

  /** Behind more than three zeros the clock goes back towards the centre, and not past
      it, whatever the phase error. */
  lemma ClockReturns(p: Params, s: State, flux: int)
    requires 0 <= p.periodPct <= 100 && s.zeros > 3 && ClockMin(p.centre) <= s.clock <= ClockMax(p.centre)
    ensures var k := Adjusted(p, s, flux);
            && (s.clock >= p.centre ==> p.centre <= k <= s.clock)
            && (s.clock <= p.centre ==> s.clock <= k <= p.centre)
            && (s.clock != p.centre && Abs(p.centre - s.clock) * p.periodPct >= 100 ==> k != s.clock)
  {
    hide TruncDiv;
    var off := p.centre - s.clock;
    SameSign(off, p.periodPct);
    PartOf(off, p.periodPct);
    Rounded(off * p.periodPct);
    assert ClockMin(p.centre) <= p.centre <= ClockMax(p.centre);
  }

  lemma SameSign(a: int, b: nat)
    ensures (a >= 0 ==> a * b >= 0) && (a <= 0 ==> a * b <= 0) && Abs(a) * b == Abs(a * b)
  {
  }

  lemma PartOf(a: int, pct: nat)
    requires pct <= 100
    ensures (a >= 0 ==> a * pct <= 100 * a) && (a <= 0 ==> a * pct >= 100 * a)
  {
  }

  lemma Rounded(a: int)
    ensures (a >= 0 ==> 0 <= 100 * TruncDiv(a, 100) <= a) && (a <= 0 ==> a <= 100 * TruncDiv(a, 100) <= 0)
    ensures -100 < 100 * TruncDiv(a, 100) - a < 100
    ensures Abs(a) >= 100 ==> TruncDiv(a, 100) != 0
  {
  }

  /** The edges of the window: a cell is decided as soon as half a clock of flux is at
      hand, rounded down, and is a one exactly if less than half a clock stays behind. */
  lemma WindowEdges(p: Params, s: State)
    requires s.clock >= 0
    ensures var r := NextBit(p, s, []);
            && (r.Bit? <==> 2 * s.flux + 1 >= s.clock)
            && (r.Bit? ==> (r.bit <==> 2 * (s.flux - s.clock) + 1 < s.clock))
  {
  }

  // ----- counting down to a reversal

  /** The reversal is m windows away but for x, which is less than half a window: it is
      seen in the last of them, and phase and period are adjusted by x. */
  lemma {:induction false} CountTo(p: Params, s: State, fs: seq<int>, m: nat, x: int)
    requires 1 <= m && s.flux == m * s.clock + x && 2 * Abs(x) + 2 <= s.clock
    ensures Loaded(s)
    ensures var r := Run(p, s, fs, m);
            && r.bits == Zeros(m - 1) + [true] && r.fs == fs && r.s.zeros == 0
            && r.s.flux == TruncDiv(x * (100 - p.phasePct), 100)
            && r.s.clock == Adjusted(p, State(0, s.clock, 0, s.zeros + (m - 1)), x)
    ensures Errors(p, s, fs, m) == [x]
    decreases m
  {
    hide Adjusted, Zeros;
    var k := s.clock;
    var t := Window(p, s).0;
    OneCellLess(m, k);
    if m == 1 {
      LastWindow(p, s, fs, x);
    } else {
      OneCellLess(m - 1, k);
      assert NextBit(p, s, fs) == Bit(t, fs, false);
      CountTo(p, t, fs, m - 1, x);
      assert Zeros(m - 1) == [false] + Zeros(m - 2);
    }
  }

  lemma LastWindow(p: Params, s: State, fs: seq<int>, x: int)
    requires s.flux == s.clock + x && 2 * Abs(x) + 2 <= s.clock
    ensures Loaded(s)
    ensures var r := Run(p, s, fs, 1);
            && r.bits == Zeros(0) + [true] && r.fs == fs && r.s.zeros == 0
            && r.s.flux == TruncDiv(x * (100 - p.phasePct), 100)
            && r.s.clock == Adjusted(p, State(0, s.clock, 0, s.zeros), x)
    ensures Errors(p, s, fs, 1) == [x]
  {
    hide Adjusted;
    var t := Window(p, s).0;
    assert NextBit(p, s, fs) == Bit(t, fs, true);
    assert Run(p, t, fs, 0).bits == [] && Errors(p, t, fs, 0) == [];
    OnlyZeros(p, s, x);
  }

  /** Of the state only the clock and the zeros matter for the adjustment. */
  lemma OnlyZeros(p: Params, s: State, x: int)
    ensures Adjusted(p, s, x) == Adjusted(p, State(0, s.clock, 0, s.zeros), x)
  {
  }

  // ----- phase and period together

  /** The defaults: 5% of the period, 60% of the phase. */
  function Default(c: nat): Params
  {
    Params(c, 5, 60)
  }

  /** How far phase (e) and period (d, what the clock still lacks) may be off for the
      next intervals to be read; the bounds are kept from one interval to the next. */
  predicate Bounded(c: nat, e: int, d: int)
  {
    && -8 * c <= 48 * e <= 9 * c
    && -13 * c <= 48 * (e + 8 * d) <= 33 * c
    && -14 * c <= 48 * (10 * d - e) <= 38 * c
  }

  /** Next to the true cell the rounding and the jitter are small. */
  predicate Steady(c: nat, j: nat)
  {
    500 + 40 * j <= c
  }

  /** One interval of n cells, its reversal x off: the bounds are kept. */
  lemma BoundsKept(c: nat, j: nat, n: nat, e: int, d: int, x: int, e': int, d': int)
    requires 1 <= n <= 4 && Steady(c, j) && Bounded(c, e, d)
    requires x - (e + n * d) <= j && e + n * d - x <= j
    requires -100 < 100 * e' - 40 * x < 100 && -100 < 100 * (d - d') - 5 * x < 100
    ensures Bounded(c, e', d')
  {
    if n == 1 {
    } else if n == 2 {
    } else if n == 3 {
    } else {
    }
  }

  /** And the reversal lies well within its window, whichever way the clock is off. */
  lemma WellWithin(c: nat, j: nat, n: nat, e: int, d: int, x: int, l: nat)
    requires n <= 4 && Steady(c, j) && Bounded(c, e, d) && Abs(x - (e + n * d)) <= j && 16 * l <= c
    ensures 10 * Abs(l - d) <= c
    ensures 2 * Abs(x) + 2 <= c + (l - d) && 2 * Abs(x) + 2 <= c - (l - d) && 2 * Abs(x) + 2 <= c
  {
    hide Bounded, Steady;
    Between(n, d);
    AtMost(c, j, e, d, e, l);
    AtMost(c, j, e, d, e + 4 * d, l);
  }

  lemma AtMost(c: nat, j: nat, e: int, d: int, y: int, l: nat)
    requires Steady(c, j) && Bounded(c, e, d) && (y == e || y == e + 4 * d) && 16 * l <= c
    ensures 10 * (l - d) <= c && 10 * (d - l) <= c
    ensures 2 * y + 2 * j + 2 <= c + (l - d) && -2 * y + 2 * j + 2 <= c + (l - d)
    ensures 2 * y + 2 * j + 2 <= c - (l - d) && -2 * y + 2 * j + 2 <= c - (l - d)
    ensures 2 * y + 2 * j + 2 <= c && -2 * y + 2 * j + 2 <= c
  {
  }

  lemma Between(n: nat, d: int)
    requires n <= 4
    ensures 0 <= n * d <= 4 * d || 4 * d <= n * d <= 0
  {
  }

  // ----- staying locked

  /** Which way the cells on the disk are off: seen from there, everything is as on a
      disk that turns too slowly. */
  function Way(c: nat, l: nat): int
  {
    if l >= c then 1 else -1
  }

  /** A reversal has just been seen; phase and period are within bounds. */
  predicate Tracking(c: nat, l: nat, s: State)
  {
    s.zeros == 0 && Bounded(c, Way(c, l) * s.flux, Way(c, l) * (l - s.clock))
  }

  /** The clock at the centre, at most a sixth of a cell off its place, as after a
      reset. */
  lemma StartsTracking(c: nat, l: nat, s: State)
    requires Locked(c, s) && s.zeros == 0 && 16 * Abs(l - c) <= c
    ensures Tracking(c, l, s)
  {
  }

  /** Within the limits the clock follows the reversal by five hundredths. */
  lemma NotClamped(c: nat, k: int, z: nat, x: int)
    requires z <= 3 && 10 * Abs(k + TruncDiv(x * 5, 100) - c) <= c
    ensures Adjusted(Default(c), State(0, k, 0, z), x) == k + TruncDiv(x * 5, 100)
  {
  }

  /** Of n cells, n times what the clock lacks. */
  lemma Lacking(n: nat, l: int, k: int)
    ensures n * l - n * k == n * (l - k)
  {
  }

  /** One interval, seen from the way on which the cells are too long by l: phase and
      period before it, its reversal x off, and what they are after it. */
  lemma OneReversal(c: nat, j: nat, n: nat, e: int, d: int, x: int, r: int, a: int, l: nat)
    requires 1 <= n <= 4 && Steady(c, j) && Bounded(c, e, d) && 16 * l <= c
    requires x - (e + n * d) <= j && e + n * d - x <= j
    requires -100 < 100 * r - 40 * x < 100 && -100 < 100 * a - 5 * x < 100
    ensures 2 * Abs(x) + 2 <= c + (l - d) && 2 * Abs(x) + 2 <= c - (l - d) && 2 * Abs(x) + 2 <= c
    ensures 2 * Abs(e) + 2 <= c + (l - d) && 2 * Abs(e) + 2 <= c - (l - d)
    ensures Bounded(c, r, d - a) && 10 * Abs(l - (d - a)) <= c
  {
    hide Bounded, Steady;
    WellWithin(c, j, n, e, d, x, l);
    WellWithin(c, j, 0, e, d, e, l);
    BoundsKept(c, j, n, e, d, x, r, d - a);
    WellWithin(c, j, 0, r, d - a, r, l);
  }

  /** How far off the reversal is, and what comes of it. */
  lemma TakesInterval(c: nat, l: nat, j: nat, s: State, n: nat, f: int) returns (x: int)
    requires Tracking(c, l, s) && 16 * Abs(l - c) <= c && Steady(c, j) && 1 <= n <= 4 && Abs(f - n * l) <= j
    ensures s.flux + f == n * s.clock + x && 2 * Abs(x) + 2 <= s.clock && 2 * Abs(x) + 2 <= c && !Loaded(s)
    ensures var k := Adjusted(Default(c), State(0, s.clock, 0, n - 1), x);
            forall lat :: Tracking(c, l, State(TruncDiv(x * 40, 100), k, lat, 0))
  {
    hide Bounded, Steady, Adjusted, TruncDiv;
    var k := s.clock;
    x := s.flux + f - n * k;
    Lacking(n, l, k);
    var a, r := TruncDiv(x * 5, 100), TruncDiv(x * 40, 100);
    Rounded(x * 5);
    Rounded(x * 40);
    if l >= c {
      OneReversal(c, j, n, s.flux, l - k, x, r, a, l - c);
    } else {
      Lacking(n, k, l);
      OneReversal(c, j, n, -s.flux, k - l, -x, -r, -a, c - l);
    }
    NotClamped(c, k, n - 1, x);
    HalfWindow(s);
  }

  lemma HalfWindow(s: State)
    ensures 2 * s.flux + 2 <= s.clock ==> !Loaded(s)
  {
  }

  lemma IntervalRead(c: nat, l: nat, j: nat, s: State, n: nat, f: int, fs: seq<int>)
    requires Tracking(c, l, s) && 16 * Abs(l - c) <= c && Steady(c, j) && 1 <= n <= 4 && Abs(f - n * l) <= j
    ensures var r := Run(Default(c), s, [f] + fs, n);
            r.bits == Zeros(n - 1) + [true] && r.fs == fs && Tracking(c, l, r.s)
    ensures var es := Errors(Default(c), s, [f] + fs, n); |es| == 1 && Within(c, es)
  {
    hide Tracking, Steady, Adjusted, Loaded, Window, Abs;
    var x := TakesInterval(c, l, j, s, n, f);
    var t := s.(flux := s.flux + f);
    TrackingZeros(c, l, s);
    CountTo(Default(c), t, fs, n, x);
    assert ([f] + fs)[1..] == fs;
    assert NextBit(Default(c), s, [f] + fs) == NextBit(Default(c), t, fs);
    assert Filled(s, [f] + fs) == Filled(t, fs);
    assert Run(Default(c), s, [f] + fs, n) == Run(Default(c), t, fs, n);
    assert Errors(Default(c), s, [f] + fs, n) == Errors(Default(c), t, fs, n);
  }

  lemma TrackingZeros(c: nat, l: nat, s: State)
    requires Tracking(c, l, s)
    ensures s.zeros == 0
  {
  }

  /** With the default adjustments the PLL keeps lock on cells of any one length within
      a sixteenth of the centre, intervals being off by up to j: however long the
      sequence of intervals of one to four cells, it is read as it was meant, and every
      reversal is seen less than half a cell off the middle of its window. */
  lemma {:induction false} KeepsLockAdjusting(c: nat, l: nat, j: nat, s: State, ns: seq<nat>, fs: seq<int>)
    requires 16 * Abs(l - c) <= c && Steady(c, j) && Tracking(c, l, s) && |ns| == |fs|
    requires forall i | 0 <= i < |ns| :: 1 <= ns[i] <= 4 && Abs(fs[i] - ns[i] * l) <= j
    ensures var r := Run(Default(c), s, fs, |Cells(ns)|);
            r.bits == Cells(ns) && r.fs == [] && Tracking(c, l, r.s)
    ensures var es := Errors(Default(c), s, fs, |Cells(ns)|);
            |es| == |ns| && Within(c, es)
    decreases |ns|
  {
    hide Tracking, Within, NextBit, Steady, Abs;
    var p := Default(c);
    if ns == [] {
      NoErrors(p, c, s, fs);
    } else {
      assert fs == [fs[0]] + fs[1..];
      IntervalRead(c, l, j, s, ns[0], fs[0], fs[1..]);
      var r := Run(p, s, fs, ns[0]);
      KeepsLockAdjusting(c, l, j, r.s, ns[1..], fs[1..]);
      RunSplit(p, s, fs, ns[0], |Cells(ns[1..])|);
      ErrorsSplit(p, s, fs, ns[0], |Cells(ns[1..])|);
      WithinJoin(c, Errors(p, s, fs, ns[0]), Errors(p, r.s, r.fs, |Cells(ns[1..])|));
    }
  }

  lemma NoErrors(p: Params, c: nat, s: State, fs: seq<int>)
    ensures Errors(p, s, fs, 0) == [] && Within(c, [])
  {
  }

  // ----- cells of no one length

  lemma OneRead(s: State, n: nat, f: int, fs: seq<int>, x: int, clock: int, flux: int)
    requires !Loaded(s) && 1 <= n <= 4 && s.zeros == 0 && s.flux + f == n * s.clock + x && 2 * Abs(x) + 2 <= s.clock
    requires clock == Adjusted(Default(2000), State(0, s.clock, 0, n - 1), x) && flux == TruncDiv(x * 40, 100)
    ensures var r := Run(Default(2000), s, [f] + fs, n);
            r.bits == Zeros(n - 1) + [true] && r.fs == fs && r.s.zeros == 0 && r.s.clock == clock && r.s.flux == flux
  {
    hide Adjusted, Loaded, Window, Abs, TruncDiv;
    var t := s.(flux := s.flux + f);
    CountTo(Default(2000), t, fs, n, x);
    assert ([f] + fs)[1..] == fs;
    assert NextBit(Default(2000), s, [f] + fs) == NextBit(Default(2000), t, fs);
    assert Run(Default(2000), s, [f] + fs, n) == Run(Default(2000), t, fs, n);
  }

  predicate Reads(s: State, fs: seq<int>, ns: seq<nat>)
    requires forall i | 0 <= i < |ns| :: ns[i] >= 1
  {
    Run(Default(2000), s, fs, |Cells(ns)|).bits == Cells(ns)
  }

  /** After every reversal only clock and phase matter for what follows. */
  ghost predicate ReadsFrom(clock: int, flux: int, fs: seq<int>, ns: seq<nat>)
    requires forall i | 0 <= i < |ns| :: ns[i] >= 1
  {
    forall lat :: Reads(State(flux, clock, lat, 0), fs, ns)
  }

  lemma ReadsMore(k: int, e: int, n: nat, f: int, fs: seq<int>, ns: seq<nat>, x: int, clock: int, flux: int)
    requires 1 <= n <= 4 && 2 * Abs(e) + 2 <= k && e + f == n * k + x && 2 * Abs(x) + 2 <= k
    requires clock == Adjusted(Default(2000), State(0, k, 0, n - 1), x) && flux == TruncDiv(x * 40, 100)
    requires (forall i | 0 <= i < |ns| :: ns[i] >= 1) && ReadsFrom(clock, flux, fs, ns)
    ensures ReadsFrom(k, e, [f] + fs, [n] + ns)
  {
    hide Adjusted, Abs, TruncDiv, Loaded, Run;
    assert ([n] + ns)[1..] == ns;
    forall lat ensures Reads(State(e, k, lat, 0), [f] + fs, [n] + ns) {
      var s := State(e, k, lat, 0);
      NotLoaded(s);
      OneRead(s, n, f, fs, x, clock, flux);
      var t := Run(Default(2000), s, [f] + fs, n).s;
      assert t == State(flux, clock, t.latency, 0);
      assert Reads(t, fs, ns);
      RunSplit(Default(2000), s, [f] + fs, n, |Cells(ns)|);
    }
  }

  lemma NotLoaded(s: State)
    requires 2 * Abs(s.flux) + 2 <= s.clock
    ensures !Loaded(s)
  {
  }

  lemma NothingToRead(clock: int, flux: int)
    ensures ReadsFrom(clock, flux, [], [])
  {
  }

  /** One length is needed: where the clock follows, intervals that are each within a
      sixteenth may be misread.  Four times four cells that are long and then twice
      four that are short: the last of them is read as three. */
  lemma LosesLock(lat: int)
    ensures 16 * (8500 - 4 * 2000) == 4 * 2000 && 16 * (4 * 2000 - 7500) == 4 * 2000
    ensures Locked(2000, State(0, 2000, lat, 0))
    ensures Reads(State(0, 2000, lat, 0), [8500, 8500, 8500, 8500, 7500, 7500], [4, 4, 4, 4, 4, 3])
  {
    hide Reads;
    var f, g := 8500, 7500;
    NothingToRead(2113, 405);
    ReadsMore(2063, -298, 3, g, [], [], 1013, 2113, 405);
    assert [g] + [] == [g] && [3] + [] == [3];
    ReadsMore(2100, 153, 4, g, [g], [3], -747, 2063, -298);
    assert [g] + [g] == [g, g] && [4] + [3] == [4, 3];
    ReadsMore(2081, 208, 4, f, [g, g], [4, 3], 384, 2100, 153);
    assert [f] + [g, g] == [f, g, g] && [4] + [4, 3] == [4, 4, 3];
    ReadsMore(2055, 240, 4, f, [f, g, g], [4, 4, 3], 520, 2081, 208);
    assert [f] + [f, g, g] == [f, f, g, g] && [4] + [4, 4, 3] == [4, 4, 4, 3];
    ReadsMore(2025, 200, 4, f, [f, f, g, g], [4, 4, 4, 3], 600, 2055, 240);
    assert [f] + [f, f, g, g] == [f, f, f, g, g] && [4] + [4, 4, 4, 3] == [4, 4, 4, 4, 3];
    ReadsMore(2000, 0, 4, f, [f, f, f, g, g], [4, 4, 4, 4, 3], 500, 2025, 200);
    assert [f] + [f, f, f, g, g] == [f, f, f, f, g, g] && [4] + [4, 4, 4, 4, 3] == [4, 4, 4, 4, 4, 3];
  }
}
