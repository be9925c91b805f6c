/** The flux samples of an SCP image: how one interval between flux transitions is
    written as 16-bit samples of 25ns, patterns for weak stretches included. */
module ScpSamples {

  type sample = n: int | 0 <= n < 0x1_0000

  const LONG_WEAK_THRESH: nat := 40_000
  const SHORT_WEAK_THRESH: nat := 4_000
  const ONE_US: nat := 40
  const MIN: nat := 42 * ONE_US / 10
  const MAX: nat := 78 * ONE_US / 10
  const CLOSE: sample := 5 * ONE_US / 10

  /** Samples, and what is left of the interval. */
  datatype Part = Part(samples: seq<sample>, rest: nat)

  function NextDelta(delta: nat): nat
  {
    if delta + 2 * ONE_US / 10 > MAX - MIN then 0 else delta + 2 * ONE_US / 10
  }

  /** Pairs that drift apart and come together again. */
  function LongPattern(cell: nat, delta: nat): Part
    requires delta <= MAX - MIN
  {
    if 2 * MAX < cell then
      var p := LongPattern(cell - MAX - MIN, NextDelta(delta));
      Part([MAX - delta, MIN + delta] + p.samples, p.rest)
    else Part([], cell)
  }

  /** A pulse after 25us or 19us and then a burst of six or four close together. */
  function Burst(delta: bool): seq<sample>
  {
    [if delta then 25 * ONE_US else 19 * ONE_US] + Close(if delta then 6 else 4)
  }

  function Close(n: nat): (s: seq<sample>)
    ensures |s| == n
  {
    if n == 0 then [] else Close(n - 1) + [CLOSE]
  }

  function BurstTicks(delta: bool): nat
  {
    if delta then 25 * ONE_US + 6 * CLOSE else 19 * ONE_US + 4 * CLOSE
  }

  function ShortPattern(cell: nat, delta: bool): Part
  {
    if 32 * ONE_US < cell then
      var p := ShortPattern(cell - BurstTicks(!delta), !delta);
      Part(Burst(!delta) + p.samples, p.rest)
    else Part([], cell)
  }

  /** A zero stands for 0x10000 ticks; the last sample is never zero. */
  function Plain(cell: nat): seq<sample>
  {
    if cell >= 0x1_0000 then [0] + Plain(cell - 0x1_0000) else [if cell != 0 then cell else 1]
  }

  function AfterLong(cell: nat, weak: bool): Part
  {
    if weak && cell >= LONG_WEAK_THRESH then LongPattern(cell, 0) else Part([], cell)
  }

  function AfterShort(cell: nat, weak: bool): Part
  {
    if weak && cell >= SHORT_WEAK_THRESH then ShortPattern(cell, false) else Part([], cell)
  }

  /** emit. */
  function Emitted(cell: nat, weak: bool): seq<sample>
  {
    var a := AfterLong(cell, weak);
    var b := AfterShort(a.rest, weak);
    a.samples + b.samples + Plain(b.rest)
  }

  // ----- time

  function Ticks(n: sample): nat
  {
    if n == 0 then 0x1_0000 else n
  }

  /** The time a list of samples stands for. */
  function Duration(s: seq<sample>): nat
  {
    if s == [] then 0 else Duration(s[..|s| - 1]) + Ticks(s[|s| - 1])
  }

  /** The one tick too many: an interval of no ticks, or of a whole number of
      overflows, that no pattern breaks up. */
  function ExtraTick(cell: nat, weak: bool): nat
  {
    if cell % 0x1_0000 == 0 && !(weak && cell >= SHORT_WEAK_THRESH) then 1 else 0
  }

  // ----- the shape of the patterns

  /** Sample i of a long weak stretch: pairs of 12us together, the first of them 7.8us
      and 4.2us, each 0.2us closer to the other way round than the one before, up to
      4.2us and 7.8us, and then again from the start. */
  function Drifting(i: nat): nat
  {
    if i % 2 == 0 then 312 - 8 * (i / 2 % 19) else 168 + 8 * (i / 2 % 19)
  }

  /** Sample i of a short one: 25us, six of 0.5us, 19us, four of 0.5us, and so on. */
  function Bursting(i: nat): nat
  {
    if i % 12 == 0 then 1000 else if i % 12 == 7 then 760 else 20
  }

  lemma {:induction false} LongShape(cell: nat, delta: nat, k: nat)
    requires delta == 8 * (k % 19)
    ensures var s := LongPattern(cell, delta).samples;
            |s| % 2 == 0 && forall i | 0 <= i < |s| :: s[i] == Drifting(2 * k + i)
    decreases cell
  {
    if 2 * MAX < cell {
      NextPair(k);
      LongShape(cell - MAX - MIN, NextDelta(delta), k + 1);
      var s, rest := LongPattern(cell, delta).samples, LongPattern(cell - MAX - MIN, NextDelta(delta)).samples;
      forall i | 0 <= i < |s| ensures s[i] == Drifting(2 * k + i) {
        if i >= 2 {
          assert s[i] == rest[i - 2];
        }
      }
    }
  }

  lemma NextPair(k: nat)
    ensures NextDelta(8 * (k % 19)) == 8 * ((k + 1) % 19)
    ensures Drifting(2 * k) == MAX - 8 * (k % 19) && Drifting(2 * k + 1) == MIN + 8 * (k % 19)
  {
    assert (k + 1) % 19 == if k % 19 == 18 then 0 else k % 19 + 1;
  }

  lemma {:induction false} ShortShape(cell: nat, delta: bool, k: nat)
    requires k % 12 == if delta then 7 else 0
    ensures var s := ShortPattern(cell, delta).samples;
            forall i | 0 <= i < |s| :: s[i] == Bursting(k + i)
    decreases cell
  {
    if 32 * ONE_US < cell {
      var n := |Burst(!delta)|;
      BurstShape(!delta, k);
      ShortStep(cell, delta);
      var left := cell - BurstTicks(!delta);
      ShortShape(left, !delta, k + n);
      BeatJoin(Burst(!delta), ShortPattern(left, !delta).samples, k);
    }
  }

  lemma BeatJoin(a: seq<sample>, b: seq<sample>, k: nat)
    requires forall i | 0 <= i < |a| :: a[i] == Bursting(k + i)
    requires forall i | 0 <= i < |b| :: b[i] == Bursting(k + |a| + i)
    ensures forall i | 0 <= i < |a + b| :: (a + b)[i] == Bursting(k + i)
  {
    hide Bursting;
    forall i | 0 <= i < |a + b| ensures (a + b)[i] == Bursting(k + i) {
      if i >= |a| {
        assert (a + b)[i] == b[i - |a|];
      }
    }
  }

  lemma BurstShape(delta: bool, k: nat)
    requires k % 12 == if delta then 0 else 7
    ensures var b := Burst(delta);
            |b| == (if delta then 7 else 5) && forall i | 0 <= i < |b| :: b[i] == Bursting(k + i)
    ensures (k + |Burst(delta)|) % 12 == if delta then 7 else 0
  {
    CloseOnes(if delta then 6 else 4);
  }

  lemma {:induction false} CloseOnes(n: nat)
    ensures forall i | 0 <= i < n :: Close(n)[i] == 20
  {
    if n > 0 {
      CloseOnes(n - 1);
    }
  }

  lemma {:induction false} PlainShape(cell: nat)
    ensures var s := Plain(cell);
            && |s| == cell / 0x1_0000 + 1 && (forall i | 0 <= i < |s| - 1 :: s[i] == 0)
            && s[|s| - 1] == if cell % 0x1_0000 == 0 then 1 else cell % 0x1_0000
  {
    if cell >= 0x1_0000 {
      PlainShape(cell - 0x1_0000);
    }
  }

  /** What an interval is written as: from 1000us on, if weak, the drifting pairs and a
      last sample; from 100us on, if weak, the bursts and a last sample; and otherwise
      one sample, behind a zero for every overflow. */
  lemma EmittedShape(cell: nat, weak: bool)
    ensures var s := Emitted(cell, weak);
            var n := |s| - 1;
            && n >= 0
            && (weak && cell >= 40_000 ==> s[n] <= 624 && forall i | 0 <= i < n :: s[i] == Drifting(i))
            && (weak && 4_000 <= cell < 40_000 ==> s[n] <= 1280 && forall i | 0 <= i < n :: s[i] == Bursting(i))
            && (!weak || cell < 4_000 ==> n == cell / 0x1_0000 && forall i | 0 <= i < n :: s[i] == 0)
  {
    hide LongPattern, ShortPattern, Plain, Drifting, Bursting, Duration;
    LongShape(cell, 0, 0);
    LongTime(cell, 0);
    ShortShape(cell, false, 0);
    ShortTime(cell, false);
    var a := AfterLong(cell, weak);
    var b := AfterShort(a.rest, weak);
    PlainShape(b.rest);
    if weak && cell >= 40_000 {
      assert Emitted(cell, weak) == a.samples + Plain(b.rest);
    } else {
      assert Emitted(cell, weak) == b.samples + Plain(b.rest);
    }
  }

  lemma {:induction false} DurationAppend(s: seq<sample>, t: seq<sample>)
    ensures Duration(s + t) == Duration(s) + Duration(t)
  {
    if t == [] {
      assert s + t == s;
    } else {
      DurationAppend(s, t[..|t| - 1]);
      assert (s + t)[..|s + t| - 1] == s + t[..|t| - 1];
    }
  }

  lemma Nothing()
    ensures Duration([]) == 0
  {
  }

  lemma Two(a: sample, b: sample)
    ensures Duration([a]) == Ticks(a) && Duration([a, b]) == Ticks(a) + Ticks(b)
  {
    assert [a][..0] == [] && [a, b][..1] == [a];
  }

  lemma {:induction false} LongTime(cell: nat, delta: nat)
    requires delta <= MAX - MIN
    ensures var p := LongPattern(cell, delta);
            Duration(p.samples) + p.rest == cell && (cell > 0 ==> p.rest > 0) && p.rest <= 2 * MAX
  {
    if 2 * MAX < cell {
      LongTime(cell - MAX - MIN, NextDelta(delta));
      var p := LongPattern(cell - MAX - MIN, NextDelta(delta));
      DurationAppend([MAX - delta, MIN + delta], p.samples);
      Two(MAX - delta, MIN + delta);
    }
  }

  lemma {:induction false} CloseTime(n: nat)
    ensures Duration(Close(n)) == n * CLOSE
  {
    hide Duration;
    Nothing();
    if n > 0 {
      CloseTime(n - 1);
      DurationAppend(Close(n - 1), [CLOSE]);
      Two(CLOSE, CLOSE);
    }
  }

  lemma BurstTime(delta: bool)
    ensures Duration(Burst(delta)) == BurstTicks(delta)
  {
    var first: sample := if delta then 25 * ONE_US else 19 * ONE_US;
    DurationAppend([first], Close(if delta then 6 else 4));
    Two(first, first);
    CloseTime(if delta then 6 else 4);
  }

  lemma {:induction false} ShortTime(cell: nat, delta: bool)
    ensures var p := ShortPattern(cell, delta);
            Duration(p.samples) + p.rest == cell && (cell > 0 ==> p.rest > 0) && p.rest <= 32 * ONE_US
  {
    if 32 * ONE_US < cell {
      var p := ShortPattern(cell - BurstTicks(!delta), !delta);
      ShortTime(cell - BurstTicks(!delta), !delta);
      DurationAppend(Burst(!delta), p.samples);
      BurstTime(!delta);
    }
  }

  lemma {:induction false} PlainTime(cell: nat)
    ensures Duration(Plain(cell)) == cell + (if cell % 0x1_0000 == 0 then 1 else 0)
  {
    if cell >= 0x1_0000 {
      PlainTime(cell - 0x1_0000);
      DurationAppend([0], Plain(cell - 0x1_0000));
      Two(0, 0);
    } else {
      Two(Plain(cell)[0], 1);
    }
  }

  /** Whatever patterns apply, the samples add up to the interval, but for one tick
      where the interval is a multiple of 0x10000 and no pattern applies. */
  lemma EmittedTime(cell: nat, weak: bool)
    ensures Duration(Emitted(cell, weak)) == cell + ExtraTick(cell, weak)
    ensures Emitted(cell, weak) != [] && Emitted(cell, weak)[|Emitted(cell, weak)| - 1] != 0
  {
    var a := AfterLong(cell, weak);
    var b := AfterShort(a.rest, weak);
    LongTime(cell, 0);
    ShortTime(a.rest, false);
    PlainTime(b.rest);
    DurationAppend(a.samples + b.samples, Plain(b.rest));
    DurationAppend(a.samples, b.samples);
    PlainEnds(b.rest);
  }

  lemma {:induction false} PlainEnds(cell: nat)
    ensures Plain(cell) != [] && Plain(cell)[|Plain(cell)| - 1] != 0
  {
    if cell >= 0x1_0000 {
      PlainEnds(cell - 0x1_0000);
    }
  }

  // ----- the loops

  lemma LongStep(cell: nat, delta: nat)
    requires delta <= MAX - MIN && 2 * MAX < cell
    ensures var p := LongPattern(cell - MAX - MIN, NextDelta(delta));
            LongPattern(cell, delta) == Part([MAX - delta, MIN + delta] + p.samples, p.rest)
  {
  }

  lemma ShortStep(cell: nat, delta: bool)
    requires 32 * ONE_US < cell
    ensures var p := ShortPattern(cell - BurstTicks(!delta), !delta);
            ShortPattern(cell, delta) == Part(Burst(!delta) + p.samples, p.rest)
  {
  }

  lemma Assoc(a: seq<sample>, b: seq<sample>, c: seq<sample>)
    ensures a + (b + c) == (a + b) + c
  {
  }

  lemma CloseSteps(n: nat)
    ensures Close(0) == [] && Close(n + 1) == Close(n) + [CLOSE]
  {
  }

  /** emit: appends to what is in dat before start. */
  method Emit(dat: array<sample>, start: nat, interval: nat, weak: bool) returns (j: nat)
    requires start + |Emitted(interval, weak)| <= dat.Length
    modifies dat
    ensures j == start + |Emitted(interval, weak)| && dat[..j] == old(dat[..start]) + Emitted(interval, weak)
  {
    hide LongPattern, ShortPattern, Plain;
    ghost var a := AfterLong(interval, weak);
    ghost var b := AfterShort(a.rest, weak);
    ghost var before := dat[..start];
    var cell := interval;
    j := start;
    if weak && cell >= LONG_WEAK_THRESH {
      j, cell := EmitLong(dat, j, cell);
    }
    assert dat[..j] == before + a.samples;
    if weak && cell >= SHORT_WEAK_THRESH {
      j, cell := EmitShort(dat, j, cell);
    }
    assert dat[..j] == before + a.samples + b.samples;
    j := EmitPlain(dat, j, cell);
    Assoc(before, a.samples, b.samples);
    Assoc(before, a.samples + b.samples, Plain(cell));
  }

  method EmitLong(dat: array<sample>, start: nat, interval: nat) returns (j: nat, cell: nat)
    requires start + |LongPattern(interval, 0).samples| <= dat.Length
    modifies dat
    ensures j == start + |LongPattern(interval, 0).samples|
    ensures dat[..j] == old(dat[..start]) + LongPattern(interval, 0).samples && cell == LongPattern(interval, 0).rest
  {
    ghost var all := LongPattern(interval, 0);
    ghost var before := dat[..start];
    j, cell := start, interval;
    var delta: nat := 0;
    while 2 * MAX < cell
      invariant delta <= MAX - MIN
      invariant j <= dat.Length && before + all.samples == dat[..j] + LongPattern(cell, delta).samples
      invariant all.rest == LongPattern(cell, delta).rest
    {
      hide LongPattern;
      ghost var done := dat[..j];
      LongStep(cell, delta);
      ghost var next := LongPattern(cell - MAX - MIN, NextDelta(delta)).samples;
      Assoc(done, [MAX - delta, MIN + delta], next);
      assert |done + [MAX - delta, MIN + delta] + next| <= dat.Length;
      dat[j] := MAX - delta;
      cell := cell - dat[j];
      j := j + 1;
      assert dat[..j] == done + [MAX - delta];
      dat[j] := MIN + delta;
      cell := cell - dat[j];
      j := j + 1;
      assert dat[..j] == done + [MAX - delta] + [MIN + delta];
      Assoc(done, [MAX - delta], [MIN + delta]);
      assert [MAX - delta] + [MIN + delta] == [MAX - delta, MIN + delta];
      delta := delta + 2 * ONE_US / 10;
      if delta > MAX - MIN {
        delta := 0;
      }
    }
  }

  method EmitShort(dat: array<sample>, start: nat, interval: nat) returns (j: nat, cell: nat)
    requires start + |ShortPattern(interval, false).samples| <= dat.Length
    modifies dat
    ensures j == start + |ShortPattern(interval, false).samples|
    ensures dat[..j] == old(dat[..start]) + ShortPattern(interval, false).samples && cell == ShortPattern(interval, false).rest
  {
    ghost var all := ShortPattern(interval, false);
    ghost var before := dat[..start];
    j, cell := start, interval;
    var delta := false;
    while 32 * ONE_US < cell
      invariant j <= dat.Length && before + all.samples == dat[..j] + ShortPattern(cell, delta).samples
      invariant all.rest == ShortPattern(cell, delta).rest
    {
      hide ShortPattern, Burst;
      ghost var done := dat[..j];
      ShortStep(cell, delta);
      delta := !delta;
      ghost var next := ShortPattern(cell - BurstTicks(delta), delta).samples;
      Assoc(done, Burst(delta), next);
      assert |done + Burst(delta) + next| <= dat.Length;
      j, cell := EmitBurst(dat, j, cell, delta);
    }
  }

  method EmitBurst(dat: array<sample>, start: nat, interval: nat, delta: bool) returns (j: nat, cell: nat)
    requires start + |Burst(delta)| <= dat.Length && BurstTicks(delta) <= interval
    modifies dat
    ensures j == start + |Burst(delta)| && dat[..j] == old(dat[..start]) + Burst(delta)
    ensures cell == interval - BurstTicks(delta)
  {
    ghost var before := dat[..start];
    var long: sample := (19 + (if delta then 6 else 0)) * ONE_US;
    j, cell := start, interval;
    dat[j] := long;
    cell := cell - dat[j];
    j := j + 1;
    assert dat[..j] == before + [long];
    var n := if delta then 6 else 4;
    j, cell := EmitClose(dat, j, cell, n);
    Assoc(before, [long], Close(n));
  }

  method EmitClose(dat: array<sample>, start: nat, interval: nat, n: nat) returns (j: nat, cell: nat)
    requires start + n <= dat.Length && n * CLOSE <= interval
    modifies dat
    ensures j == start + n && dat[..j] == old(dat[..start]) + Close(n)
    ensures cell == interval - n * CLOSE
  {
    hide Close;
    CloseSteps(0);
    ghost var before := dat[..start];
    j, cell := start, interval;
    for i := 0 to n
      invariant j == start + i && dat[..j] == before + Close(i)
      invariant cell == interval - i * CLOSE
    {
      ghost var done := dat[..j];
      CloseSteps(i);
      dat[j] := CLOSE;
      cell := cell - dat[j];
      j := j + 1;
      assert dat[..j] == done + [CLOSE];
      Assoc(before, Close(i), [CLOSE]);
    }
  }

  method EmitPlain(dat: array<sample>, start: nat, interval: nat) returns (j: nat)
    requires start + |Plain(interval)| <= dat.Length
    modifies dat
    ensures j == start + |Plain(interval)| && dat[..j] == old(dat[..start]) + Plain(interval)
  {
    ghost var before := dat[..start];
    var cell := interval;
    j := start;
    while cell >= 0x1_0000
      invariant j <= dat.Length && before + Plain(interval) == dat[..j] + Plain(cell)
    {
      ghost var done := dat[..j];
      Assoc(done, [0], Plain(cell - 0x1_0000));
      assert |done + Plain(cell)| <= dat.Length;
      dat[j] := 0;
      assert dat[..j + 1] == done + [0];
      j := j + 1;
      cell := cell - 0x1_0000;
    }
    ghost var done := dat[..j];
    assert |done + Plain(cell)| <= dat.Length;
    dat[j] := if cell != 0 then cell else 1;
    assert dat[..j + 1] == done + [dat[j]];
    j := j + 1;
  }
}
