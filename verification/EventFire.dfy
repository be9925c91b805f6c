/** Firing: which events a call of fire_events reaches, and in which order. */
module EventFire {
  import opened EventOrder

  /** What the callback of an event does, given how many have fired before it. */
  type Callbacks = (nat, nat) -> seq<Op>

  /** Callbacks work on known events and schedule strictly later than now. */
  ghost predicate SchedulesLater(cbs: Callbacks, now: nat, n: nat)
  {
    forall e: nat, k: nat, i: nat | i < |cbs(e, k)| :: LaterOp(cbs(e, k)[i], now, n)
  }

  ghost predicate LaterOp(op: Op, now: nat, n: nat)
  {
    op.e < n && (op.OpSet? ==> op.t > now)
  }

  ghost predicate AllLater(ops: seq<Op>, now: nat, n: nat)
    ensures AllLater(ops, now, n) ==> Known(ops, n)
  {
    forall i {:trigger ops[i]} | 0 <= i < |ops| :: LaterOp(ops[i], now, n)
  }

  predicate Known(ops: seq<Op>, n: nat)
  {
    forall i | 0 <= i < |ops| :: ops[i].e < n
  }

  function ApplyAll(s: Sim, ops: seq<Op>): (r: Sim)
    requires IdsOk(s) && Known(ops, |s.time|)
    ensures |r.time| == |s.time| && IdsOk(r)
  {
    if ops == [] then s else Apply(ApplyAll(s, ops[..|ops| - 1]), ops[|ops| - 1])
  }

  /** The events that are due, in queue order. */
  function Due(q: seq<nat>, time: seq<nat>, now: nat): (d: seq<nat>)
    requires forall i | 0 <= i < |q| :: q[i] < |time|
    ensures |d| <= |q| && d == q[..|d|]
  {
    if q == [] || time[q[0]] > now then [] else [q[0]] + Due(q[1..], time, now)
  }

  function DueIn(s: Sim, now: nat): seq<nat>
    requires IdsOk(s)
  {
    Due(s.queue, s.time, now)
  }

  // ----- callbacks never make anything due

  lemma {:induction false} DueIgnores(q: seq<nat>, time: seq<nat>, e: nat, v: nat, now: nat)
    requires e !in q && e < |time| && forall i | 0 <= i < |q| :: q[i] < |time|
    ensures Due(q, time[e := v], now) == Due(q, time, now)
  {
    if q != [] {
      assert q[0] in q;
      DueIgnores(q[1..], time, e, v, now);
    }
  }

  /** Taking an event out of an ordered queue takes it out of what is due. */
  lemma {:induction false} DueRemoved(q: seq<nat>, time: seq<nat>, e: nat, now: nat)
    requires forall i | 0 <= i < |q| :: q[i] < |time|
    requires forall i, j | 0 <= i < j < |q| :: time[q[i]] <= time[q[j]]
    ensures (forall i | 0 <= i < |Without(q, e)| :: Without(q, e)[i] < |time|)
         && Due(Without(q, e), time, now) == Without(Due(q, time, now), e)
  {
    RemovedIds(q, e, |time|);
    if q != [] {
      DueRemoved(q[1..], time, e, now);
      if time[q[0]] > now {
        assert Without(q, e) == [] || time[Without(q, e)[0]] > now;
      } else if q[0] != e {
        assert Due(q, time, now)[1..] == Due(q[1..], time, now);
        assert Without(q, e)[1..] == Without(q[1..], e);
      }
    }
  }

  /** Putting an event in that is not due changes nothing of what is due. */
  lemma {:induction false} DuePut(q: seq<nat>, time: seq<nat>, e: nat, i: nat, now: nat)
    requires e < |time| && time[e] > now && i <= |q|
    requires forall j | 0 <= j < |q| :: q[j] < |time|
    requires i < |q| ==> time[q[i]] > now
    ensures var r := q[..i] + [e] + q[i..];
            && (forall j | 0 <= j < |r| :: r[j] < |time|)
            && Due(r, time, now) == Due(q, time, now)
  {
    var r := q[..i] + [e] + q[i..];
    if i > 0 {
      DuePut(q[1..], time, e, i - 1, now);
      assert r[1..] == q[1..][..i - 1] + [e] + q[1..][i - 1..];
    }
  }

  lemma {:induction false} NotRemoved(d: seq<nat>, e: nat)
    requires e !in d
    ensures Without(d, e) == d
  {
    if d != [] {
      assert d[0] in d;
      NotRemoved(d[1..], e);
    }
  }

  lemma UnsetDue(s: Sim, e: nat, now: nat)
    requires Consistent(s) && e < |s.time|
    ensures Consistent(Unset(s, e)) && DueIn(Unset(s, e), now) == Without(DueIn(s, now), e)
  {
    UnsetKeeps(s, e);
    var u := Unset(s, e);
    if s.time[e] == 0 {
      NotRemoved(DueIn(s, now), e);
    } else {
      DueRemoved(s.queue, s.time, e, now);
      DueIgnores(u.queue, s.time, e, 0, now);
    }
  }

  lemma ApplyDue(s: Sim, op: Op, now: nat)
    requires Consistent(s) && LaterOp(op, now, |s.time|)
    ensures Consistent(Apply(s, op)) && DueIn(Apply(s, op), now) == Without(DueIn(s, now), op.e)
  {
    UnsetDue(s, op.e, now);
    if op.OpSet? {
      SetKeeps(s, op.e, op.t);
      var u := Unset(s, op.e);
      UnsetKeeps(s, op.e);
      var time := u.time[op.e := op.t];
      DueIgnores(u.queue, u.time, op.e, op.t, now);
      DuePut(u.queue, time, op.e, Place(u.queue, time, op.t), now);
    }
  }

  /** What is left of a list of events when some have been set or unset. */
  function Untouched(d: seq<nat>, ops: seq<Op>): (r: seq<nat>)
    ensures |r| <= |d|
  {
    if ops == [] then d else Without(Untouched(d, ops[..|ops| - 1]), ops[|ops| - 1].e)
  }

  lemma {:induction false} ApplyAllDue(s: Sim, ops: seq<Op>, now: nat)
    requires Consistent(s) && AllLater(ops, now, |s.time|)
    ensures Consistent(ApplyAll(s, ops)) && DueIn(ApplyAll(s, ops), now) == Untouched(DueIn(s, now), ops)
  {
    if ops != [] {
      ApplyAllDue(s, ops[..|ops| - 1], now);
      ApplyDue(ApplyAll(s, ops[..|ops| - 1]), ops[|ops| - 1], now);
    }
  }

  // ----- fire_events

  datatype Firing = Firing(s: Sim, fired: seq<nat>)

  lemma HeadFires(s: Sim, now: nat)
    requires Consistent(s) && s.queue != [] && s.time[s.queue[0]] <= now
    ensures var r := Unset(s, s.queue[0]);
            && Consistent(r) && r == Sim(s.queue[1..], s.time[s.queue[0] := 0])
            && DueIn(s, now) == [s.queue[0]] + DueIn(r, now)
  {
    var e := s.queue[0];
    assert e in s.queue;
    UnsetDue(s, e, now);
  }

  /** The head of the queue while it is due: unset it, then run its callback. */
  function Fire(s: Sim, now: nat, cbs: Callbacks, k: nat): (r: Firing)
    requires Consistent(s) && SchedulesLater(cbs, now, |s.time|)
    ensures Consistent(r.s) && |r.s.time| == |s.time|
    decreases |DueIn(s, now)|
  {
    if s.queue == [] || s.time[s.queue[0]] > now then Firing(s, [])
    else
      var e := s.queue[0];
      HeadFires(s, now);
      var u := Sim(s.queue[1..], s.time[e := 0]);
      ApplyAllDue(u, cbs(e, k), now);
      var r := Fire(ApplyAll(u, cbs(e, k)), now, cbs, k + 1);
      Firing(r.s, [e] + r.fired)
  }

  /** Going down a list of due events, skipping those that an event fired
      before has set or unset. */
  function Walk(d: seq<nat>, cbs: Callbacks, k: nat): seq<nat>
    decreases |d|
  {
    if d == [] then [] else [d[0]] + Walk(Untouched(d[1..], cbs(d[0], k)), cbs, k + 1)
  }

  /** fire_events fires the events that are due when it is called, in queue order,
      leaving out exactly those that a callback has set or unset in the meantime;
      it returns, and then nothing is due. */
  lemma {:induction false} FiresWhatIsDue(s: Sim, now: nat, cbs: Callbacks, k: nat)
    requires Consistent(s) && SchedulesLater(cbs, now, |s.time|)
    ensures Fire(s, now, cbs, k).fired == Walk(DueIn(s, now), cbs, k)
    ensures DueIn(Fire(s, now, cbs, k).s, now) == []
    decreases |DueIn(s, now)|
  {
    if s.queue != [] && s.time[s.queue[0]] <= now {
      var e := s.queue[0];
      HeadFires(s, now);
      var u := Unset(s, e);
      ApplyAllDue(u, cbs(e, k), now);
      FiresWhatIsDue(ApplyAll(u, cbs(e, k)), now, cbs, k + 1);
      assert DueIn(s, now)[1..] == DueIn(u, now);
    }
  }

  /** Nothing due means that no event has a time that has come. */
  lemma NothingDue(s: Sim, now: nat)
    requires Consistent(s) && DueIn(s, now) == []
    ensures forall e: nat | e < |s.time| && s.time[e] != 0 :: s.time[e] > now
  {
    forall e: nat | e < |s.time| && s.time[e] != 0 ensures s.time[e] > now {
      assert e in s.queue;
      var i :| 0 <= i < |s.queue| && s.queue[i] == e;
      assert s.time[s.queue[0]] <= s.time[s.queue[i]];
    }
  }

  /** Without interference every due event fires, in order. */
  lemma {:induction false} WalkAll(d: seq<nat>, cbs: Callbacks, k: nat)
    requires forall e: nat, j: nat :: cbs(e, j) == []
    ensures Walk(d, cbs, k) == d
    decreases |d|
  {
    if d != [] {
      WalkAll(d[1..], cbs, k + 1);
    }
  }

  // ----- firing as a history of set and unset

  lemma {:induction false} PlayOn(h: seq<Op>, ops: seq<Op>, n: nat)
    requires HistoryOk(h, n) && HistoryOk(ops, n)
    ensures Known(ops, n) && HistoryOk(h + ops, n)
    ensures Play(h + ops, n) == ApplyAll(Play(h, n), ops)
  {
    if ops == [] {
      assert h + ops == h;
    } else {
      var front := ops[..|ops| - 1];
      assert OpOk(ops[|ops| - 1], n);
      assert HistoryOk(front, n);
      PlayOn(h, front, n);
      assert (h + ops)[..|h + ops| - 1] == h + front;
    }
  }

  /** What a call of fire_events amounts to: each event that fires is unset, and then
      its callback works. */
  ghost function FireOps(s: Sim, now: nat, cbs: Callbacks, k: nat): seq<Op>
    requires Consistent(s) && SchedulesLater(cbs, now, |s.time|)
    decreases |DueIn(s, now)|
  {
    if s.queue == [] || s.time[s.queue[0]] > now then []
    else
      var e := s.queue[0];
      HeadFires(s, now);
      var u := Unset(s, e);
      ApplyAllDue(u, cbs(e, k), now);
      [OpUnset(e)] + cbs(e, k) + FireOps(ApplyAll(u, cbs(e, k)), now, cbs, k + 1)
  }

  lemma OneFires(s: Sim, now: nat, cbs: Callbacks, k: nat)
    requires Consistent(s) && SchedulesLater(cbs, now, |s.time|) && s.queue != [] && s.time[s.queue[0]] <= now
    ensures var e := s.queue[0];
            && e < |s.time| && IdsOk(s) && IdsOk(Unset(s, e)) && AllLater(cbs(e, k), now, |s.time|)
            && var v := ApplyAll(Unset(s, e), cbs(e, k));
               && Consistent(v) && |v.time| == |s.time| && |DueIn(v, now)| < |DueIn(s, now)|
               && FireOps(s, now, cbs, k) == [OpUnset(e)] + cbs(e, k) + FireOps(v, now, cbs, k + 1)
               && Fire(s, now, cbs, k).s == Fire(v, now, cbs, k + 1).s
  {
    HeadFires(s, now);
    ApplyAllDue(Unset(s, s.queue[0]), cbs(s.queue[0], k), now);
  }

  lemma NoneFires(s: Sim, now: nat, cbs: Callbacks, k: nat)
    requires Consistent(s) && SchedulesLater(cbs, now, |s.time|) && (s.queue == [] || s.time[s.queue[0]] > now)
    ensures FireOps(s, now, cbs, k) == [] && Fire(s, now, cbs, k).s == s
  {
  }

  /** A firing is one way of setting and unsetting events. */
  lemma {:induction false} FiringIsHistory(h: seq<Op>, n: nat, now: nat, cbs: Callbacks, k: nat)
    requires HistoryOk(h, n) && SchedulesLater(cbs, now, n)
    ensures Consistent(Play(h, n))
    ensures var ops := FireOps(Play(h, n), now, cbs, k);
            HistoryOk(h + ops, n) && Fire(Play(h, n), now, cbs, k).s == Play(h + ops, n)
    decreases |DueIn(Play(h, n), now)|
  {
    hide Consistent, SchedulesLater, FireOps, Fire, Play, ApplyAll, DueIn, AllLater, Unset;
    PlayConsistent(h, n);
    var s := Play(h, n);
    ConsistentIds(s);
    if s.queue == [] || s.time[s.queue[0]] > now {
      NoneFires(s, now, cbs, k);
      assert h + [] == h;
    } else {
      var e := s.queue[0];
      var ops := [OpUnset(e)] + cbs(e, k);
      OneFires(s, now, cbs, k);
      CallbackOk(s, e, cbs, now, k);
      PlayOn(h, ops, n);
      UnsetFirst(s, e, cbs(e, k));
      FiringIsHistory(h + ops, n, now, cbs, k + 1);
      var rest := FireOps(Play(h + ops, n), now, cbs, k + 1);
      assert h + (ops + rest) == h + ops + rest;
    }
  }

  lemma CallbackOk(s: Sim, e: nat, cbs: Callbacks, now: nat, k: nat)
    requires e < |s.time| && SchedulesLater(cbs, now, |s.time|)
    ensures HistoryOk([OpUnset(e)] + cbs(e, k), |s.time|)
  {
    var ops := [OpUnset(e)] + cbs(e, k);
    forall i | 0 <= i < |ops| ensures OpOk(ops[i], |s.time|) {
      assert i > 0 ==> LaterOp(cbs(e, k)[i - 1], now, |s.time|);
    }
  }

  lemma {:induction false} UnsetFirst(s: Sim, e: nat, ops: seq<Op>)
    requires IdsOk(s) && e < |s.time| && Known(ops, |s.time|)
    ensures Known([OpUnset(e)] + ops, |s.time|) && IdsOk(Unset(s, e))
    ensures ApplyAll(s, [OpUnset(e)] + ops) == ApplyAll(Unset(s, e), ops)
  {
    RemovedIds(s.queue, e, |s.time|);
    var all := [OpUnset(e)] + ops;
    if ops != [] {
      UnsetFirst(s, e, ops[..|ops| - 1]);
      assert all[..|all| - 1] == [OpUnset(e)] + ops[..|ops| - 1];
    } else {
      assert all[..0] == [];
    }
  }

  /** Calls from outside: set, unset and fire_events. */
  datatype Call = Do(op: Op) | FireAt(now: nat, cbs: Callbacks)

  ghost predicate CallsOk(calls: seq<Call>, n: nat)
  {
    forall i | 0 <= i < |calls| :: CallOk(calls[i], n)
  }

  ghost predicate CallOk(c: Call, n: nat)
  {
    match c
    case Do(op) => OpOk(op, n)
    case FireAt(now, cbs) => SchedulesLater(cbs, now, n)
  }

  /** n events, and then the calls. */
  ghost function After(calls: seq<Call>, n: nat): (s: Sim)
    requires CallsOk(calls, n)
    ensures Consistent(s) && |s.time| == n
    decreases |calls|
  {
    if |calls| == 0 then
      PlayConsistent([], n);
      Play([], n)
    else
      var s, c := After(calls[..|calls| - 1], n), calls[|calls| - 1];
      assert CallOk(c, n);
      DoneConsistent(s, c);
      Done(s, c)
  }

  ghost function Done(s: Sim, c: Call): Sim
    requires Consistent(s) && CallOk(c, |s.time|)
  {
    match c
    case Do(op) => Apply(s, op)
    case FireAt(now, cbs) => Fire(s, now, cbs, 0).s
  }

  lemma DoneConsistent(s: Sim, c: Call)
    requires Consistent(s) && CallOk(c, |s.time|)
    ensures Consistent(Done(s, c)) && |Done(s, c).time| == |s.time|
  {
    if c.Do? {
      if c.op.OpSet? {
        SetKeeps(s, c.op.e, c.op.t);
      } else {
        UnsetKeeps(s, c.op.e);
      }
    }
  }

  /** All sets and unsets of a sequence of calls, those made by callbacks too. */
  ghost function Deeds(calls: seq<Call>, n: nat): seq<Op>
    requires CallsOk(calls, n)
    decreases |calls|
  {
    if |calls| == 0 then []
    else
      var front, c := calls[..|calls| - 1], calls[|calls| - 1];
      assert CallOk(c, n);
      Deeds(front, n) + (if c.Do? then [c.op] else FireOps(After(front, n), c.now, c.cbs, 0))
  }

  /** After any sequence of set, unset and fire_events the queue holds exactly the
      events that were set and not unset since, once each, by time, and first set
      first among equals. */
  lemma {:induction false} QueueOrderedAfterFiring(calls: seq<Call>, n: nat)
    requires CallsOk(calls, n)
    ensures var h, q := Deeds(calls, n), After(calls, n).queue;
            && HistoryOk(h, n) && After(calls, n) == Play(h, n)
            && Ordered(h, q) && Once(q) && forall e: nat | e < n :: e in q <==> TimeOf(h, e) != 0
    decreases |calls|
  {
    DeedsPlayed(calls, n);
    QueueOrdered(Deeds(calls, n), n);
  }

  lemma {:induction false} DeedsPlayed(calls: seq<Call>, n: nat)
    requires CallsOk(calls, n)
    ensures HistoryOk(Deeds(calls, n), n) && After(calls, n) == Play(Deeds(calls, n), n)
    decreases |calls|
  {
    if |calls| > 0 {
      var front, c := calls[..|calls| - 1], calls[|calls| - 1];
      assert CallOk(c, n);
      DeedsPlayed(front, n);
      var h := Deeds(front, n);
      if c.Do? {
        assert HistoryOk([c.op], n);
        PlayOn(h, [c.op], n);
        assert [c.op][..0] == [];
      } else {
        FiringIsHistory(h, n, c.now, c.cbs, 0);
      }
    }
  }
}
