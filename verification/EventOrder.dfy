/** The order in which the event queue keeps and fires events: what any sequence
    of set and unset operations leaves queued. */
module EventOrder {

  /** The queued events, first to fire first, and the time of every event; an
      event whose time is zero counts as not queued. */
  datatype Sim = Sim(queue: seq<nat>, time: seq<nat>)

  ghost predicate IdsOk(s: Sim)
  {
    forall i | 0 <= i < |s.queue| :: s.queue[i] < |s.time|
  }

  /** Exactly the events with a time are queued, once each, in order of time. */
  ghost predicate Consistent(s: Sim)
  {
    && IdsOk(s)
    && Once(s.queue)
    && InOrder(s)
    && (forall e: nat | e < |s.time| :: e in s.queue <==> s.time[e] != 0)
  }

  ghost predicate Once(q: seq<nat>)
  {
    forall i, j | 0 <= i < j < |q| :: q[i] != q[j]
  }

  ghost predicate InOrder(s: Sim)
    requires IdsOk(s)
  {
    forall i, j | 0 <= i < j < |s.queue| :: s.time[s.queue[i]] <= s.time[s.queue[j]]
  }

  /** remove_from_list, on the queue. */
  function Without(q: seq<nat>, e: nat): (r: seq<nat>)
    ensures |r| <= |q|
  {
    if q == [] then [] else if q[0] == e then q[1..] else [q[0]] + Without(q[1..], e)
  }

  /** Where add_to_list puts an event: behind all that are not later. */
  function Place(q: seq<nat>, time: seq<nat>, t: nat): (i: nat)
    requires forall i | 0 <= i < |q| :: q[i] < |time|
    ensures i <= |q|
    ensures forall j | 0 <= j < i :: time[q[j]] <= t
    ensures i < |q| ==> time[q[i]] > t
  {
    if q == [] || time[q[0]] > t then 0 else 1 + Place(q[1..], time, t)
  }

  function Unset(s: Sim, e: nat): (r: Sim)
    requires e < |s.time|
    ensures |r.time| == |s.time|
  {
    if s.time[e] == 0 then s else Sim(Without(s.queue, e), s.time[e := 0])
  }

  lemma {:induction false} RemovedIds(q: seq<nat>, e: nat, n: nat)
    requires forall i | 0 <= i < |q| :: q[i] < n
    ensures forall i | 0 <= i < |Without(q, e)| :: Without(q, e)[i] < n
  {
    if q != [] && q[0] != e {
      RemovedIds(q[1..], e, n);
    }
  }

  function Set(s: Sim, e: nat, t: nat): (r: Sim)
    requires e < |s.time| && IdsOk(s)
    ensures |r.time| == |s.time| && IdsOk(r)
  {
    var u := Unset(s, e);
    RemovedIds(s.queue, e, |s.time|);
    var time := u.time[e := t];
    var i := Place(u.queue, time, t);
    Sim(u.queue[..i] + [e] + u.queue[i..], time)
  }

  // ----- what each operation keeps

  /** In a queue without repetitions one position is taken out. */
  lemma {:induction false} RemovedAt(q: seq<nat>, e: nat, i: nat)
    requires i < |q| && q[i] == e && forall j | 0 <= j < i :: q[j] != e
    ensures Without(q, e) == q[..i] + q[i + 1..]
  {
    if i > 0 {
      RemovedAt(q[1..], e, i - 1);
      assert q[1..][..i - 1] == q[1..i] && q[1..][i..] == q[i + 1..];
    }
  }

  lemma UnsetKeeps(s: Sim, e: nat)
    requires Consistent(s) && e < |s.time|
    ensures Consistent(Unset(s, e)) && e !in Unset(s, e).queue
  {
    if s.time[e] != 0 {
      var i :| 0 <= i < |s.queue| && s.queue[i] == e;
      RemovedAt(s.queue, e, i);
      var q := s.queue[..i] + s.queue[i + 1..];
      CutKeeps(s, e, i, q);
    }
  }

  lemma CutAt(q: seq<nat>, i: nat, a: nat)
    requires i < |q| && a < |q| - 1
    ensures (q[..i] + q[i + 1..])[a] == q[if a < i then a else a + 1]
  {
  }

  lemma CutMembers(q: seq<nat>, i: nat, f: nat)
    requires i < |q| && Once(q)
    ensures f in q[..i] + q[i + 1..] <==> f in q && f != q[i]
  {
    var r := q[..i] + q[i + 1..];
    if f in r {
      var a :| 0 <= a < |r| && r[a] == f;
      CutAt(q, i, a);
    }
    if f in q && f != q[i] {
      var a :| 0 <= a < |q| && q[a] == f;
      CutAt(q, i, if a < i then a else a - 1);
    }
  }

  lemma CutKeeps(s: Sim, e: nat, i: nat, q: seq<nat>)
    requires Consistent(s) && i < |s.queue| && s.queue[i] == e && q == s.queue[..i] + s.queue[i + 1..]
    ensures Consistent(Sim(q, s.time[e := 0])) && e !in q
  {
    var r := Sim(q, s.time[e := 0]);
    forall f: nat ensures f in q <==> f in s.queue && f != e {
      CutMembers(s.queue, i, f);
    }
    forall a, b | 0 <= a < b < |q| ensures q[a] != q[b] && s.time[q[a]] <= s.time[q[b]] {
      CutAt(s.queue, i, a);
      CutAt(s.queue, i, b);
    }
    forall a | 0 <= a < |q| ensures q[a] < |s.time| && q[a] != e {
      assert q[a] in q;
    }
    assert InOrder(r);
  }

  lemma PutAt(q: seq<nat>, e: nat, i: nat, a: nat)
    requires i <= |q| && a <= |q|
    ensures (q[..i] + [e] + q[i..])[a] == if a < i then q[a] else if a == i then e else q[a - 1]
  {
  }

  lemma PutMembers(q: seq<nat>, e: nat, i: nat, f: nat)
    requires i <= |q|
    ensures f in q[..i] + [e] + q[i..] <==> f in q || f == e
  {
    var r := q[..i] + [e] + q[i..];
    PutAt(q, e, i, i);
    if f in q {
      var a :| 0 <= a < |q| && q[a] == f;
      PutAt(q, e, i, if a < i then a else a + 1);
    }
  }

  lemma PutKeeps(s: Sim, e: nat, t: nat, i: nat, q: seq<nat>)
    requires Consistent(s) && e < |s.time| && e !in s.queue && t != 0
    requires i <= |s.queue| && q == s.queue[..i] + [e] + s.queue[i..]
    requires forall j | 0 <= j < i :: s.time[s.queue[j]] <= t
    requires i < |s.queue| ==> s.time[s.queue[i]] > t
    ensures Consistent(Sim(q, s.time[e := t]))
  {
    var r := Sim(q, s.time[e := t]);
    forall f: nat ensures f in q <==> f in s.queue || f == e {
      PutMembers(s.queue, e, i, f);
    }
    forall a | 0 <= a < |q| ensures q[a] < |s.time| {
      assert q[a] in q;
    }
    forall a, b | 0 <= a < b < |q| ensures q[a] != q[b] && r.time[q[a]] <= r.time[q[b]] {
      PutPair(s, e, t, i, q, a, b);
    }
    assert InOrder(r);
  }

  lemma PutPair(s: Sim, e: nat, t: nat, i: nat, q: seq<nat>, a: nat, b: nat)
    requires IdsOk(s) && Once(s.queue) && InOrder(s) && e < |s.time| && e !in s.queue && i <= |s.queue|
    requires q == s.queue[..i] + [e] + s.queue[i..]
    requires forall j | 0 <= j < i :: s.time[s.queue[j]] <= t
    requires i < |s.queue| ==> s.time[s.queue[i]] > t
    requires a < b < |q|
    ensures q[a] < |s.time| && q[b] < |s.time| && q[a] != q[b]
    ensures s.time[e := t][q[a]] <= s.time[e := t][q[b]]
  {
    PutAt(s.queue, e, i, a);
    PutAt(s.queue, e, i, b);
    var x, y := if a < i then a else a - 1, if b < i then b else b - 1;
    if a == i {
      assert s.queue[y] in s.queue && q[b] == s.queue[y];
      assert i == y || s.time[s.queue[i]] <= s.time[s.queue[y]];
    } else if b == i {
      assert s.queue[x] in s.queue && q[a] == s.queue[x];
    } else {
      assert s.queue[x] in s.queue && s.queue[y] in s.queue;
      assert s.queue[x] != s.queue[y] && s.time[s.queue[x]] <= s.time[s.queue[y]];
    }
  }

  lemma {:induction false} PlaceIgnores(q: seq<nat>, time: seq<nat>, e: nat, v: nat, t: nat)
    requires e !in q && e < |time| && forall i | 0 <= i < |q| :: q[i] < |time|
    ensures Place(q, time[e := v], t) == Place(q, time, t)
  {
    if q != [] {
      assert q[0] in q;
      PlaceIgnores(q[1..], time, e, v, t);
    }
  }

  /** Setting an event keeps the queue consistent exactly when the time is not
      zero: zero is what marks an event as not queued. */
  lemma SetKeeps(s: Sim, e: nat, t: nat)
    requires Consistent(s) && e < |s.time|
    ensures Consistent(Set(s, e, t)) <==> t != 0
  {
    hide Place, Unset;
    UnsetKeeps(s, e);
    var u := Unset(s, e);
    var i := Place(u.queue, u.time[e := t], t);
    PlaceIgnores(u.queue, u.time, e, t, t);
    var r := Set(s, e, t);
    assert r == Sim(u.queue[..i] + [e] + u.queue[i..], u.time[e := t]);
    PutMembers(u.queue, e, i, e);
    if t != 0 {
      PutKeeps(u, e, t, i, r.queue);
    } else {
      NotConsistent(r, e);
    }
  }

  lemma NotConsistent(s: Sim, e: nat)
    requires e < |s.time| && e in s.queue && s.time[e] == 0
    ensures !Consistent(s)
  {
  }

  // ----- any sequence of operations

  datatype Op = OpSet(e: nat, t: nat) | OpUnset(e: nat)

  /** Operations on known events, at times that are not zero. */
  ghost predicate OpOk(op: Op, n: nat)
  {
    op.e < n && (op.OpSet? ==> op.t != 0)
  }

  ghost predicate HistoryOk(h: seq<Op>, n: nat)
  {
    forall i | 0 <= i < |h| :: OpOk(h[i], n)
  }

  function Apply(s: Sim, op: Op): (r: Sim)
    requires op.e < |s.time| && IdsOk(s)
    ensures |r.time| == |s.time| && IdsOk(r)
  {
    match op
    case OpSet(e, t) => Set(s, e, t)
    case OpUnset(e) => RemovedIds(s.queue, e, |s.time|); Unset(s, e)
  }

  /** n events, none of them set, and then the operations h. */
  function Play(h: seq<Op>, n: nat): (s: Sim)
    requires forall i | 0 <= i < |h| :: h[i].e < n
    ensures |s.time| == n && IdsOk(s)
  {
    if h == [] then Sim([], seq(n, _ => 0)) else Apply(Play(h[..|h| - 1], n), h[|h| - 1])
  }

  /** When e was last set, counted in operations; 0 if never. */
  function LastSet(h: seq<Op>, e: nat): nat
  {
    if h == [] then 0
    else if h[|h| - 1].OpSet? && h[|h| - 1].e == e then |h|
    else LastSet(h[..|h| - 1], e)
  }

  /** The time e was last set to, 0 if it has been unset since. */
  function TimeOf(h: seq<Op>, e: nat): nat
  {
    if h == [] then 0
    else
      var op := h[|h| - 1];
      if op.e != e then TimeOf(h[..|h| - 1], e)
      else if op.OpSet? then op.t else 0
  }

  /** Earlier time first; at the same time, the one set first. */
  predicate Before(h: seq<Op>, a: nat, b: nat)
  {
    TimeOf(h, a) < TimeOf(h, b) || (TimeOf(h, a) == TimeOf(h, b) && LastSet(h, a) < LastSet(h, b))
  }

  lemma {:induction false} LastSetBound(h: seq<Op>, e: nat)
    ensures LastSet(h, e) <= |h|
  {
    if h != [] {
      LastSetBound(h[..|h| - 1], e);
    }
  }

  lemma {:induction false} TimesPlayed(h: seq<Op>, n: nat)
    requires HistoryOk(h, n)
    ensures forall e: nat | e < n :: Play(h, n).time[e] == TimeOf(h, e)
  {
    if h != [] {
      var g, op := h[..|h| - 1], h[|h| - 1];
      assert OpOk(op, n);
      assert HistoryOk(g, n);
      TimesPlayed(g, n);
      assert Play(h, n) == Apply(Play(g, n), op);
    }
  }

  lemma {:induction false} PlayConsistent(h: seq<Op>, n: nat)
    requires HistoryOk(h, n)
    ensures Consistent(Play(h, n))
  {
    if h != [] {
      var g, op := h[..|h| - 1], h[|h| - 1];
      assert OpOk(op, n);
      assert HistoryOk(g, n);
      PlayConsistent(g, n);
      if op.OpSet? {
        SetKeeps(Play(g, n), op.e, op.t);
      } else {
        UnsetKeeps(Play(g, n), op.e);
      }
    }
  }

  /** The queue is ordered by time, and among equal times by when each event was
      last set. */
  ghost predicate Ordered(h: seq<Op>, q: seq<nat>)
  {
    forall i, j | 0 <= i < j < |q| :: Before(h, q[i], q[j])
  }

  lemma OtherUntouched(h: seq<Op>, op: Op, a: nat)
    ensures a != op.e || op.OpUnset? ==> LastSet(h + [op], a) == LastSet(h, a)
    ensures a != op.e ==> TimeOf(h + [op], a) == TimeOf(h, a)
    ensures op.OpSet? && a == op.e ==> LastSet(h + [op], a) == |h| + 1 && TimeOf(h + [op], a) == op.t
  {
    assert (h + [op])[..|h|] == h;
  }

  /** Taking an event out keeps the order of the others. */
  lemma CutOrdered(h: seq<Op>, op: Op, q: seq<nat>, i: nat)
    requires Ordered(h, q) && Once(q) && i < |q| && q[i] == op.e
    ensures Ordered(h + [op], q[..i] + q[i + 1..])
  {
    hide Before;
    var r := q[..i] + q[i + 1..];
    forall a, b | 0 <= a < b < |r| ensures Before(h + [op], r[a], r[b]) {
      CutAt(q, i, a);
      CutAt(q, i, b);
      SameOrder(h, op, r[a], r[b]);
    }
  }

  lemma SameOrder(h: seq<Op>, op: Op, a: nat, b: nat)
    requires a != op.e && b != op.e && Before(h, a, b)
    ensures Before(h + [op], a, b)
  {
    OtherUntouched(h, op, a);
    OtherUntouched(h, op, b);
  }

  /** An event put behind all that are not later is behind those set before it. */
  lemma PutOrdered(h: seq<Op>, op: Op, s: Sim, i: nat)
    requires Ordered(h, s.queue) && Consistent(s) && op.OpSet? && op.e !in s.queue && i <= |s.queue|
    requires forall e: nat | e < |s.time| && e != op.e :: s.time[e] == TimeOf(h, e)
    requires forall j | 0 <= j < i :: s.time[s.queue[j]] <= op.t
    requires i < |s.queue| ==> s.time[s.queue[i]] > op.t
    ensures Ordered(h + [op], s.queue[..i] + [op.e] + s.queue[i..])
  {
    hide Before, Consistent;
    ConsistentIds(s);
    var q, r := s.queue, s.queue[..i] + [op.e] + s.queue[i..];
    forall a, b | 0 <= a < b < |r| ensures Before(h + [op], r[a], r[b]) {
      PutAt(q, op.e, i, a);
      PutAt(q, op.e, i, b);
      if a == i {
        LaterBehind(h, op, s, i, b - 1);
      } else if b == i {
        EarlierBefore(h, op, s, a);
      } else {
        assert q[if a < i then a else a - 1] in q && q[if b < i then b else b - 1] in q;
        SameOrder(h, op, r[a], r[b]);
      }
    }
  }

  lemma EarlierBefore(h: seq<Op>, op: Op, s: Sim, a: nat)
    requires IdsOk(s) && op.OpSet? && op.e !in s.queue && a < |s.queue|
    requires forall e: nat | e < |s.time| && e != op.e :: s.time[e] == TimeOf(h, e)
    requires s.time[s.queue[a]] <= op.t
    ensures Before(h + [op], s.queue[a], op.e)
  {
    assert s.queue[a] in s.queue;
    OtherUntouched(h, op, s.queue[a]);
    OtherUntouched(h, op, op.e);
    LastSetBound(h, s.queue[a]);
  }

  lemma LaterBehind(h: seq<Op>, op: Op, s: Sim, i: nat, b: nat)
    requires Consistent(s) && op.OpSet? && op.e !in s.queue && i <= b < |s.queue|
    requires forall e: nat | e < |s.time| && e != op.e :: s.time[e] == TimeOf(h, e)
    requires s.time[s.queue[i]] > op.t
    ensures Before(h + [op], op.e, s.queue[b])
  {
    assert s.queue[b] in s.queue && s.time[s.queue[i]] <= s.time[s.queue[b]];
    OtherUntouched(h, op, s.queue[b]);
    OtherUntouched(h, op, op.e);
  }

  /** Unsetting an event that is not queued changes nothing. */
  lemma IdleOrdered(h: seq<Op>, op: Op, q: seq<nat>)
    requires Ordered(h, q) && op.e !in q
    ensures Ordered(h + [op], q)
  {
    hide Before;
    forall a, b | 0 <= a < b < |q| ensures Before(h + [op], q[a], q[b]) {
      assert q[a] in q && q[b] in q;
      SameOrder(h, op, q[a], q[b]);
    }
  }

  lemma UnsetOrdered(h: seq<Op>, op: Op, s: Sim)
    requires Consistent(s) && Ordered(h, s.queue) && op.e < |s.time|
    ensures Ordered(h + [op], Unset(s, op.e).queue)
  {
    hide Ordered, Without;
    if s.time[op.e] != 0 {
      var i :| 0 <= i < |s.queue| && s.queue[i] == op.e;
      RemovedAt(s.queue, op.e, i);
      CutOrdered(h, op, s.queue, i);
    } else {
      IdleOrdered(h, op, s.queue);
    }
  }

  /** After any sequence of operations the queue holds exactly the events that
      were set and not unset since, once each, by time, first set first. */
  lemma {:induction false} QueueOrdered(h: seq<Op>, n: nat)
    requires HistoryOk(h, n)
    ensures Ordered(h, Play(h, n).queue)
    ensures Once(Play(h, n).queue)
    ensures forall e: nat | e < n :: e in Play(h, n).queue <==> TimeOf(h, e) != 0
  {
    hide Ordered, Consistent, Once, TimeOf, Play;
    PlayConsistent(h, n);
    TimesPlayed(h, n);
    QueuedOnce(Play(h, n));
    if h == [] {
      NothingPlayed(n);
    } else {
      var g, op := h[..|h| - 1], h[|h| - 1];
      assert h == g + [op] && OpOk(op, n) && HistoryOk(g, n);
      QueueOrdered(g, n);
      StepOrdered(g, op, n);
      LastPlayed(g, op, n);
    }
  }

  lemma QueuedOnce(s: Sim)
    requires Consistent(s)
    ensures Once(s.queue) && forall e: nat | e < |s.time| :: e in s.queue <==> s.time[e] != 0
  {
  }

  lemma NothingPlayed(n: nat)
    ensures Ordered([], Play([], n).queue)
  {
  }

  lemma LastPlayed(g: seq<Op>, op: Op, n: nat)
    requires HistoryOk(g, n) && OpOk(op, n)
    ensures HistoryOk(g + [op], n) && Play(g + [op], n) == Apply(Play(g, n), op)
  {
    assert (g + [op])[..|g|] == g;
  }

  lemma StepOrdered(g: seq<Op>, op: Op, n: nat)
    requires HistoryOk(g, n) && OpOk(op, n) && Ordered(g, Play(g, n).queue)
    ensures Ordered(g + [op], Apply(Play(g, n), op).queue)
  {
    hide Ordered, Consistent;
    var s := Play(g, n);
    PlayConsistent(g, n);
    TimesPlayed(g, n);
    UnsetOrdered(g, op, s);
    if op.OpSet? {
      var u := Unset(s, op.e);
      UnsetKeeps(s, op.e);
      UnsetOrder(g, op, s);
      ConsistentIds(u);
      PlaceIgnores(u.queue, u.time, op.e, op.t, op.t);
      PutOrdered(g, op, u, Place(u.queue, u.time, op.t));
    }
  }

  lemma ConsistentIds(s: Sim)
    requires Consistent(s)
    ensures IdsOk(s)
  {
  }

  /** The order of the others also holds as judged before the operation. */
  lemma UnsetOrder(h: seq<Op>, op: Op, s: Sim)
    requires Consistent(s) && Ordered(h, s.queue) && op.e < |s.time|
    ensures Ordered(h, Unset(s, op.e).queue)
  {
    hide Ordered, Without;
    if s.time[op.e] != 0 {
      var i :| 0 <= i < |s.queue| && s.queue[i] == op.e;
      RemovedAt(s.queue, op.e, i);
      CutOrder(h, s.queue, i);
    }
  }

  lemma CutOrder(h: seq<Op>, q: seq<nat>, i: nat)
    requires Ordered(h, q) && i < |q|
    ensures Ordered(h, q[..i] + q[i + 1..])
  {
    hide Before;
    var r := q[..i] + q[i + 1..];
    forall a, b | 0 <= a < b < |r| ensures Before(h, r[a], r[b]) {
      CutAt(q, i, a);
      CutAt(q, i, b);
    }
  }
}
