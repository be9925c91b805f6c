/** The event queue itself: a linked list of the events that have been set. */
module EventQueue {
  import opened LinkedList
  import opened EventOrder
  import opened EventFire

  datatype Event = Event(id: nat, time: nat)

  function Ids(l: seq<Event>): (q: seq<nat>)
    ensures |q| == |l| && forall i | 0 <= i < |l| :: q[i] == l[i].id
  {
    seq(|l|, i requires 0 <= i < |l| => l[i].id)
  }

  function Times(l: seq<Event>): (q: seq<nat>)
    ensures |q| == |l| && forall i | 0 <= i < |l| :: q[i] == l[i].time
  {
    seq(|l|, i requires 0 <= i < |l| => l[i].time)
  }

  /** Every node of the list is the one allocated under its number. */
  ghost predicate Drawn(spine: seq<Node<Event>>, events: seq<Node<Event>>)
    reads spine
  {
    forall i | 0 <= i < |spine| :: spine[i].val.id < |events| && events[spine[i].val.id] == spine[i]
  }

  class EventBase {
    const active: List<Event>
    /** All events that have been allocated, in order of allocation. */
    var events: seq<Node<Event>>
    var now: nat

    /** The list is a list of allocated events, numbered as they were allocated. */
    ghost predicate Shaped()
      reads this, active, active.spine, events
    {
      && active.Valid() && Distinct(events)
      && (forall i | 0 <= i < |events| :: events[i].val.id == i)
      && Drawn(active.spine, events)
    }

    ghost function View(): Sim
      reads this, active, active.spine, events
    {
      Sim(Ids(active.Vals()), Times(ValsOf(events)))
    }

    ghost predicate Valid()
      reads this, active, active.spine, events
    {
      Shaped() && Consistent(View())
    }

    constructor ()
      ensures Valid() && fresh(active) && events == [] && View() == Sim([], [])
    {
      active := new List<Event>();
      events := [];
      now := 0;
      new;
      assert Ids(active.Vals()) == [] && Times(ValsOf(events)) == [];
    }

    /** event_alloc. */
    method EventAlloc() returns (e: nat)
      requires Valid()
      modifies this`events
      ensures Valid() && e == |old(events)| && |events| == e + 1 && events[..e] == old(events) && fresh(events[e])
      ensures View() == Sim(old(View()).queue, old(View()).time + [0])
    {
      var node := new Node(Event(|events|, 0));
      e := |events|;
      events := events + [node];
      assert Times(ValsOf(events)) == old(Times(ValsOf(events))) + [0];
      MoreEvents(old(View()), View());
    }

    /** remove_from_list, for an event that is queued. */
    method RemoveFromList(node: Node<Event>)
      requires Shaped() && Once(View().queue) && node in active.spine
      modifies active, active.spine`next
      ensures Shaped() && node !in active.spine
      ensures View() == Sim(Without(old(View()).queue, node.val.id), old(View()).time)
      ensures forall n | n in active.spine :: n in old(active.spine)
    {
      hide Distinct, Chained, Without;
      ghost var q := View().queue;
      ghost var i := 0;
      ghost var k :| 0 <= k < |active.spine| && active.spine[k] == node;
      var prev: Node?<Event>, cur := null, active.head;
      while cur != node
        modifies {}
        invariant 0 <= i <= k
        invariant cur == Nth(active.spine, i)
        invariant prev == if i == 0 then null else active.spine[i - 1]
        decreases k - i
      {
        NextOfNode(active.spine, i);
        prev := cur;
        cur := cur.next;
        i := i + 1;
      }
      RemovedAt(q, node.val.id, i);
      active.RemoveAt(prev, node, i);
      IdsCut(old(active.Vals()), active.Vals(), i);
    }

    /** The walk of add_to_list: to the first event that is later than t. */
    method FindLater(t: nat) returns (prev: Node?<Event>, ghost i: nat)
      requires Shaped() && IdsOk(View())
      ensures i <= |active.spine| && prev == if i == 0 then null else active.spine[i - 1]
      ensures i == Place(View().queue, View().time, t)
    {
      hide Distinct, Chained, Place;
      i := 0;
      prev := null;
      var cur := active.head;
      while cur != null && cur.val.time <= t
        invariant 0 <= i <= |active.spine|
        invariant cur == Nth(active.spine, i)
        invariant prev == if i == 0 then null else active.spine[i - 1]
        invariant forall j | 0 <= j < i :: active.spine[j].val.time <= t
        decreases |active.spine| - i
      {
        NextOfNode(active.spine, i);
        prev := cur;
        cur := cur.next;
        i := i + 1;
      }
      QueuedTimes(events, active.spine, View());
      PlaceIs(View().queue, View().time, t, i);
    }

    /** add_to_list, for an event that is not queued. */
    method AddToList(node: Node<Event>)
      requires Shaped() && IdsOk(View()) && node in events && node !in active.spine
      modifies active, active.spine`next, node`next
      ensures Shaped()
      ensures var s := old(View());
              var i := Place(s.queue, s.time, node.val.time);
              View() == Sim(s.queue[..i] + [node.val.id] + s.queue[i..], s.time)
      ensures node in active.spine
    {
      hide Distinct, Chained, Place;
      var prev, i := FindLater(node.val.time);
      active.InsertAt(prev, node, i);
      IdsPut(old(active.Vals()), active.Vals(), i, node.val);
      assert active.spine[i] == node;
    }

    /** event_unset. */
    method EventUnset(e: nat)
      requires Valid() && e < |events|
      modifies active, events
      ensures Valid() && View() == Unset(old(View()), e)
    {
      hide Distinct, Chained, Without;
      UnsetKeeps(View(), e);
      var node := events[e];
      if node.val.time == 0 {
        return;
      }
      QueuedNode(events, active.spine, View(), e);
      RemoveFromList(node);
      node.val := Event(e, 0);
      assert View().time == old(View()).time[e := 0];
    }

    /** event_set.  Time zero stands for an event that is not queued: set to it, an
        event is queued and counts as not queued. */
    method EventSet(e: nat, t: nat)
      requires Valid() && e < |events|
      modifies active, events
      ensures Shaped() && View() == Set(old(View()), e, t)
      ensures Valid() <==> t != 0
    {
      hide Distinct, Chained, Place, Unset, Consistent;
      SetKeeps(View(), e, t);
      UnsetKeeps(View(), e);
      EventUnset(e);
      var node := events[e];
      ghost var s := View();
      NotQueued(events, active.spine, s, e);
      node.val := Event(e, t);
      assert View() == Sim(s.queue, s.time[e := t]);
      ConsistentIds(s);
      AddToList(node);
    }

    /** What a callback does to the queue. */
    method RunCallback(ops: seq<Op>)
      requires Valid() && AllLater(ops, now, |events|)
      modifies active, events
      ensures Valid() && IdsOk(old(View())) && View() == ApplyAll(old(View()), ops)
    {
      ghost var s := View();
      assert |s.time| == |events|;
      assert forall i | 0 <= i < |ops| :: LaterOp(ops[i], now, |events|);
      hide Distinct, Chained, Set, Unset, ApplyAll, Consistent, Shaped, View;
      ConsistentIds(s);
      NoOps(s, ops);
      for i := 0 to |ops|
        invariant Valid() && Known(ops[..i], |s.time|) && View() == ApplyAll(s, ops[..i])
      {
        OneMoreOp(s, ops, i);
        assert LaterOp(ops[i], now, |events|);
        if ops[i].OpSet? {
          EventSet(ops[i].e, ops[i].t);
        } else {
          EventUnset(ops[i].e);
        }
      }
      assert ops[..|ops|] == ops;
    }

    /** What the rest of a firing has to do: fired is what has fired so far. */
    ghost predicate Underway(result: Firing, fired: seq<nat>, cbs: Callbacks)
      reads this, active, active.spine, events
    {
      && Consistent(View()) && SchedulesLater(cbs, now, |View().time|)
      && result == Joined(fired, Fire(View(), now, cbs, |fired|))
    }

    /** fire_events; fired lists the events whose callbacks have run, in order. */
    method FireEvents(cbs: Callbacks) returns (fired: seq<nat>)
      requires Valid() && SchedulesLater(cbs, now, |events|)
      modifies active, events
      ensures Valid()
      ensures Firing(View(), fired) == Fire(old(View()), now, cbs, 0)
    {
      assert Consistent(View()) && |View().time| == |events|;
      hide *;
      fired := [];
      ghost var result := Fire(View(), now, cbs, 0);
      FiringBegins(result, cbs);
      while active.head != null && active.head.val.time <= now
        invariant Valid() && SchedulesLater(cbs, now, |events|) && Underway(result, fired, cbs)
        decreases |DueIn(View(), now)|
      {
        var e := FireHead(cbs, result, fired);
        fired := fired + [e];
      }
      FiringEnds(result, fired, cbs);
    }

    lemma FiringBegins(result: Firing, cbs: Callbacks)
      requires Consistent(View()) && SchedulesLater(cbs, now, |View().time|) && result == Fire(View(), now, cbs, 0)
      ensures Underway(result, [], cbs)
    {
      hide Fire, View;
      JoinNone(result, []);
    }

    lemma FiringEnds(result: Firing, fired: seq<nat>, cbs: Callbacks)
      requires Valid() && (active.head == null || active.head.val.time > now) && Underway(result, fired, cbs)
      ensures result == Firing(View(), fired)
    {
      hide Fire, Valid, View, SchedulesLater;
      NoHeadDue();
      FireStep(View(), now, cbs, |fired|);
      JoinNone(Firing(View(), []), fired);
    }

    lemma NoHeadDue()
      requires Valid() && (active.head == null || active.head.val.time > now)
      ensures |View().time| == |events|
      ensures View().queue == [] || (View().queue[0] < |View().time| && View().time[View().queue[0]] > now)
      ensures Consistent(View())
    {
      hide Distinct, Chained, Consistent;
      HeadQueued(events, active.spine, View());
    }

    /** One pass of the loop of fire_events. */
    method FireHead(cbs: Callbacks, ghost result: Firing, fired: seq<nat>) returns (e: nat)
      requires Valid() && SchedulesLater(cbs, now, |events|) && Underway(result, fired, cbs)
      requires active.head != null && active.head.val.time <= now
      modifies active, events
      ensures Valid() && Underway(result, fired + [e], cbs)
      ensures |DueIn(View(), now)| < |DueIn(old(View()), now)|
    {
      hide Distinct, Chained, Fire, Consistent, SchedulesLater, Due, Apply, ApplyAll;
      ghost var s := View();
      FireStep(s, now, cbs, |fired|);
      HeadQueued(events, active.spine, s);
      e := TakeHead();
      RunCallback(cbs(e, |fired|));
      assert View() == ApplyAll(Sim(s.queue[1..], s.time[e := 0]), cbs(e, |fired|));
      JoinOne(fired, e, Fire(View(), now, cbs, |fired| + 1));
    }

    /** The first part of the loop of fire_events. */
    method TakeHead() returns (e: nat)
      requires Valid() && active.spine != []
      modifies active, events
      ensures var s := old(View());
              && s.queue != [] && e == s.queue[0] < |s.time|
              && Valid() && View() == Sim(s.queue[1..], s.time[e := 0])
    {
      hide Distinct, Chained, Consistent;
      ghost var s := View();
      HeadQueued(events, active.spine, s);
      HeadLeaves(s);
      var node := active.head;
      e := node.val.id;
      active.RemoveAt(null, node, 0);
      IdsCut(old(active.Vals()), active.Vals(), 0);
      node.val := Event(e, 0);
      assert View().time == s.time[e := 0];
      assert s.queue[..0] + s.queue[1..] == s.queue[1..];
    }
  }

  /** A firing with the events that were fired before it. */
  function Joined(before: seq<nat>, r: Firing): Firing
  {
    Firing(r.s, before + r.fired)
  }

  lemma JoinOne(before: seq<nat>, e: nat, r: Firing)
    ensures Joined(before, Firing(r.s, [e] + r.fired)) == Joined(before + [e], r)
  {
    assert before + ([e] + r.fired) == before + [e] + r.fired;
  }

  lemma JoinNone(r: Firing, before: seq<nat>)
    ensures Joined([], r) == r
    ensures r.fired == [] ==> Joined(before, r) == Firing(r.s, before)
  {
    assert [] + r.fired == r.fired;
  }

  lemma HeadLeaves(s: Sim)
    requires Consistent(s) && s.queue != []
    ensures s.queue[0] < |s.time| && Consistent(Sim(s.queue[1..], s.time[s.queue[0] := 0]))
  {
    var e := s.queue[0];
    assert e in s.queue;
    UnsetKeeps(s, e);
  }

  lemma NotQueued(events: seq<Node<Event>>, spine: seq<Node<Event>>, s: Sim, e: nat)
    requires forall i | 0 <= i < |events| :: events[i].val.id == i
    requires Drawn(spine, events)
    requires s == Sim(Ids(ValsOf(spine)), Times(ValsOf(events))) && Consistent(s)
    requires e < |events| && e !in s.queue
    ensures events[e] !in spine
  {
    QueuedNode(events, spine, s, e);
    assert s.time[e] == events[e].val.time;
  }

  /** The head of a list of events that has not been unset is the first queued. */
  lemma HeadQueued(events: seq<Node<Event>>, spine: seq<Node<Event>>, s: Sim)
    requires forall i | 0 <= i < |events| :: events[i].val.id == i
    requires Drawn(spine, events)
    requires s == Sim(Ids(ValsOf(spine)), Times(ValsOf(events)))
    ensures s.queue == [] <==> spine == []
    ensures spine != [] ==> s.queue[0] == spine[0].val.id < |s.time| && s.time[s.queue[0]] == spine[0].val.time
  {
    QueuedTimes(events, spine, s);
  }

  lemma FireStep(s: Sim, now: nat, cbs: Callbacks, k: nat)
    requires Consistent(s) && SchedulesLater(cbs, now, |s.time|)
    ensures s.queue == [] || s.time[s.queue[0]] > now ==> Fire(s, now, cbs, k) == Firing(s, [])
    ensures s.queue != [] && s.time[s.queue[0]] <= now ==>
              var e := s.queue[0];
              var u := Sim(s.queue[1..], s.time[e := 0]);
              && e < |s.time| && Consistent(u) && IdsOk(u) && Known(cbs(e, k), |s.time|) && AllLater(cbs(e, k), now, |s.time|)
              && var a := ApplyAll(u, cbs(e, k));
                 && Consistent(a) && |a.time| == |s.time|
                 && Fire(s, now, cbs, k)
                    == Firing(Fire(a, now, cbs, k + 1).s, [e] + Fire(a, now, cbs, k + 1).fired)
                 && |DueIn(a, now)| < |DueIn(s, now)|
  {
    hide ApplyAll, Due;
    if s.queue != [] && s.time[s.queue[0]] <= now {
      var e := s.queue[0];
      HeadFires(s, now);
      CallbackLater(cbs, now, |s.time|, e, k);
      ApplyAllDue(Sim(s.queue[1..], s.time[e := 0]), cbs(e, k), now);
    }
  }

  lemma CallbackLater(cbs: Callbacks, now: nat, n: nat, e: nat, k: nat)
    requires SchedulesLater(cbs, now, n)
    ensures AllLater(cbs(e, k), now, n)
  {
  }

  lemma NoOps(s: Sim, ops: seq<Op>)
    requires IdsOk(s)
    ensures Known(ops[..0], |s.time|) && ApplyAll(s, ops[..0]) == s
  {
    assert ops[..0] == [];
  }

  lemma OneMoreOp(s: Sim, ops: seq<Op>, i: nat)
    requires IdsOk(s) && Known(ops, |s.time|) && i < |ops|
    ensures Known(ops[..i], |s.time|) && Known(ops[..i + 1], |s.time|) && ops[i].e < |s.time|
    ensures ApplyAll(s, ops[..i + 1]) == Apply(ApplyAll(s, ops[..i]), ops[i])
  {
    assert ops[..i + 1][..i] == ops[..i];
  }

  /** The times in the view are those of the queued nodes. */
  lemma QueuedTimes(events: seq<Node<Event>>, spine: seq<Node<Event>>, s: Sim)
    requires forall i | 0 <= i < |events| :: events[i].val.id == i
    requires Drawn(spine, events)
    requires s == Sim(Ids(ValsOf(spine)), Times(ValsOf(events)))
    ensures forall i | 0 <= i < |spine| :: s.queue[i] < |s.time| && s.time[s.queue[i]] == spine[i].val.time
  {
  }

  /** An event with a time has its node in the list. */
  lemma QueuedNode(events: seq<Node<Event>>, spine: seq<Node<Event>>, s: Sim, e: nat)
    requires forall i | 0 <= i < |events| :: events[i].val.id == i
    requires Drawn(spine, events)
    requires s == Sim(Ids(ValsOf(spine)), Times(ValsOf(events))) && Consistent(s)
    requires e < |events|
    ensures events[e].val.time != 0 <==> events[e] in spine
  {
    assert s.time[e] == events[e].val.time;
    if e in s.queue {
      var i :| 0 <= i < |s.queue| && s.queue[i] == e;
      assert spine[i].val.id == e;
    }
    if events[e] in spine {
      var i :| 0 <= i < |spine| && spine[i] == events[e];
      assert ValsOf(spine)[i].id == e;
      assert s.queue[i] == e;
    }
  }

  lemma {:induction false} PlaceIs(q: seq<nat>, time: seq<nat>, t: nat, i: nat)
    requires i <= |q| && forall j | 0 <= j < |q| :: q[j] < |time|
    requires forall j | 0 <= j < i :: time[q[j]] <= t
    requires i < |q| ==> time[q[i]] > t
    ensures Place(q, time, t) == i
  {
    if i > 0 {
      PlaceIs(q[1..], time, t, i - 1);
    }
  }

  lemma IdsCut(l: seq<Event>, m: seq<Event>, i: nat)
    requires i < |l| && m == l[..i] + l[i + 1..]
    ensures Ids(m) == Ids(l)[..i] + Ids(l)[i + 1..]
  {
  }

  lemma IdsPut(l: seq<Event>, m: seq<Event>, i: nat, v: Event)
    requires i <= |l| && m == l[..i] + [v] + l[i..]
    ensures Ids(m) == Ids(l)[..i] + [v.id] + Ids(l)[i..]
  {
  }

  lemma MoreEvents(s: Sim, r: Sim)
    requires Consistent(s) && r == Sim(s.queue, s.time + [0])
    ensures Consistent(r)
  {
  }
}
