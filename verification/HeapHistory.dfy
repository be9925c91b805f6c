/** Whole runs of the memory allocator: what is free and what is held, after any
    sequence of reservations, allocations and releases. */
module HeapHistory {
  import opened FreeList

  // ----- releasing undoes

  /** Freeing what was just allocated gives back the same list, region by region. */
  lemma AllocThenFree(l: seq<Region>, lo: int, hi: int, bytes: nat)
    requires Coalesced(l, lo, hi) && bytes > 0 && Alloc(l, bytes).Granted?
    ensures Release(Alloc(l, bytes).free, Alloc(l, bytes).addr, bytes) == l
  {
    hide Alloc;
    AllocExact(l, lo, hi, bytes);
    var g := Alloc(l, bytes);
    TakenBack(l, g.free, lo, hi, g.addr, bytes);
  }

  lemma ReserveThenFree(l: seq<Region>, lo: int, hi: int, start: int, bytes: nat)
    requires Coalesced(l, lo, hi) && bytes > 0 && Reserve(l, start, bytes).Done?
    ensures Release(Reserve(l, start, bytes).free, start, bytes) == l
  {
    hide Reserve;
    ReserveExact(l, lo, hi, start, bytes);
    TakenBack(l, Reserve(l, start, bytes).free, lo, hi, start, bytes);
  }

  lemma TakenBack(l: seq<Region>, m: seq<Region>, lo: int, hi: int, from: int, n: nat)
    requires Coalesced(l, lo, hi) && Coalesced(m, lo, hi) && n > 0
    requires AllFree(l, from, n) && TakenFrom(l, m, from, n)
    ensures Release(m, from, n) == l
  {
    hide Free, Coalesced, Release;
    RangeInside(l, lo, hi, from, n);
    assert NoneFree(m, from, n);
    ReleaseExact(m, lo, hi, from, n);
    Canonical(Release(m, from, n), l, lo, hi);
  }

  lemma RangeInside(l: seq<Region>, lo: int, hi: int, from: int, n: nat)
    requires Coalesced(l, lo, hi) && n > 0 && AllFree(l, from, n)
    ensures lo <= from && from + n - 1 <= hi
  {
    assert Between(from, from, n) && Between(from + n - 1, from, n);
    FreeInside(l, lo, hi, from);
    FreeInside(l, lo, hi, from + n - 1);
  }

  lemma FreeInside(l: seq<Region>, lo: int, hi: int, a: int)
    requires Coalesced(l, lo, hi) && Free(l, a)
    ensures lo <= a <= hi
  {
  }

  // ----- whole runs

  datatype Block = Block(addr: int, bytes: nat)

  /** Reservations, allocations, and releases of the k-th block that is held. */
  datatype Op = OpReserve(start: int, bytes: nat) | OpAlloc(bytes: nat) | OpFree(k: nat)

  datatype Heap = Heap(free: seq<Region>, held: seq<Block>)

  predicate OpOk(op: Op)
  {
    op.OpFree? || op.bytes > 0
  }

  /** A failed operation changes nothing. */
  function Step(h: Heap, op: Op): Heap
  {
    match op
    case OpReserve(start, bytes) =>
      var r := Reserve(h.free, start, bytes);
      if r.Done? then Heap(r.free, h.held + [Block(start, bytes)]) else h
    case OpAlloc(bytes) =>
      var g := Alloc(h.free, bytes);
      if g.Granted? then Heap(g.free, h.held + [Block(g.addr, bytes)]) else h
    case OpFree(k) =>
      if k < |h.held| then
        Heap(Release(h.free, h.held[k].addr, h.held[k].bytes), h.held[..k] + h.held[k + 1..])
      else h
  }

  /** mem_init, then the operations. */
  function Run(lo: int, hi: int, ops: seq<Op>): Heap
  {
    if ops == [] then Heap([Region(lo, hi)], []) else Step(Run(lo, hi, ops[..|ops| - 1]), ops[|ops| - 1])
  }

  predicate Covers(b: Block, a: int)
  {
    Between(a, b.addr, b.bytes)
  }

  /** Address a belongs to a block that is held. */
  ghost predicate Held(bs: seq<Block>, a: int)
  {
    exists i | 0 <= i < |bs| :: Covers(bs[i], a)
  }

  /** Every address of the memory is either free or in exactly one held block. */
  ghost predicate Partition(h: Heap, lo: int, hi: int)
  {
    && Coalesced(h.free, lo, hi)
    && (forall i | 0 <= i < |h.held| :: lo <= h.held[i].addr && h.held[i].bytes > 0 && h.held[i].addr + h.held[i].bytes - 1 <= hi)
    && (forall i, j, a | 0 <= i < j < |h.held| :: !(Covers(h.held[i], a) && Covers(h.held[j], a)))
    && (forall a | lo <= a <= hi :: Free(h.free, a) <==> !Held(h.held, a))
  }

  lemma TakeKeeps(h: Heap, lo: int, hi: int, m: seq<Region>, b: Block)
    requires Partition(h, lo, hi) && Coalesced(m, lo, hi) && b.bytes > 0
    requires AllFree(h.free, b.addr, b.bytes) && TakenFrom(h.free, m, b.addr, b.bytes)
    ensures Partition(Heap(m, h.held + [b]), lo, hi)
  {
    hide Free, Coalesced;
    RangeInside(h.free, lo, hi, b.addr, b.bytes);
    var bs := h.held + [b];
    forall i, j, a | 0 <= i < j < |bs| ensures !(Covers(bs[i], a) && Covers(bs[j], a)) {
      if j == |h.held| && Covers(b, a) {
        assert Free(h.free, a) && !Held(h.held, a) by {
          assert Between(a, b.addr, b.bytes);
        }
      }
    }
    forall a | lo <= a <= hi ensures Free(m, a) <==> !Held(bs, a) {
      HeldMore(h.held, b, a);
    }
  }

  lemma HeldMore(bs: seq<Block>, b: Block, a: int)
    ensures Held(bs + [b], a) <==> Held(bs, a) || Covers(b, a)
  {
    var cs := bs + [b];
    if Held(bs, a) {
      var i :| 0 <= i < |bs| && Covers(bs[i], a);
      assert Covers(cs[i], a);
    }
    if Covers(b, a) {
      assert Covers(cs[|bs|], a);
    }
  }

  lemma HeldLess(bs: seq<Block>, k: nat, a: int)
    requires k < |bs| && forall i, j, x | 0 <= i < j < |bs| :: !(Covers(bs[i], x) && Covers(bs[j], x))
    ensures Held(bs[..k] + bs[k + 1..], a) <==> Held(bs, a) && !Covers(bs[k], a)
  {
    var cs := bs[..k] + bs[k + 1..];
    if Held(cs, a) {
      var i :| 0 <= i < |cs| && Covers(cs[i], a);
      assert Covers(bs[if i < k then i else i + 1], a);
    }
    if Held(bs, a) && !Covers(bs[k], a) {
      var i :| 0 <= i < |bs| && Covers(bs[i], a);
      assert cs[if i < k then i else i - 1] == bs[i];
    }
  }

  lemma GiveKeeps(h: Heap, lo: int, hi: int, k: nat)
    requires Partition(h, lo, hi) && k < |h.held|
    ensures Partition(Step(h, OpFree(k)), lo, hi)
  {
    hide Free, Coalesced, Release;
    var b, bs := h.held[k], h.held[..k] + h.held[k + 1..];
    forall a | Between(a, b.addr, b.bytes) ensures !Free(h.free, a) {
      assert Covers(h.held[k], a);
    }
    ReleaseExact(h.free, lo, hi, b.addr, b.bytes);
    var m := Release(h.free, b.addr, b.bytes);
    forall a | lo <= a <= hi ensures Free(m, a) <==> !Held(bs, a) {
      HeldLess(h.held, k, a);
    }
    forall i | 0 <= i < |bs| ensures bs[i] == h.held[if i < k then i else i + 1] { }
    assert Step(h, OpFree(k)) == Heap(m, bs);
  }

  lemma StepKeeps(h: Heap, lo: int, hi: int, op: Op)
    requires Partition(h, lo, hi) && OpOk(op)
    ensures Partition(Step(h, op), lo, hi)
  {
    match op {
      case OpReserve(start, bytes) =>
        ReserveExact(h.free, lo, hi, start, bytes);
        if Reserve(h.free, start, bytes).Done? {
          TakeKeeps(h, lo, hi, Reserve(h.free, start, bytes).free, Block(start, bytes));
        }
      case OpAlloc(bytes) =>
        AllocExact(h.free, lo, hi, bytes);
        var g := Alloc(h.free, bytes);
        if g.Granted? {
          TakeKeeps(h, lo, hi, g.free, Block(g.addr, bytes));
        }
      case OpFree(k) =>
        if k < |h.held| {
          GiveKeeps(h, lo, hi, k);
        }
    }
  }

  /** After any sequence of operations the free list is ordered, inside the memory
      and coalesced, and free and held bytes partition the memory. */
  lemma {:induction false} RunPartitions(lo: int, hi: int, ops: seq<Op>)
    requires lo <= hi && forall i | 0 <= i < |ops| :: OpOk(ops[i])
    ensures Partition(Run(lo, hi, ops), lo, hi)
  {
    if ops == [] {
      var l := [Region(lo, hi)];
      forall a | lo <= a <= hi ensures Free(l, a) {
        assert Holds(l[0], a);
      }
    } else {
      RunPartitions(lo, hi, ops[..|ops| - 1]);
      StepKeeps(Run(lo, hi, ops[..|ops| - 1]), lo, hi, ops[|ops| - 1]);
    }
  }
}
