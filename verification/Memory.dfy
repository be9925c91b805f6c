/** One block of emulated memory and its list of free regions. */
module Memory {
  import opened Bits
  import opened LinkedList
  import opened FreeList

  const FREED: byte := 0xaa

  class Mem {
    const start: int
    const end: int
    const dat: array<byte>
    const free: List<Region>

    ghost predicate Valid()
      reads this, free, free.spine
    {
      start <= end && dat.Length == end - start + 1 && free.Valid()
    }

    /** mem_init. */
    constructor (start: int, bytes: nat)
      requires bytes > 0
      ensures Valid() && this.start == start && end == start + bytes - 1
      ensures fresh(free) && fresh(dat) && fresh(free.spine)
      ensures free.Vals() == [Region(start, start + bytes - 1)]
    {
      this.start, end := start, start + bytes - 1;
      dat := new byte[bytes](_ => 0);
      var regions := new List<Region>();
      var all := new Node(Region(start, start + bytes - 1));
      regions.InsertAt(null, all, 0);
      free := regions;
    }

    /** find_memory, for a range and a single block. */
    predicate Contains(addr: int, bytes: nat)
    {
      start <= addr && addr + bytes - 1 <= end
    }

    /** The walk over the regions that end before addr. */
    method FindRegion(addr: int) returns (prev: Node?<Region>, r: Node?<Region>, ghost i: nat)
      requires Valid()
      ensures i <= |free.spine| && r == Nth(free.spine, i)
      ensures prev == if i == 0 then null else free.spine[i - 1]
      ensures i == Find(free.Vals(), addr)
    {
      hide Distinct, Find;
      i, prev, r := 0, null, free.head;
      while r != null && r.val.end < addr
        invariant 0 <= i <= |free.spine|
        invariant r == Nth(free.spine, i)
        invariant prev == if i == 0 then null else free.spine[i - 1]
        invariant forall j | 0 <= j < i :: free.Vals()[j].end < addr
        decreases |free.spine| - i
      {
        prev := r;
        r := r.next;
        i := i + 1;
      }
      FindIs(free.Vals(), addr, i);
    }

    /** What mem_reserve and mem_alloc do with the region they have shortened. */
    method Shorten(prev: Node?<Region>, r: Node<Region>, v: Region, ghost i: nat)
      requires Valid() && i < |free.spine| && r == free.spine[i]
      requires prev == if i == 0 then null else free.spine[i - 1]
      modifies free, free.spine
      ensures Valid() && free.Vals() == Trimmed(old(free.Vals()), i, v)
      ensures fresh(set n | n in free.spine && n !in old(free.spine))
    {
      hide Distinct, Chained;
      free.Store(r, v, i);
      if r.val.start > r.val.end {
        free.RemoveAt(prev, r, i);
        CutStored(old(free.Vals()), i, v);
      }
    }

    /** What mem_reserve does with a region it takes the middle out of. */
    method Split(r: Node<Region>, x: Region, y: Region, ghost i: nat)
      requires Valid() && i < |free.spine| && r == free.spine[i]
      modifies free, free.spine
      ensures Valid() && free.Vals() == old(free.Vals()[..i] + [x, y] + free.Vals()[i + 1..])
      ensures fresh(set n | n in free.spine && n !in old(free.spine))
    {
      hide Distinct, Chained;
      var n := new Node(y);
      free.Store(r, x, i);
      free.InsertAt(r, n, i + 1);
      TwoForOne(old(free.Vals()), i, x, y);
    }

    /** mem_reserve; ok is false where the source's assertions fail. */
    method MemReserve(addr: int, bytes: nat) returns (ok: bool)
      requires Valid()
      modifies free, free.spine
      ensures Valid()
      ensures var r := Reserve(old(free.Vals()), addr, bytes);
              if !Contains(addr, bytes) || r.AssertFailed? then !ok && free.Vals() == old(free.Vals())
              else ok && free.Vals() == r.free
      ensures fresh(set n | n in free.spine && n !in old(free.spine))
    {
      hide Distinct, Chained, Find, Trimmed;
      var last := addr + bytes - 1;
      if !Contains(addr, bytes) {
        return false;
      }
      var prev, r, i := FindRegion(addr);
      if r == null || r.val.start > addr || r.val.end < last {
        return false;
      }
      var v := r.val;
      if v.start == addr {
        Shorten(prev, r, Region(last + 1, v.end), i);
      } else if v.end == last {
        Shorten(prev, r, Region(v.start, addr - 1), i);
      } else {
        Split(r, Region(v.start, addr - 1), Region(last + 1, v.end), i);
      }
      return true;
    }

    /** mem_alloc; the source returns address zero when it refuses. */
    method MemAlloc(bytes: nat) returns (ok: bool, addr: int)
      requires Valid()
      modifies free, free.spine
      ensures Valid()
      ensures var g := Alloc(old(free.Vals()), bytes);
              if g.Refused? then !ok && addr == 0 && free.Vals() == old(free.Vals())
              else ok && addr == g.addr && free.Vals() == g.free
      ensures fresh(set n | n in free.spine && n !in old(free.spine))
    {
      hide Distinct, FirstFit, Trimmed;
      ghost var l, i := free.Vals(), 0;
      var prev: Node?<Region>, r := null, free.head;
      while r != null && r.val.end - r.val.start + 1 < bytes
        invariant 0 <= i <= |free.spine|
        invariant r == Nth(free.spine, i)
        invariant prev == if i == 0 then null else free.spine[i - 1]
        invariant free.Valid() && free.Vals() == l && free.spine == old(free.spine)
        invariant forall j | 0 <= j < i :: l[j].end - l[j].start + 1 < bytes
        decreases |free.spine| - i
      {
        prev := r;
        r := r.next;
        i := i + 1;
      }
      FitIs(l, bytes, i);
      if r == null {
        return false, 0;
      }
      addr := r.val.start;
      Shorten(prev, r, Region(addr + bytes, r.val.end), i);
      ok := true;
    }

    /** The first half of mem_free: the range as a region of its own, or as a part
        of the one right behind it. */
    method PutRegion(addr: int, bytes: nat) returns (prev: Node?<Region>, r: Node<Region>, ghost i: nat)
      requires Valid()
      modifies free, free.spine
      ensures Valid()
      ensures i == Find(old(free.Vals()), addr)
      ensures i < |free.spine| && r == free.spine[i] && prev == if i == 0 then null else free.spine[i - 1]
      ensures var l := old(free.Vals());
              free.Vals() == if i < |l| && l[i].start == addr + bytes then l[i := Region(addr, l[i].end)]
                             else l[..i] + [Region(addr, addr + bytes - 1)] + l[i..]
      ensures fresh(set n | n in free.spine && n !in old(free.spine))
    {
      hide Distinct, Chained, Find;
      var at: Node?<Region>;
      prev, at, i := FindRegion(addr);
      if at != null && at.val.start == addr + bytes {
        r := at;
        free.Store(r, Region(r.val.start - bytes, r.val.end), i);
      } else {
        r := new Node(Region(addr, addr + bytes - 1));
        free.InsertAt(prev, r, i);
      }
    }

    /** The list part of mem_free. */
    method ReturnRegion(addr: int, bytes: nat)
      requires Valid()
      modifies free, free.spine
      ensures Valid() && free.Vals() == Release(old(free.Vals()), addr, bytes)
      ensures fresh(set n | n in free.spine && n !in old(free.spine))
    {
      hide Distinct, Chained, Find;
      var prev, r, i := PutRegion(addr, bytes);
      ghost var m := free.Vals();
      if prev != null && prev.val.end >= addr - 1 {
        ghost var v := Region(prev.val.start, r.val.end);
        free.Store(prev, Region(prev.val.start, r.val.end), i - 1);
        free.RemoveAt(prev, r, i);
        OneForTwo(m, i, v);
      }
    }

    /** memset on the bytes of a range. */
    method Fill(addr: int, bytes: nat, b: byte)
      requires Valid() && Contains(addr, bytes)
      modifies dat
      ensures forall k | 0 <= k < dat.Length ::
                dat[k] == if addr - start <= k < addr - start + bytes then b else old(dat[k])
    {
      for k := 0 to bytes
        invariant forall j | 0 <= j < dat.Length ::
                    dat[j] == if addr - start <= j < addr - start + k then b else old(dat[j])
      {
        dat[addr - start + k] := b;
      }
    }

    /** mem_free; ok is false where the source's assertion fails. */
    method MemFree(addr: int, bytes: nat) returns (ok: bool)
      requires Valid()
      modifies free, free.spine, dat
      ensures Valid() && ok == Contains(addr, bytes)
      ensures free.Vals() == if ok then Release(old(free.Vals()), addr, bytes) else old(free.Vals())
      ensures forall k | 0 <= k < dat.Length ::
                dat[k] == if ok && addr - start <= k < addr - start + bytes then FREED else old(dat[k])
      ensures fresh(set n | n in free.spine && n !in old(free.spine))
    {
      hide Distinct, Chained, Release;
      if !Contains(addr, bytes) {
        return false;
      }
      ReturnRegion(addr, bytes);
      Fill(addr, bytes, FREED);
      ok := true;
    }
  }

  lemma FitIs(l: seq<Region>, n: int, i: nat)
    requires i <= |l|
    requires forall j | 0 <= j < i :: l[j].end - l[j].start + 1 < n
    requires i < |l| ==> l[i].end - l[i].start + 1 >= n
    ensures i == FirstFit(l, n)
  {
  }

  lemma OneForTwo(m: seq<Region>, i: nat, v: Region)
    requires 0 < i < |m|
    ensures var n := m[i - 1 := v]; n[..i] + n[i + 1..] == m[..i - 1] + [v] + m[i + 1..]
  {
  }

  lemma FindIs(l: seq<Region>, addr: int, i: nat)
    requires i <= |l|
    requires forall j | 0 <= j < i :: l[j].end < addr
    requires i < |l| ==> l[i].end >= addr
    ensures i == Find(l, addr)
  {
  }

  lemma CutStored(l: seq<Region>, i: nat, v: Region)
    requires i < |l|
    ensures l[i := v][..i] + l[i := v][i + 1..] == l[..i] + l[i + 1..]
  {
  }

  lemma TwoForOne(l: seq<Region>, i: nat, x: Region, y: Region)
    requires i < |l|
    ensures var m := l[i := x]; m[..i + 1] + [y] + m[i + 1..] == l[..i] + [x, y] + l[i + 1..]
  {
  }
}
