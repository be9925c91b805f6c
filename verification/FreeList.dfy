/** The free regions of an emulated memory, as an ordered list. */
module FreeList {

  /** Addresses start to end, both included. */
  datatype Region = Region(start: int, end: int)

  /** In ascending order, inside the memory, none empty, no two touching. */
  ghost predicate Coalesced(l: seq<Region>, lo: int, hi: int)
  {
    && (forall i | 0 <= i < |l| :: lo <= l[i].start <= l[i].end <= hi)
    && (forall i, j | 0 <= i < j < |l| :: l[i].end + 1 < l[j].start)
  }

  predicate Holds(r: Region, a: int)
  {
    r.start <= a <= r.end
  }

  /** Address a is free. */
  ghost predicate Free(l: seq<Region>, a: int)
  {
    exists i | 0 <= i < |l| :: Holds(l[i], a)
  }

  /** The first region that does not end before a. */
  function Find(l: seq<Region>, a: int): (i: nat)
    ensures i <= |l|
    ensures forall j | 0 <= j < i :: l[j].end < a
    ensures i < |l| ==> l[i].end >= a
  {
    if l == [] || l[0].end >= a then 0 else 1 + Find(l[1..], a)
  }

  /** The first region of at least n bytes. */
  function FirstFit(l: seq<Region>, n: int): (i: nat)
    ensures i <= |l|
    ensures forall j | 0 <= j < i :: l[j].end - l[j].start + 1 < n
    ensures i < |l| ==> l[i].end - l[i].start + 1 >= n
  {
    if l == [] || l[0].end - l[0].start + 1 >= n then 0 else 1 + FirstFit(l[1..], n)
  }

  datatype Outcome = AssertFailed | Done(free: seq<Region>)

  /** r in place of region i, unless it is empty. */
  function Trimmed(l: seq<Region>, i: nat, r: Region): seq<Region>
    requires i < |l|
  {
    if r.start > r.end then l[..i] + l[i + 1..] else l[i := r]
  }

  /** mem_reserve on the free list. */
  function Reserve(l: seq<Region>, start: int, bytes: nat): Outcome
  {
    var i, end := Find(l, start), start + bytes - 1;
    if i == |l| || l[i].start > start || l[i].end < end then AssertFailed
    else if l[i].start == start then Done(Trimmed(l, i, Region(end + 1, l[i].end)))
    else if l[i].end == end then Done(Trimmed(l, i, Region(l[i].start, start - 1)))
    else Done(l[..i] + [Region(l[i].start, start - 1), Region(end + 1, l[i].end)] + l[i + 1..])
  }

  datatype Grant = Refused | Granted(addr: int, free: seq<Region>)

  /** mem_alloc on the free list. */
  function Alloc(l: seq<Region>, bytes: nat): Grant
  {
    var i := FirstFit(l, bytes);
    if i == |l| then Refused
    else Granted(l[i].start, Trimmed(l, i, Region(l[i].start + bytes, l[i].end)))
  }

  /** mem_free on the free list. */
  function Release(l: seq<Region>, addr: int, bytes: nat): seq<Region>
  {
    var i := Find(l, addr);
    var m := if i < |l| && l[i].start == addr + bytes then l[i := Region(addr, l[i].end)]
             else l[..i] + [Region(addr, addr + bytes - 1)] + l[i..];
    if i > 0 && m[i - 1].end >= addr - 1 then
      m[..i - 1] + [Region(m[i - 1].start, m[i].end)] + m[i + 1..]
    else m
  }

  // ----- the list is determined by what is free

  lemma HeadIsLeast(l: seq<Region>, lo: int, hi: int, a: int)
    requires Coalesced(l, lo, hi) && l != [] && Free(l, a)
    ensures l[0].start <= a && (a <= l[0].end || Free(l[1..], a))
  {
    var i :| 0 <= i < |l| && Holds(l[i], a);
    if i > 0 {
      assert l[0].end + 1 < l[i].start;
      assert Holds(l[1..][i - 1], a);
    }
  }

  lemma TailStarts(l: seq<Region>, lo: int, hi: int, a: int)
    requires Coalesced(l, lo, hi) && l != [] && Free(l[1..], a)
    ensures Free(l, a) && a > l[0].end + 1
  {
    var i :| 0 <= i < |l[1..]| && Holds(l[1..][i], a);
    assert Holds(l[i + 1], a) && l[0].end + 1 < l[i + 1].start;
  }

  lemma HeadEnds(l: seq<Region>, lo: int, hi: int)
    requires Coalesced(l, lo, hi)
    ensures l != [] ==> forall a | l[0].start <= a <= l[0].end :: Free(l, a)
    ensures l != [] ==> Free(l, l[0].start) && !Free(l, l[0].end + 1)
    ensures l != [] ==> forall a :: Free(l[1..], a) <==> Free(l, a) && a > l[0].end
  {
    if l != [] {
      forall a | l[0].start <= a <= l[0].end ensures Free(l, a) {
        assert Holds(l[0], a);
      }
      forall a ensures (Free(l[1..], a) <==> Free(l, a) && a > l[0].end) && (Free(l, a) ==> a != l[0].end + 1) {
        if Free(l[1..], a) {
          TailStarts(l, lo, hi, a);
        } else if Free(l, a) {
          HeadIsLeast(l, lo, hi, a);
        }
      }
    }
  }

  lemma UpToEnd(l: seq<Region>, a: int)
    requires l != []
    ensures l[0].start <= a <= l[0].end ==> Free(l, a)
  {
    assert Holds(l[0], a) ==> Free(l, a);
  }

  lemma Apart(l: seq<Region>, lo: int, hi: int, i: nat, j: nat)
    requires Coalesced(l, lo, hi) && i < |l| && j < |l|
    ensures i < j ==> l[i].end + 1 < l[j].start
    ensures j < i ==> l[j].end + 1 < l[i].start
    ensures lo <= l[i].start <= l[i].end <= hi
  {
  }

  /** Two coalesced lists with the same free addresses are the same list. */
  lemma {:induction false} Canonical(l: seq<Region>, m: seq<Region>, lo: int, hi: int)
    requires Coalesced(l, lo, hi) && Coalesced(m, lo, hi)
    requires forall a :: Free(l, a) <==> Free(m, a)
    ensures l == m
  {
    HeadEnds(l, lo, hi);
    HeadEnds(m, lo, hi);
    if l != [] && m != [] {
      HeadIsLeast(l, lo, hi, m[0].start);
      HeadIsLeast(m, lo, hi, l[0].start);
      UpToEnd(l, m[0].end + 1);
      UpToEnd(m, l[0].end + 1);
      Canonical(l[1..], m[1..], lo, hi);
    }
  }

  // ----- single edits

  lemma TrimCoalesced(l: seq<Region>, i: nat, r: Region, lo: int, hi: int)
    requires Coalesced(l, lo, hi) && i < |l| && l[i].start <= r.start && r.end <= l[i].end
    ensures Coalesced(Trimmed(l, i, r), lo, hi)
  {
    var m := Trimmed(l, i, r);
    if r.start > r.end {
      forall k, j | 0 <= k < j < |m| ensures m[k].end + 1 < m[j].start {
        assert m[k] == l[if k < i then k else k + 1] && m[j] == l[if j < i then j else j + 1];
      }
    }
  }

  lemma CutAt(l: seq<Region>, i: nat, k: nat)
    requires i < |l| && k < |l| - 1
    ensures (l[..i] + l[i + 1..])[k] == l[if k < i then k else k + 1]
  {
  }

  lemma CutFree(l: seq<Region>, i: nat, lo: int, hi: int, a: int)
    requires Coalesced(l, lo, hi) && i < |l|
    ensures Free(l[..i] + l[i + 1..], a) <==> Free(l, a) && !Holds(l[i], a)
  {
    hide Coalesced;
    var m := l[..i] + l[i + 1..];
    if Free(m, a) {
      var k :| 0 <= k < |m| && Holds(m[k], a);
      CutAt(l, i, k);
      var j := if k < i then k else k + 1;
      assert Holds(l[j], a);
      Apart(l, lo, hi, i, j);
    }
    if Free(l, a) && !Holds(l[i], a) {
      var k :| 0 <= k < |l| && Holds(l[k], a);
      var j := if k < i then k else k - 1;
      CutAt(l, i, j);
      assert Holds(m[j], a);
    }
  }

  lemma UpdateFree(l: seq<Region>, i: nat, r: Region, lo: int, hi: int, a: int)
    requires Coalesced(l, lo, hi) && i < |l| && l[i].start <= r.start && r.end <= l[i].end
    ensures Free(l[i := r], a) <==> Free(l, a) && (Holds(l[i], a) ==> Holds(r, a))
  {
    var m := l[i := r];
    if Free(m, a) {
      var k :| 0 <= k < |m| && Holds(m[k], a);
      assert Holds(l[k], a);
      Apart(l, lo, hi, i, k);
    }
    if Free(l, a) && (Holds(l[i], a) ==> Holds(r, a)) {
      var k :| 0 <= k < |l| && Holds(l[k], a);
      assert Holds(m[k], a);
    }
  }

  lemma TrimFree(l: seq<Region>, i: nat, r: Region, lo: int, hi: int, a: int)
    requires Coalesced(l, lo, hi) && i < |l| && l[i].start <= r.start && r.end <= l[i].end
    ensures Free(Trimmed(l, i, r), a) <==> Free(l, a) && (Holds(l[i], a) ==> Holds(r, a))
  {
    hide Free, Coalesced;
    if r.start > r.end {
      CutFree(l, i, lo, hi, a);
    } else {
      UpdateFree(l, i, r, lo, hi, a);
    }
  }

  /** In a coalesced list a run of free addresses lies in one region. */
  lemma RunInRegion(l: seq<Region>, lo: int, hi: int, from: int, n: nat)
    requires Coalesced(l, lo, hi) && n > 0
    ensures var i := Find(l, from);
            (i < |l| && l[i].start <= from && from + n - 1 <= l[i].end) <==> (forall a | Between(a, from, n) :: Free(l, a))
  {
    var i := Find(l, from);
    if i < |l| && l[i].start <= from && from + n - 1 <= l[i].end {
      forall a | Between(a, from, n) ensures Free(l, a) {
        assert Holds(l[i], a);
      }
    } else if forall a | Between(a, from, n) :: Free(l, a) {
      assert Between(from, from, n);
      var k :| 0 <= k < |l| && Holds(l[k], from);
      Apart(l, lo, hi, i, k);
      PastRegion(l, lo, hi, k);
      RunStops(l, from, n, l[k].end + 1);
    }
  }

  lemma RunStops(l: seq<Region>, from: int, n: nat, a: int)
    requires (forall b | Between(b, from, n) :: Free(l, b)) && !Free(l, a)
    ensures !Between(a, from, n)
  {
  }

  lemma PastRegion(l: seq<Region>, lo: int, hi: int, i: nat)
    requires Coalesced(l, lo, hi) && i < |l|
    ensures !Free(l, l[i].end + 1)
  {
    if Free(l, l[i].end + 1) {
      var k :| 0 <= k < |l| && Holds(l[k], l[i].end + 1);
      Apart(l, lo, hi, i, k);
    }
  }

  predicate Between(a: int, from: int, n: nat)
  {
    from <= a < from + n
  }

  // ----- mem_reserve

  lemma SplitKeeps(l: seq<Region>, i: nat, x: Region, y: Region, lo: int, hi: int)
    requires Coalesced(l, lo, hi) && i < |l|
    requires l[i].start == x.start <= x.end && x.end + 1 < y.start <= y.end == l[i].end
    ensures var m := l[..i] + [x, y] + l[i + 1..];
            && Coalesced(m, lo, hi)
            && forall a :: Free(m, a) <==> Free(l, a) && !(x.end < a < y.start)
  {
    var m := l[..i] + [x, y] + l[i + 1..];
    assert Coalesced(m, lo, hi) by {
      forall k, j | 0 <= k < j < |m| ensures m[k].end + 1 < m[j].start {
        assert m[k] == if k < i then l[k] else if k == i then x else if k == i + 1 then y else l[k - 1];
        assert m[j] == if j < i then l[j] else if j == i then x else if j == i + 1 then y else l[j - 1];
      }
      assert forall k | 0 <= k < |m| :: m[k] == if k < i then l[k] else if k == i then x else if k == i + 1 then y else l[k - 1];
    }
    forall a ensures Free(m, a) <==> Free(l, a) && !(x.end < a < y.start) {
      SplitFree(l, i, x, y, lo, hi, a);
    }
  }

  lemma SplitFree(l: seq<Region>, i: nat, x: Region, y: Region, lo: int, hi: int, a: int)
    requires Coalesced(l, lo, hi) && i < |l|
    requires l[i].start == x.start <= x.end && x.end + 1 < y.start <= y.end == l[i].end
    ensures Free(l[..i] + [x, y] + l[i + 1..], a) <==> Free(l, a) && !(x.end < a < y.start)
  {
    var m := l[..i] + [x, y] + l[i + 1..];
    if Free(m, a) {
      SplitTaken(l, i, x, y, lo, hi, a);
    }
    if Free(l, a) && !(x.end < a < y.start) {
      var k :| 0 <= k < |l| && Holds(l[k], a);
      assert Holds(m[if k < i || (k == i && a <= x.end) then k else k + 1], a);
    }
  }

  lemma SplitTaken(l: seq<Region>, i: nat, x: Region, y: Region, lo: int, hi: int, a: int)
    requires Coalesced(l, lo, hi) && i < |l|
    requires l[i].start == x.start <= x.end && x.end + 1 < y.start <= y.end == l[i].end
    requires Free(l[..i] + [x, y] + l[i + 1..], a)
    ensures Free(l, a) && !(x.end < a < y.start)
  {
    var m := l[..i] + [x, y] + l[i + 1..];
    var k :| 0 <= k < |m| && Holds(m[k], a);
    var j := if k <= i then k else k - 1;
    assert Holds(l[j], a);
    assert j < i ==> l[j].end + 1 < l[i].start;
    assert i < j ==> l[i].end + 1 < l[j].start;
  }

  ghost predicate AllFree(l: seq<Region>, from: int, n: nat)
  {
    forall a | Between(a, from, n) :: Free(l, a)
  }

  ghost predicate NoneFree(l: seq<Region>, from: int, n: nat)
  {
    forall a | Between(a, from, n) :: !Free(l, a)
  }

  /** m has the free addresses of l but for the run. */
  ghost predicate TakenFrom(l: seq<Region>, m: seq<Region>, from: int, n: nat)
  {
    forall a :: Free(m, a) <==> Free(l, a) && !Between(a, from, n)
  }

  /** m has the free addresses of l and those of the run. */
  ghost predicate GivenBack(l: seq<Region>, m: seq<Region>, from: int, n: nat)
  {
    forall a :: Free(m, a) <==> Free(l, a) || Between(a, from, n)
  }

  lemma TrimTakes(l: seq<Region>, i: nat, r: Region, lo: int, hi: int, from: int, n: nat)
    requires Coalesced(l, lo, hi) && i < |l| && n > 0
    requires (l[i].start == from && r == Region(from + n, l[i].end)) || (l[i].end == from + n - 1 && r == Region(l[i].start, from - 1))
    requires l[i].start <= from && from + n - 1 <= l[i].end
    ensures Coalesced(Trimmed(l, i, r), lo, hi) && TakenFrom(l, Trimmed(l, i, r), from, n)
  {
    hide Free, Coalesced, Trimmed;
    TrimCoalesced(l, i, r, lo, hi);
    var m := Trimmed(l, i, r);
    forall a ensures Free(m, a) <==> Free(l, a) && !Between(a, from, n) {
      TrimFree(l, i, r, lo, hi, a);
      RegionFree(l, i, a);
    }
  }

  lemma RegionFree(l: seq<Region>, i: nat, a: int)
    requires i < |l|
    ensures Holds(l[i], a) ==> Free(l, a)
  {
  }

  /** mem_reserve succeeds exactly if the whole range is free, and takes exactly
      that range; the list stays coalesced. */
  lemma ReserveExact(l: seq<Region>, lo: int, hi: int, start: int, bytes: nat)
    requires Coalesced(l, lo, hi) && bytes > 0
    ensures Reserve(l, start, bytes).Done? <==> AllFree(l, start, bytes)
    ensures Reserve(l, start, bytes).Done? ==>
              var m := Reserve(l, start, bytes).free;
              Coalesced(m, lo, hi) && TakenFrom(l, m, start, bytes)
  {
    hide Free, Coalesced, Trimmed, Find;
    RunInRegion(l, lo, hi, start, bytes);
    var i, end := Find(l, start), start + bytes - 1;
    if Reserve(l, start, bytes).Done? {
      if l[i].start == start {
        TrimTakes(l, i, Region(end + 1, l[i].end), lo, hi, start, bytes);
      } else if l[i].end == end {
        TrimTakes(l, i, Region(l[i].start, start - 1), lo, hi, start, bytes);
      } else {
        SplitKeeps(l, i, Region(l[i].start, start - 1), Region(end + 1, l[i].end), lo, hi);
      }
    }
  }

  // ----- mem_alloc

  /** A region of at least n bytes is found if n free bytes follow each other
      anywhere, and none of the regions before it has that many. */
  lemma FitsFirst(l: seq<Region>, lo: int, hi: int, from: int, n: nat)
    requires Coalesced(l, lo, hi) && n > 0 && AllFree(l, from, n)
    ensures var i := FirstFit(l, n); i < |l| && l[i].start <= from
  {
    hide Free;
    RunInRegion(l, lo, hi, from, n);
    var i, k := FirstFit(l, n), Find(l, from);
    assert i <= k;
    Apart(l, lo, hi, i, k);
  }

  /** mem_alloc grants the lowest run of free bytes that is long enough, and
      refuses exactly if there is none. */
  lemma AllocExact(l: seq<Region>, lo: int, hi: int, bytes: nat)
    requires Coalesced(l, lo, hi) && bytes > 0
    ensures var g := Alloc(l, bytes);
            && (g.Refused? ==> forall from :: !AllFree(l, from, bytes))
            && (g.Granted? ==>
                  && AllFree(l, g.addr, bytes)
                  && (forall from | from < g.addr :: !AllFree(l, from, bytes))
                  && Coalesced(g.free, lo, hi) && TakenFrom(l, g.free, g.addr, bytes))
  {
    hide Free, Coalesced, Trimmed, FirstFit;
    var i := FirstFit(l, bytes);
    forall from | AllFree(l, from, bytes) ensures i < |l| && l[i].start <= from {
      FitsFirst(l, lo, hi, from, bytes);
    }
    if i < |l| {
      forall a | Between(a, l[i].start, bytes) ensures Free(l, a) {
        RegionFree(l, i, a);
      }
      TrimTakes(l, i, Region(l[i].start + bytes, l[i].end), lo, hi, l[i].start, bytes);
    }
  }

  // ----- mem_free

  /** The region that a released range becomes part of, and which regions of the
      list it takes the place of: those from the first index up to the second. */
  datatype Merge = Merge(r: Region, p: nat, q: nat)

  function Merged(l: seq<Region>, addr: int, bytes: nat): (m: Merge)
    ensures m.p <= m.q <= |l|
  {
    var i := Find(l, addr);
    var before, behind := i > 0 && l[i - 1].end >= addr - 1, i < |l| && l[i].start == addr + bytes;
    Merge(Region(if before then l[i - 1].start else addr, if behind then l[i].end else addr + bytes - 1),
          if before then i - 1 else i, if behind then i + 1 else i)
  }

  function Spliced(l: seq<Region>, m: Merge): seq<Region>
    requires m.p <= m.q <= |l|
  {
    l[..m.p] + [m.r] + l[m.q..]
  }

  lemma ReleaseIs(l: seq<Region>, addr: int, bytes: nat)
    ensures Release(l, addr, bytes) == Spliced(l, Merged(l, addr, bytes))
  {
    hide Find;
    var i := Find(l, addr);
    var behind := i < |l| && l[i].start == addr + bytes;
    var m := if behind then l[i := Region(addr, l[i].end)] else l[..i] + [Region(addr, addr + bytes - 1)] + l[i..];
    assert m[..i] == l[..i] && m[i + 1..] == l[if behind then i + 1 else i..];
    if i > 0 {
      assert m[i - 1] == l[i - 1] && m[..i - 1] == l[..i - 1];
    }
    assert m == m[..i] + [m[i]] + m[i + 1..];
  }

  lemma SplicedAt(l: seq<Region>, m: Merge, k: nat)
    requires m.p <= m.q <= |l| && k < |l| - (m.q - m.p) + 1
    ensures |Spliced(l, m)| == |l| - (m.q - m.p) + 1
    ensures Spliced(l, m)[k] == if k < m.p then l[k] else if k == m.p then m.r else l[k - m.p - 1 + m.q]
  {
  }

  lemma SpliceCoalesced(l: seq<Region>, m: Merge, lo: int, hi: int)
    requires Coalesced(l, lo, hi) && m.p <= m.q <= |l| && lo <= m.r.start <= m.r.end <= hi
    requires m.p > 0 ==> l[m.p - 1].end + 1 < m.r.start
    requires m.q < |l| ==> m.r.end + 1 < l[m.q].start
    ensures Coalesced(Spliced(l, m), lo, hi)
  {
    hide Spliced;
    var s := Spliced(l, m);
    SplicedAt(l, m, 0);
    forall k | 0 <= k < |s| ensures lo <= s[k].start <= s[k].end <= hi {
      SplicedAt(l, m, k);
    }
    forall j, k | 0 <= j < k < |s| ensures s[j].end + 1 < s[k].start {
      SplicedAt(l, m, j);
      SplicedAt(l, m, k);
    }
  }

  /** Which addresses are free after a splice. */
  lemma SpliceFree(l: seq<Region>, m: Merge, a: int)
    requires m.p <= m.q <= |l|
    requires forall k | m.p <= k < m.q :: Holds(l[k], a) ==> Holds(m.r, a)
    ensures Free(Spliced(l, m), a) <==> Free(l, a) || Holds(m.r, a)
  {
    hide Spliced;
    var s := Spliced(l, m);
    SplicedAt(l, m, m.p);
    if Free(s, a) && !Holds(m.r, a) {
      var k :| 0 <= k < |s| && Holds(s[k], a);
      SplicedAt(l, m, k);
      assert Holds(l[if k < m.p then k else k - m.p - 1 + m.q], a);
    }
    if Free(l, a) && !Holds(m.r, a) {
      var k :| 0 <= k < |l| && Holds(l[k], a);
      var j := if k < m.p then k else k - m.q + m.p + 1;
      SplicedAt(l, m, j);
      assert Holds(s[j], a);
    }
  }

  /** What stands behind the place of a released range that is not free. */
  lemma BehindRange(l: seq<Region>, lo: int, hi: int, addr: int, bytes: nat)
    requires Coalesced(l, lo, hi) && bytes > 0
    ensures var i := Find(l, addr);
            NoneFree(l, addr, bytes) <==> (i < |l| ==> l[i].start >= addr + bytes)
  {
    var i := Find(l, addr);
    if i < |l| && l[i].start < addr + bytes {
      var a := if l[i].start < addr then addr else l[i].start;
      RegionFree(l, i, a);
      assert Between(a, addr, bytes);
    } else {
      forall a | Between(a, addr, bytes) ensures !Free(l, a) {
        BeforeFind(l, lo, hi, addr, a);
      }
    }
  }

  lemma BeforeFind(l: seq<Region>, lo: int, hi: int, addr: int, a: int)
    requires Coalesced(l, lo, hi) && addr <= a
    requires var i := Find(l, addr); i < |l| ==> a < l[i].start
    ensures !Free(l, a)
  {
    if Free(l, a) {
      var k :| 0 <= k < |l| && Holds(l[k], a);
      Apart(l, lo, hi, Find(l, addr), k);
    }
  }

  /** mem_free gives back exactly the range and keeps the list coalesced, if and
      only if no byte of the range was free. */
  lemma ReleaseExact(l: seq<Region>, lo: int, hi: int, addr: int, bytes: nat)
    requires Coalesced(l, lo, hi) && bytes > 0 && lo <= addr && addr + bytes - 1 <= hi
    ensures Coalesced(Release(l, addr, bytes), lo, hi) <==> NoneFree(l, addr, bytes)
    ensures NoneFree(l, addr, bytes) ==> GivenBack(l, Release(l, addr, bytes), addr, bytes)
  {
    hide Find, Free, Spliced, NoneFree;
    var m, i := Merged(l, addr, bytes), Find(l, addr);
    ReleaseIs(l, addr, bytes);
    BehindRange(l, lo, hi, addr, bytes);
    if NoneFree(l, addr, bytes) {
      SpliceCoalesced(l, m, lo, hi);
      forall a ensures Free(Spliced(l, m), a) <==> Free(l, a) || Between(a, addr, bytes) {
        SpliceFree(l, m, a);
        MergedHolds(l, lo, hi, addr, bytes, a);
      }
    } else {
      MergedOverlaps(l, addr, bytes);
      Overlapping(l, m, lo, hi);
    }
  }

  /** The merged region is the range and the free regions that touch it. */
  lemma MergedHolds(l: seq<Region>, lo: int, hi: int, addr: int, bytes: nat, a: int)
    requires Coalesced(l, lo, hi) && bytes > 0
    ensures var m := Merged(l, addr, bytes);
            && (Between(a, addr, bytes) ==> Holds(m.r, a))
            && (Holds(m.r, a) ==> Free(l, a) || Between(a, addr, bytes))
  {
    hide Free;
    var i := Find(l, addr);
    if i < |l| {
      RegionFree(l, i, a);
      Apart(l, lo, hi, i, i);
    }
    if i > 0 {
      RegionFree(l, i - 1, a);
      Apart(l, lo, hi, i - 1, i - 1);
    }
  }

  lemma MergedOverlaps(l: seq<Region>, addr: int, bytes: nat)
    requires var i := Find(l, addr); i < |l| && l[i].start < addr + bytes
    ensures var m := Merged(l, addr, bytes); m.q < |l| && m.r.end + 1 >= l[m.q].start
  {
    hide Find;
  }

  lemma Overlapping(l: seq<Region>, m: Merge, lo: int, hi: int)
    requires m.p <= m.q < |l| && m.r.end + 1 >= l[m.q].start
    ensures !Coalesced(Spliced(l, m), lo, hi)
  {
    SplicedAt(l, m, m.p);
    SplicedAt(l, m, m.p + 1);
  }
}
