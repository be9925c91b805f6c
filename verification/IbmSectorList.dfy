/** The list of sectors decoded so far, ordered by their distance from the index
    pulse.  A sector met again on a later revolution lands within 1000 cells of
    the entry it made the first time. */
module IbmSectorList {
  import opened Bits
  import opened Crc
  import opened LinkedList

  const NEAR: int := 1000

  datatype Idam = Idam(cyl: byte, head: byte, sec: byte, no: byte)

  datatype PSector = PSector(offset: int, endOffset: int, idam: Idam, mark: byte, crc: Reg, dat: seq<byte>)

  predicate Good(r: PSector)
  {
    r.crc == Zeros(16)
  }

  /** The first entry that does not lie at least 1000 cells before off. */
  function Place(l: seq<PSector>, off: int): (i: nat)
    ensures i <= |l|
    ensures forall j | 0 <= j < i :: off - l[j].offset >= NEAR
    ensures i < |l| ==> off - l[i].offset < NEAR
  {
    if l == [] || off - l[0].offset < NEAR then 0 else 1 + Place(l[1..], off)
  }

  /** What one decoded sector does to the list. */
  function Insert(l: seq<PSector>, r: PSector): seq<PSector>
  {
    var i := Place(l, r.offset);
    if i < |l| && l[i].offset - r.offset < NEAR then
      if r.idam == l[i].idam && Good(r) && !Good(l[i]) then l[i := r] else l
    else l[..i] + [r] + l[i..]
  }

  /** The sectors of a whole read, in the order in which they are met. */
  function InsertAll(l: seq<PSector>, rs: seq<PSector>): seq<PSector>
  {
    if rs == [] then l else Insert(InsertAll(l, rs[..|rs| - 1]), rs[|rs| - 1])
  }

  ghost predicate AllGood(l: seq<PSector>)
  {
    forall i | 0 <= i < |l| :: Good(l[i])
  }

  /** Entries at least 1000 cells apart, in ascending order. */
  ghost predicate Spaced(l: seq<PSector>)
  {
    forall i, j | 0 <= i < j < |l| :: l[i].offset + 1000 <= l[j].offset
  }

  /** Entries in ascending order, and none within 1000 cells after a bad one. */
  ghost predicate Ascending(l: seq<PSector>)
  {
    && (forall i, j | 0 <= i < j < |l| :: l[i].offset < l[j].offset)
    && (forall i, j | 0 <= i < j < |l| :: !Good(l[i]) ==> l[i].offset + 1000 <= l[j].offset)
  }

  /** r replaces a bad reading of the same sector and thereby comes within 1000 cells
      of the entry behind it. */
  predicate Crowds(l: seq<PSector>, r: PSector)
  {
    var i := Place(l, r.offset);
    && i < |l| && l[i].offset - r.offset < NEAR
    && r.idam == l[i].idam && Good(r) && !Good(l[i])
    && i + 1 < |l| && l[i + 1].offset < r.offset + NEAR
  }

  /** One sector more keeps the entries 1000 cells apart, except in exactly that case. */
  lemma SpacedUnlessCrowded(l: seq<PSector>, r: PSector)
    requires Spaced(l)
    ensures Spaced(Insert(l, r)) <==> !Crowds(l, r)
  {
    hide Good;
    var i := Place(l, r.offset);
    var m := Insert(l, r);
    if i < |l| && l[i].offset - r.offset < NEAR {
      if m != l {
        assert Crowds(l, r) ==> m[i].offset + NEAR > m[i + 1].offset;
        assert forall b | i + 1 < b < |l| :: l[i + 1].offset + NEAR <= l[b].offset;
      }
    } else {
      SpliceSpaced(l, i, r);
    }
  }

  lemma SpliceSpaced(l: seq<PSector>, i: nat, r: PSector)
    requires Spaced(l) && i <= |l|
    requires forall j | 0 <= j < i :: r.offset - l[j].offset >= NEAR
    requires i < |l| ==> l[i].offset - r.offset >= NEAR
    ensures Spaced(l[..i] + [r] + l[i..])
  {
    var m := l[..i] + [r] + l[i..];
    forall a, b | 0 <= a < b < |m| ensures m[a].offset + NEAR <= m[b].offset {
      assert i < |l| ==> r.offset + NEAR <= l[i].offset;
    }
  }

  lemma InsertKeepsGood(l: seq<PSector>, r: PSector)
    requires AllGood(l) && Good(r)
    ensures AllGood(Insert(l, r)) && !Crowds(l, r)
  {
    hide Good;
    var i := Place(l, r.offset);
    assert i < |l| ==> Good(l[i]);
  }

  lemma InsertKeepsAscending(l: seq<PSector>, r: PSector)
    requires Ascending(l)
    ensures Ascending(Insert(l, r))
  {
    hide Good, Ascending;
    var i := Place(l, r.offset);
    if i < |l| && l[i].offset - r.offset < NEAR {
      if Insert(l, r) != l {
        ReplaceAscending(l, i, r);
      }
    } else {
      SpliceAscending(l, i, r);
    }
  }

  lemma ReplaceAscending(l: seq<PSector>, i: nat, r: PSector)
    requires Ascending(l) && i < |l| && Good(r) && !Good(l[i]) && l[i].offset - r.offset < NEAR
    requires r.offset - l[i].offset < NEAR
    requires forall j | 0 <= j < i :: r.offset - l[j].offset >= NEAR
    ensures Ascending(l[i := r])
  {
    hide Good;
    assert forall b | i < b < |l| :: l[i].offset + NEAR <= l[b].offset;
  }

  lemma SpliceAscending(l: seq<PSector>, i: nat, r: PSector)
    requires Ascending(l) && i <= |l|
    requires forall j | 0 <= j < i :: r.offset - l[j].offset >= NEAR
    requires i < |l| ==> l[i].offset - r.offset >= NEAR
    ensures Ascending(l[..i] + [r] + l[i..])
  {
    hide Good;
    var m := l[..i] + [r] + l[i..];
    forall b | i <= b < |l| ensures r.offset + NEAR <= l[b].offset {
      assert b > i ==> l[i].offset < l[b].offset;
    }
    forall a, b | 0 <= a < b < |m| ensures m[a].offset < m[b].offset && (!Good(m[a]) ==> m[a].offset + NEAR <= m[b].offset) {
      assert m[a] == if a < i then l[a] else if a == i then r else l[a - 1];
      assert m[b] == if b < i then l[b] else if b == i then r else l[b - 1];
    }
  }

  /** Ordinary track types keep only sectors with a good CRC: whatever order and
      revolution they arrive in, the entries stay 1000 cells apart. */
  lemma {:induction false} OrdinaryListSpaced(rs: seq<PSector>)
    requires AllGood(rs)
    ensures Spaced(InsertAll([], rs)) && AllGood(InsertAll([], rs))
  {
    if rs != [] {
      OrdinaryListSpaced(rs[..|rs| - 1]);
      SpacedUnlessCrowded(InsertAll([], rs[..|rs| - 1]), rs[|rs| - 1]);
      InsertKeepsGood(InsertAll([], rs[..|rs| - 1]), rs[|rs| - 1]);
    }
  }

  /** Recovery types keep bad sectors too and may replace and move them; the
      entries stay strictly ascending. */
  lemma {:induction false} RecoveryListAscending(rs: seq<PSector>)
    ensures Ascending(InsertAll([], rs))
  {
    if rs != [] {
      RecoveryListAscending(rs[..|rs| - 1]);
      InsertKeepsAscending(InsertAll([], rs[..|rs| - 1]), rs[|rs| - 1]);
    }
  }

  /** The list after the first k sectors of a read. */
  function ListAfter(rs: seq<PSector>, k: nat): seq<PSector>
    requires k <= |rs|
  {
    InsertAll([], rs[..k])
  }

  /** Whatever the sectors, good or bad: the entries are 1000 cells apart throughout
      the read if and only if no sector, when its turn comes, crowds the next one. */
  lemma {:induction false} SpacedThroughout(rs: seq<PSector>, n: nat)
    requires n <= |rs|
    ensures (forall k | 0 <= k <= n :: Spaced(ListAfter(rs, k))) <==> (forall k | 0 <= k < n :: !Crowds(ListAfter(rs, k), rs[k]))
  {
    hide Spaced, Crowds, Insert;
    if n == 0 {
      NothingSpaced(rs);
    } else {
      SpacedThroughout(rs, n - 1);
      NextList(rs, n - 1);
      if Spaced(ListAfter(rs, n - 1)) {
        SpacedUnlessCrowded(ListAfter(rs, n - 1), rs[n - 1]);
      }
    }
  }

  lemma NothingSpaced(rs: seq<PSector>)
    ensures ListAfter(rs, 0) == [] && Spaced([])
  {
  }

  lemma NextList(rs: seq<PSector>, k: nat)
    requires k < |rs|
    ensures ListAfter(rs, k + 1) == Insert(ListAfter(rs, k), rs[k])
  {
    assert rs[..k + 1][..k] == rs[..k];
  }

  /** It does happen: a bad sector is read well 999 cells later, just before the next
      one. */
  lemma RecoveryMayCrowd(a: PSector, b: PSector, c: PSector)
    requires a.offset == 0 && b.offset == 1000 && c.offset == 999
    requires !Good(a) && Good(c) && c.idam == a.idam
    ensures Crowds(InsertAll([], [a, b]), c) && InsertAll([], [a, b, c]) == [c, b] && !Spaced([c, b])
  {
    hide InsertAll, Place, Insert, Good, Crowds;
    InsertInto([], a);
    InsertInto([a], b);
    InsertInto([a, b], c);
    InsertAllMore([], a);
    InsertAllMore([a], b);
    InsertAllMore([a, b], c);
    assert [] + [a] == [a] && [a] + [b] == [a, b] && [a, b] + [c] == [a, b, c];
    assert [c, b][0].offset + NEAR > [c, b][1].offset;
    CrowdsHere([a, b], c);
  }

  lemma CrowdsHere(l: seq<PSector>, r: PSector)
    requires |l| == 2 && -NEAR < r.offset - l[0].offset < NEAR && l[1].offset < r.offset + NEAR
    requires r.idam == l[0].idam && Good(r) && !Good(l[0])
    ensures Crowds(l, r)
  {
  }

  lemma InsertInto(l: seq<PSector>, r: PSector)
    ensures l == [] ==> Insert(l, r) == l + [r]
    ensures |l| == 1 && r.offset - l[0].offset >= NEAR ==> Insert(l, r) == l + [r]
    ensures l != [] && -NEAR < r.offset - l[0].offset < NEAR && r.idam == l[0].idam && Good(r) && !Good(l[0]) ==>
              Insert(l, r) == l[0 := r]
  {
  }

  lemma InsertAllMore(rs: seq<PSector>, r: PSector)
    ensures InsertAll([], []) == []
    ensures InsertAll([], rs + [r]) == Insert(InsertAll([], rs), r)
  {
    assert (rs + [r])[..|rs|] == rs;
  }

  // ----- nothing is lost

  /** Some entry lies within 1000 cells of off. */
  ghost predicate Covered(l: seq<PSector>, off: int)
  {
    exists i | 0 <= i < |l| :: -NEAR < l[i].offset - off < NEAR
  }

  lemma InsertCovers(l: seq<PSector>, r: PSector, off: int)
    requires AllGood(l) && (off == r.offset || Covered(l, off))
    ensures Covered(Insert(l, r), off)
  {
    var i := Place(l, r.offset);
    var m := Insert(l, r);
    if m != l {
      assert m[i] == r;
      if off != r.offset {
        var k :| 0 <= k < |l| && -NEAR < l[k].offset - off < NEAR;
        assert m[if k < i then k else k + 1] == l[k];
      }
    }
  }

  /** Every sector that was decoded is in the list, or near one that is. */
  lemma {:induction false} EverySectorCovered(rs: seq<PSector>, k: nat)
    requires AllGood(rs) && k < |rs|
    ensures Covered(InsertAll([], rs), rs[k].offset)
  {
    var front, last := rs[..|rs| - 1], rs[|rs| - 1];
    OrdinaryListSpaced(front);
    if k < |rs| - 1 {
      EverySectorCovered(front, k);
    }
    InsertCovers(InsertAll([], front), last, rs[k].offset);
  }

  // ----- further revolutions

  lemma InsertAtEnd(l: seq<PSector>, r: PSector)
    requires forall j | 0 <= j < |l| :: l[j].offset + NEAR <= r.offset
    ensures Insert(l, r) == l + [r]
  {
  }

  /** Sectors met in ascending order are listed in that order. */
  lemma {:induction false} InsertAllSpaced(rs: seq<PSector>)
    requires Spaced(rs)
    ensures InsertAll([], rs) == rs
  {
    if rs != [] {
      var m := |rs| - 1;
      InsertAllSpaced(rs[..m]);
      InsertAtEnd(rs[..m], rs[m]);
      assert rs == rs[..m] + [rs[m]];
    }
  }

  lemma SpacedPair(l: seq<PSector>, i: nat, k: nat)
    requires Spaced(l) && k < |l|
    ensures i < k ==> l[i].offset + NEAR <= l[k].offset
  {
  }

  lemma InsertAgain(l: seq<PSector>, k: nat)
    requires Spaced(l) && k < |l|
    ensures Insert(l, l[k]) == l
  {
    SpacedPair(l, Place(l, l[k].offset), k);
    assert Place(l, l[k].offset) == k;
  }

  /** A second pass over the same sectors changes nothing. */
  lemma {:induction false} InsertAllAgain(l: seq<PSector>, k: nat)
    requires Spaced(l) && k <= |l|
    ensures InsertAll(l, l[..k]) == l
  {
    if k > 0 {
      InsertAllAgain(l, k - 1);
      assert l[..k][..k - 1] == l[..k - 1];
      InsertAgain(l, k - 1);
    }
  }

  // ----- the linked list

  lemma PlaceIs(l: seq<PSector>, off: int, i: nat)
    requires i <= |l|
    requires forall j | 0 <= j < i :: off - l[j].offset >= NEAR
    requires i < |l| ==> off - l[i].offset < NEAR
    ensures i == Place(l, off)
  {
  }

  /** Walks to the first entry that does not lie at least 1000 cells before off. */
  method Find(secs: List<PSector>, off: int) returns (prev: Node?<PSector>, cur: Node?<PSector>, ghost i: nat)
    requires secs.Valid()
    ensures i <= |secs.spine| && cur == Nth(secs.spine, i)
    ensures prev == if i == 0 then null else secs.spine[i - 1]
    ensures i == Place(secs.Vals(), off)
  {
    hide Place, Distinct;
    i, prev, cur := 0, null, secs.head;
    while cur != null && off - cur.val.offset >= NEAR
      invariant 0 <= i <= |secs.spine|
      invariant cur == Nth(secs.spine, i)
      invariant prev == if i == 0 then null else secs.spine[i - 1]
      invariant forall j | 0 <= j < i :: off - secs.Vals()[j].offset >= NEAR
      decreases |secs.spine| - i
    {
      prev := cur;
      cur := cur.next;
      i := i + 1;
    }
    PlaceIs(secs.Vals(), off, i);
  }

  /** The part of ibm_mfm_write_raw that puts a decoded sector into the list. */
  method Add(secs: List<PSector>, r: PSector)
    requires secs.Valid()
    modifies secs, secs.spine
    ensures secs.Valid()
    ensures secs.Vals() == Insert(old(secs.Vals()), r)
    ensures fresh(set n | n in secs.spine && n !in old(secs.spine))
  {
    hide Place, Good, Distinct, Chained;
    var prev, cur, i := Find(secs, r.offset);
    if cur != null && -NEAR < r.offset - cur.val.offset < NEAR {
      if r.idam == cur.val.idam && Good(r) && !Good(cur.val) {
        secs.Store(cur, r, i);
      }
      return;
    }
    var node := new Node(r);
    secs.InsertAt(prev, node, i);
  }
}
