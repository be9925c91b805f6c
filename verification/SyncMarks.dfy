/** Sync words: cell patterns that legal MFM never contains.

    Whichever cells are the clock cells, one of them breaks the clock rule in each
    16-cell half of each sync word. */
module SyncMarks {
  import opened Bits
  import opened Mfm

  /** 0x4489, 0x4521, 0x4891 and 0x4a84. */
  function H4489(): (h: seq<bool>)
    ensures |h| == 16
  {
    [false, true, false, false, false, true, false, false, true, false, false, false, true, false, false, true]
  }

  function H4521(): (h: seq<bool>)
    ensures |h| == 16
  {
    [false, true, false, false, false, true, false, true, false, false, true, false, false, false, false, true]
  }

  function H4891(): (h: seq<bool>)
    ensures |h| == 16
  {
    [false, true, false, false, true, false, false, false, true, false, false, true, false, false, false, true]
  }

  function H4A84(): (h: seq<bool>)
    ensures |h| == 16
  {
    [false, true, false, false, true, false, true, false, true, false, false, false, false, true, false, false]
  }

  predicate AcceptedHalf(h: seq<bool>)
  {
    h == H4489() || h == H4521() || h == H4891() || h == H4A84()
  }

  /** The list syncs[] of the scanner: an accepted half, twice. */
  predicate AcceptedSync(word: seq<bool>)
    requires |word| == 32
  {
    AcceptedHalf(word[..16]) && word[16..] == word[..16]
  }

  lemma StandardSyncAccepted()
    ensures AcceptedSync(H4489() + H4489())
  {
    assert (H4489() + H4489())[..16] == H4489() && (H4489() + H4489())[16..] == H4489();
  }

  const OWN_SYNCS: nat := 12

  /** The ones of the halves of the twelve track types with a sync of their own. */
  function OwnOne(k: nat, i: nat): bool
    requires k < OWN_SYNCS
  {
    if k == 0 then i in {1, 5, 8, 12, 14}
    else if k == 1 then i in {0, 4, 7, 11, 14}
    else if k == 2 then i in {1, 6, 9, 11, 15}
    else if k == 3 then i in {2, 7, 9, 12, 15}
    else if k == 4 then i in {2, 4, 7, 9, 11, 12, 15}
    else if k == 5 then i in {0, 5, 7, 10, 13}
    else if k == 6 then i in {2, 5, 10, 12, 15}
    else if k == 7 then i in {1, 5, 10, 12}
    else if k == 8 then i in {1, 5, 10, 12, 15}
    else if k == 9 then i in {2, 4, 9, 12, 15}
    else if k == 10 then i in {1, 6, 8, 11, 14}
    else i in {1, 3, 5, 10, 12, 15}
  }

  function OwnHalf(k: nat): (h: seq<bool>)
    requires k < OWN_SYNCS
    ensures |h| == 16 && forall i | 0 <= i < 16 :: h[i] == OwnOne(k, i)
  {
    seq(16, i requires 0 <= i < 16 => OwnOne(k, i))
  }

  /** Which sync words a track type accepts. */
  datatype Filter = AnySync | OnlySync(sync: seq<bool>)

  predicate Accepts(f: Filter, word: seq<bool>)
    requires |word| == 32
  {
    match f
    case AnySync => AcceptedSync(word)
    case OnlySync(sync) => word == sync
  }

  /** The filters of the track types. */
  ghost predicate Known(f: Filter)
  {
    f.OnlySync? ==> exists k: nat | k < OWN_SYNCS :: f.sync == OwnHalf(k) + OwnHalf(k)
  }

  /** A half of a sync word that is accepted. */
  predicate Half(f: Filter, h: seq<bool>)
  {
    match f
    case AnySync => AcceptedHalf(h)
    case OnlySync(sync) => |sync| == 32 && h == sync[..16]
  }

  /** Both halves of a sync word are halves of a sync word. */
  lemma HalvesOfSync(f: Filter, c: seq<bool>, w: nat)
    requires Known(f) && w + 32 <= |c| && Accepts(f, c[w..w + 32])
    ensures Half(f, c[w..w + 16]) && Half(f, c[w + 16..w + 32])
  {
    hide AcceptedHalf;
    SliceOfSlice(c, w, w + 32, 0, 16);
    SliceOfSlice(c, w, w + 32, 16, 32);
  }

  function Nibble(d: nat): (s: seq<bool>)
    requires d < 16
    ensures |s| == 4
  {
    [d / 8 == 1, d / 4 % 2 == 1, d / 2 % 2 == 1, d % 2 == 1]
  }

  lemma FourMore(n: nat, k: nat, d: nat)
    requires d < 16
    ensures ToBits(16 * n + d, k + 4) == ToBits(n, k) + Nibble(d)
  {
    var m := 16 * n + d;
    assert m / 2 / 2 / 2 / 2 == n;
    assert ToBits(m, k + 4) == ToBits(m / 2, k + 3) + [m % 2 == 1];
    assert ToBits(m / 2, k + 3) == ToBits(m / 2 / 2, k + 2) + [m / 2 % 2 == 1];
    assert ToBits(m / 2 / 2, k + 2) == ToBits(m / 2 / 2 / 2, k + 1) + [m / 2 / 2 % 2 == 1];
    assert ToBits(m / 2 / 2 / 2, k + 1) == ToBits(n, k) + [m / 2 / 2 / 2 % 2 == 1];
  }

  lemma Hex4(a: nat, b: nat, c: nat, d: nat)
    requires a < 16 && b < 16 && c < 16 && d < 16
    ensures ToBits(4096 * a + 256 * b + 16 * c + d, 16) == Nibble(a) + Nibble(b) + Nibble(c) + Nibble(d)
  {
    hide Nibble, ToBits;
    FourMore(256 * a + 16 * b + c, 12, d);
    FourMore(16 * a + b, 8, c);
    FourMore(a, 4, b);
    FourMore(0, 0, a);
    assert ToBits(0, 0) == [];
  }

  /** The halves as the source writes them. */
  lemma HalvesAsNumbers()
    ensures ToBits(0x4489, 16) == H4489() && ToBits(0x4521, 16) == H4521()
    ensures ToBits(0x4891, 16) == H4891() && ToBits(0x4a84, 16) == H4A84()
  {
    hide ToBits;
    Hex4(4, 4, 8, 9);
    Hex4(4, 5, 2, 1);
    Hex4(4, 8, 9, 1);
    Hex4(4, 10, 8, 4);
    NibblesOfHalves();
  }

  lemma NibblesOfHalves()
    ensures H4489() == Nibble(4) + Nibble(4) + Nibble(8) + Nibble(9)
    ensures H4521() == Nibble(4) + Nibble(5) + Nibble(2) + Nibble(1)
    ensures H4891() == Nibble(4) + Nibble(8) + Nibble(9) + Nibble(1)
    ensures H4A84() == Nibble(4) + Nibble(10) + Nibble(8) + Nibble(4)
  {
  }

  lemma OwnHalvesAsNumbers()
    ensures ToBits(0x448a, 16) == OwnHalf(0) && ToBits(0x8912, 16) == OwnHalf(1)
    ensures ToBits(0x4251, 16) == OwnHalf(2) && ToBits(0x2149, 16) == OwnHalf(3)
    ensures ToBits(0x2959, 16) == OwnHalf(4) && ToBits(0x8524, 16) == OwnHalf(5)
    ensures ToBits(0x2429, 16) == OwnHalf(6) && ToBits(0x4428, 16) == OwnHalf(7)
    ensures ToBits(0x4429, 16) == OwnHalf(8) && ToBits(0x2849, 16) == OwnHalf(9)
    ensures ToBits(0x4292, 16) == OwnHalf(10) && ToBits(0x5429, 16) == OwnHalf(11)
  {
    hide ToBits, Nibble, OwnHalf, OwnOne;
    Hex4(4, 4, 8, 10);
    Hex4(8, 9, 1, 2);
    Hex4(4, 2, 5, 1);
    Hex4(2, 1, 4, 9);
    Hex4(2, 9, 5, 9);
    Hex4(8, 5, 2, 4);
    Hex4(2, 4, 2, 9);
    Hex4(4, 4, 2, 8);
    Hex4(4, 4, 2, 9);
    Hex4(2, 8, 4, 9);
    Hex4(4, 2, 9, 2);
    Hex4(5, 4, 2, 9);
    OwnNibbles(0, 4, 4, 8, 10);
    OwnNibbles(1, 8, 9, 1, 2);
    OwnNibbles(2, 4, 2, 5, 1);
    OwnNibbles(3, 2, 1, 4, 9);
    OwnNibbles(4, 2, 9, 5, 9);
    OwnNibbles(5, 8, 5, 2, 4);
    OwnNibbles(6, 2, 4, 2, 9);
    OwnNibbles(7, 4, 4, 2, 8);
    OwnNibbles(8, 4, 4, 2, 9);
    OwnNibbles(9, 2, 8, 4, 9);
    OwnNibbles(10, 4, 2, 9, 2);
    OwnNibbles(11, 5, 4, 2, 9);
  }

  /** The hexadecimal digits of an own half. */
  predicate OwnDigits(k: nat, a: nat, b: nat, c: nat, d: nat)
  {
    || (k == 0 && a == 4 && b == 4 && c == 8 && d == 10)
    || (k == 1 && a == 8 && b == 9 && c == 1 && d == 2)
    || (k == 2 && a == 4 && b == 2 && c == 5 && d == 1)
    || (k == 3 && a == 2 && b == 1 && c == 4 && d == 9)
    || (k == 4 && a == 2 && b == 9 && c == 5 && d == 9)
    || (k == 5 && a == 8 && b == 5 && c == 2 && d == 4)
    || (k == 6 && a == 2 && b == 4 && c == 2 && d == 9)
    || (k == 7 && a == 4 && b == 4 && c == 2 && d == 8)
    || (k == 8 && a == 4 && b == 4 && c == 2 && d == 9)
    || (k == 9 && a == 2 && b == 8 && c == 4 && d == 9)
    || (k == 10 && a == 4 && b == 2 && c == 9 && d == 2)
    || (k == 11 && a == 5 && b == 4 && c == 2 && d == 9)
  }

  lemma OwnNibbles(k: nat, a: nat, b: nat, c: nat, d: nat)
    requires k < OWN_SYNCS && a < 16 && b < 16 && c < 16 && d < 16 && OwnDigits(k, a, b, c, d)
    ensures OwnHalf(k) == Nibble(a) + Nibble(b) + Nibble(c) + Nibble(d)
  {
    hide Nibble, OwnOne, OwnDigits;
    var h, r := OwnHalf(k), Nibble(a) + Nibble(b) + Nibble(c) + Nibble(d);
    forall i | 0 <= i < 16 ensures h[i] == r[i] {
      OwnNibbleAt(k, a, b, c, d, i);
    }
  }

  lemma OwnNibbleAt(k: nat, a: nat, b: nat, c: nat, d: nat, i: nat)
    requires k < OWN_SYNCS && a < 16 && b < 16 && c < 16 && d < 16 && i < 16 && OwnDigits(k, a, b, c, d)
    ensures OwnOne(k, i) == (if i < 4 then Nibble(a)[i] else if i < 8 then Nibble(b)[i - 4]
                             else if i < 12 then Nibble(c)[i - 8] else Nibble(d)[i - 12])
  {
  }

  // ----- no accepted half inside legal MFM

  predicate BrokenAt(h: seq<bool>, j: nat)
    requires |h| == 16 && 0 < j < 15
  {
    h[j] == (h[j - 1] || h[j + 1])
  }

  /** Some cell behind lo breaks the clock rule, among those at even or at odd
      places. */
  predicate ClockBroken(h: seq<bool>, lo: nat, even: bool)
    requires |h| == 16
  {
    exists j | lo < j < 15 && (j % 2 == 0) == even :: BrokenAt(h, j)
  }

  lemma BreaksAt(h: seq<bool>, j: nat)
    requires |h| == 16 && 1 < j < 15 && BrokenAt(h, j)
    ensures ClockBroken(h, 1, j % 2 == 0)
    ensures j > 2 ==> ClockBroken(h, 2, j % 2 == 0)
  {
  }

  lemma AcceptedBroken(h: seq<bool>, even: bool)
    requires AcceptedHalf(h)
    ensures |h| == 16 && h[1] && ClockBroken(h, 1, even) && ClockBroken(h, 2, even)
  {
    hide ClockBroken;
    var j := if h == H4489() then (if even then 10 else 3)
             else if h == H4521() then (if even then 12 else 3)
             else if h == H4891() then (if even then 6 else 13)
             else if even then 10 else 11;
    assert (j % 2 == 0) == even && j > 2;
    BreaksAt(h, j);
  }

  lemma OwnBroken(k: nat, even: bool)
    requires k < OWN_SYNCS
    ensures var h := OwnHalf(k);
            && (h[0] || h[1] || h[2]) && ClockBroken(h, 1, even) && (!h[0] ==> ClockBroken(h, 2, even))
  {
    hide ClockBroken;
    var j := if k == 0 then (if even then 10 else 3)
             else if k == 1 then (if even then 2 else 9)
             else if k == 2 then (if even then 4 else 3)
             else if k == 3 then (if even then 4 else 5)
             else if k == 4 then (if even then 12 else 11)
             else if k == 5 then (if even then 2 else 3)
             else if k == 6 then (if even then 8 else 7)
             else if k == 7 then (if even then 8 else 3)
             else if k == 8 then (if even then 8 else 3)
             else if k == 9 then (if even then 6 else 7)
             else if k == 10 then (if even then 4 else 3)
             else if even then 8 else 7;
    assert (j % 2 == 0) == even;
    BreaksAt(OwnHalf(k), j);
  }

  lemma HalfBroken(f: Filter, h: seq<bool>, even: bool)
    requires Known(f) && Half(f, h)
    ensures |h| == 16 && (h[0] || h[1] || h[2])
    ensures ClockBroken(h, 1, even) && (!h[0] ==> ClockBroken(h, 2, even))
  {
    hide ClockBroken, AcceptedHalf, OwnHalf;
    if f.AnySync? {
      AcceptedBroken(h, even);
    } else {
      var k: nat :| k < OWN_SYNCS && f.sync == OwnHalf(k) + OwnHalf(k);
      OwnBroken(k, even);
    }
  }

  lemma ClockHolds(c: seq<bool>, lo: nat, hi: nat, j: nat, parity: nat)
    requires lo < j && j + 1 < hi <= |c| && j % 2 == parity && LegalIn(c, lo, hi, parity)
    ensures c[j] == !(c[j - 1] || c[j + 1])
  {
    assert LegalAt(c, j);
  }

  /** No accepted half has legal MFM in its last fifteen cells. */
  lemma NoHalfTail(f: Filter, c: seq<bool>, i: nat, parity: nat)
    requires Known(f) && i + 16 <= |c| && parity < 2
    requires LegalIn(c, i + 1, i + 16, parity)
    ensures !Half(f, c[i..i + 16])
  {
    hide Half, Known, LegalIn, LegalAt;
    var h := c[i..i + 16];
    if Half(f, h) {
      HalfBroken(f, h, i % 2 == parity);
      var j :| 1 < j < 15 && (j % 2 == 0) == (i % 2 == parity) && BrokenAt(h, j);
      ClockHolds(c, i + 1, i + 16, i + j, parity);
    }
  }

  lemma NoHalfInLegal(f: Filter, c: seq<bool>, i: nat, parity: nat)
    requires Known(f) && i + 16 <= |c| && parity < 2
    requires LegalIn(c, i, i + 16, parity)
    ensures !Half(f, c[i..i + 16])
  {
    NoHalfTail(f, c, i, parity);
  }

  /** Nor does any accepted half start with zeros and go on with legal MFM. */
  lemma NoHalfAfterZeros(f: Filter, c: seq<bool>, i: nat, z: nat, hi: nat, parity: nat)
    requires Known(f) && i < z && i + 16 <= hi <= |c| && z <= hi && parity < 2
    requires forall j | i <= j < z :: !c[j]
    requires LegalIn(c, z, hi, parity)
    ensures !Half(f, c[i..i + 16])
  {
    hide Half, Known, LegalIn, LegalAt;
    var h := c[i..i + 16];
    assert !h[0] && (z > i + 2 ==> !h[1] && !h[2]);
    if Half(f, h) {
      HalfBroken(f, h, i % 2 == parity);
      if z <= i + 2 {
        var j :| 2 < j < 15 && (j % 2 == 0) == (i % 2 == parity) && BrokenAt(h, j);
        ClockHolds(c, z, hi, i + j, parity);
      }
    }
  }

  // ----- no accepted half across the middle of a sync mark

  /** All accepted halves start alike. */
  lemma HalfPrefix(h: seq<bool>)
    requires AcceptedHalf(h)
    ensures |h| == 16 && !h[0] && h[1] && !h[2] && !h[3]
  {
  }

  /** Where the ones of each half are. */
  lemma HalfOnes(h: seq<bool>, i: nat)
    requires AcceptedHalf(h) && i < 16
    ensures h == H4489() ==> (h[i] <==> i == 1 || i == 5 || i == 8 || i == 12 || i == 15)
    ensures h == H4521() ==> (h[i] <==> i == 1 || i == 5 || i == 7 || i == 10 || i == 15)
    ensures h == H4891() ==> (h[i] <==> i == 1 || i == 4 || i == 8 || i == 11 || i == 15)
    ensures h == H4A84() ==> (h[i] <==> i == 1 || i == 4 || i == 6 || i == 8 || i == 13)
  {
  }

  lemma DiffersFromHalves(h: seq<bool>)
    requires |h| == 16
    requires h[9] || h[14] || (h[8] && h[10]) || (h[11] && h[13]) || (h[6] && h[10])
    ensures !AcceptedHalf(h)
  {
  }

  /** Cell i of a half, read on from its start once it ends. */
  function Around(h: seq<bool>, i: nat): bool
    requires |h| == 16 && i < 32
  {
    if i < 16 then h[i] else h[i - 16]
  }

  /** The few places at which a half turned by s starts like a half, and where such
      a turned half differs all the same. */
  lemma TurnedHalf(h: seq<bool>, s: nat)
    requires AcceptedHalf(h) && |h| == 16 && 0 < s < 16
    ensures Around(h, s) || !Around(h, s + 1) || Around(h, s + 2) || Around(h, s + 3)
         || Around(h, s + 9) || Around(h, s + 14) || (Around(h, s + 8) && Around(h, s + 10))
         || (Around(h, s + 11) && Around(h, s + 13)) || (Around(h, s + 6) && Around(h, s + 10))
  {
    hide AcceptedHalf, H4489, H4521, H4891, H4A84;
    IsHalf(h);
    forall i: nat | i < 16 ensures
      && (h == H4489() ==> (h[i] <==> i == 1 || i == 5 || i == 8 || i == 12 || i == 15))
      && (h == H4521() ==> (h[i] <==> i == 1 || i == 5 || i == 7 || i == 10 || i == 15))
      && (h == H4891() ==> (h[i] <==> i == 1 || i == 4 || i == 8 || i == 11 || i == 15))
      && (h == H4A84() ==> (h[i] <==> i == 1 || i == 4 || i == 6 || i == 8 || i == 13))
    {
      HalfOnes(h, i);
    }
  }

  lemma IsHalf(h: seq<bool>)
    ensures AcceptedHalf(h) <==> h == H4489() || h == H4521() || h == H4891() || h == H4A84()
  {
  }

  lemma ShiftedAccepted(w: seq<bool>, s: nat)
    requires |w| == 32 && AcceptedSync(w) && 0 < s < 16
    ensures !AcceptedHalf(w[s..s + 16])
  {
    hide AcceptedHalf;
    var h, t := w[..16], w[s..s + 16];
    assert w == h + h;
    TurnedHalf(h, s);
    assert forall i: nat | i < 16 :: t[i] == Around(h, s + i);
    if AcceptedHalf(t) {
      HalfPrefix(t);
      if t[9] || t[14] || (t[8] && t[10]) || (t[11] && t[13]) || (t[6] && t[10]) {
        DiffersFromHalves(t);
      }
    }
  }

  /** The other halves turned by s: not all ones fall on ones. */
  lemma TurnedOwn(k: nat, s: nat)
    requires k < OWN_SYNCS && 0 < s < 16
    ensures var h := OwnHalf(k);
            exists i: nat | i < 16 :: h[i] && !Around(h, s + i)
  {
    hide OwnOne, Falls;
    if k < 6 {
      TurnedLow(k, s);
    } else {
      TurnedHigh(k, s);
    }
    var i: nat :| i < 16 && OwnOne(k, i) && !Falls(k, s, i);
    assert OwnHalf(k)[i];
    FallsIs(k, s, i);
  }

  predicate Falls(k: nat, s: nat, i: nat)
    requires k < OWN_SYNCS && s < 16 && i < 16
  {
    OwnOne(k, if s + i < 16 then s + i else s + i - 16)
  }

  predicate ThreeFall(k: nat, s: nat, a: nat, b: nat, c: nat)
    requires k < OWN_SYNCS && s < 16 && a < 16 && b < 16 && c < 16
  {
    Falls(k, s, a) && Falls(k, s, b) && Falls(k, s, c)
  }

  lemma FallsIs(k: nat, s: nat, i: nat)
    requires k < OWN_SYNCS && s < 16 && i < 16
    ensures Falls(k, s, i) == Around(OwnHalf(k), s + i)
  {
    hide OwnOne;
  }

  lemma TurnedLow(k: nat, s: nat)
    requires k < 6 && 0 < s < 16
    ensures exists i: nat | i < 16 :: OwnOne(k, i) && !Falls(k, s, i)
  {
    if k == 0 {
      assert !ThreeFall(0, s, 1, 5, 8);
    } else if k == 1 {
      assert !ThreeFall(1, s, 0, 4, 11);
    } else if k == 2 {
      assert !ThreeFall(2, s, 1, 6, 9);
    } else if k == 3 {
      assert !ThreeFall(3, s, 2, 7, 9);
    } else if k == 4 {
      assert !ThreeFall(4, s, 2, 4, 9);
    } else {
      assert !ThreeFall(5, s, 0, 5, 7);
    }
  }

  lemma TurnedHigh(k: nat, s: nat)
    requires 6 <= k < OWN_SYNCS && 0 < s < 16
    ensures exists i: nat | i < 16 :: OwnOne(k, i) && !Falls(k, s, i)
  {
    if k == 6 {
      assert !ThreeFall(6, s, 2, 5, 10);
    } else if k == 7 {
      assert !ThreeFall(7, s, 1, 5, 10);
    } else if k == 8 {
      assert !ThreeFall(8, s, 1, 5, 10);
    } else if k == 9 {
      assert !ThreeFall(9, s, 2, 4, 9);
    } else if k == 10 {
      assert !ThreeFall(10, s, 1, 6, 8);
    } else {
      assert !ThreeFall(11, s, 1, 5, 10);
    }
  }

  lemma ShiftedMarkDiffers(f: Filter, w: seq<bool>, s: nat)
    requires Known(f) && |w| == 32 && Accepts(f, w) && 0 < s < 16
    ensures !Half(f, w[s..s + 16])
  {
    hide AcceptedHalf, OwnHalf;
    var h, t := w[..16], w[s..s + 16];
    if f.AnySync? {
      ShiftedAccepted(w, s);
    } else {
      var k: nat :| k < OWN_SYNCS && f.sync == OwnHalf(k) + OwnHalf(k);
      TurnedOwn(k, s);
      var i: nat :| i < 16 && h[i] && !Around(h, s + i);
      assert t[i] == Around(h, s + i);
    }
  }

  lemma LegalSub(c: seq<bool>, lo: nat, hi: nat, i: nat, parity: nat)
    requires lo <= i && i + 16 <= hi <= |c| && LegalIn(c, lo, hi, parity)
    ensures LegalIn(c, i, i + 16, parity)
  {
  }

  /** Scanning from legal MFM into a sync mark at position a: no window that
      starts before a shows an accepted sync. */
  lemma NoSyncBefore(f: Filter, c: seq<bool>, lo: nat, a: nat, w: nat, parity: nat)
    requires Known(f) && lo <= w < a && a + 32 <= |c| && parity < 2
    requires LegalIn(c, lo, a, parity)
    requires Accepts(f, c[a..a + 32])
    ensures !(Half(f, c[w..w + 16]) && Half(f, c[w + 16..w + 32]))
  {
    hide Known, Half, Accepts, LegalIn;
    if w + 16 <= a {
      LegalSub(c, lo, a, w, parity);
      NoHalfInLegal(f, c, w, parity);
    } else {
      ShiftedMarkDiffers(f, c[a..a + 32], w + 16 - a);
      SliceOfSlice(c, a, a + 32, w + 16 - a, w + 32 - a);
    }
  }

  /** Nor does any window that starts after a, as long as it ends in legal MFM
      following the mark. */
  lemma NoSyncAfter(f: Filter, c: seq<bool>, a: nat, hi: nat, w: nat, parity: nat)
    requires Known(f) && a < w && w + 32 <= hi <= |c| && a + 32 <= hi && parity < 2
    requires LegalIn(c, a + 32, hi, parity)
    requires Accepts(f, c[a..a + 32])
    ensures !(Half(f, c[w..w + 16]) && Half(f, c[w + 16..w + 32]))
  {
    hide Known, Half, Accepts, LegalIn;
    if w < a + 16 {
      ShiftedMarkDiffers(f, c[a..a + 32], w - a);
      SliceOfSlice(c, a, a + 32, w - a, w - a + 16);
    } else {
      LegalSub(c, a + 32, hi, w + 16, parity);
      NoHalfInLegal(f, c, w + 16, parity);
    }
  }
}
