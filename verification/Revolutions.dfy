/** What a stream delivers of a ring of cells: the cells up to the first index pulse,
    and then whole revolutions. */
module Revolutions {
  import opened Bits
  import opened StreamReader

  /** What a ring delivers in revs revolutions. */
  function Spin<T>(ring: seq<T>, revs: nat): seq<T>
  {
    if revs == 0 then [] else Spin(ring, revs - 1) + ring
  }

  /** The index pulse is seen with the last cell of each revolution. */
  function PulseRing(n: nat): (p: seq<bool>)
    ensures |p| == n
  {
    seq(n, j => j == n - 1)
  }

  lemma {:induction false} SpinLength<T>(ring: seq<T>, revs: nat)
    ensures |Spin(ring, revs)| == revs * |ring|
  {
    if revs > 0 {
      SpinLength(ring, revs - 1);
      assert revs * |ring| == (revs - 1) * |ring| + |ring|;
    }
  }

  lemma {:induction false} SpinPrefix<T>(ring: seq<T>, k: nat, revs: nat)
    requires k <= revs
    ensures |Spin(ring, k)| <= |Spin(ring, revs)| && Spin(ring, revs)[..|Spin(ring, k)|] == Spin(ring, k)
  {
    if k < revs {
      SpinPrefix(ring, k, revs - 1);
    }
  }

  /** Revolution r of the stream starts at |Spin(ring, r)|. */
  lemma SpinTurn<T>(ring: seq<T>, r: nat, revs: nat)
    requires r < revs
    ensures var b := |Spin(ring, r)|;
            && b + |ring| == |Spin(ring, r + 1)| <= |Spin(ring, revs)|
            && Spin(ring, revs)[b..b + |ring|] == ring
  {
    SpinPrefix(ring, r + 1, revs);
    var b, c := |Spin(ring, r)|, Spin(ring, revs);
    assert Spin(ring, r + 1)[b..] == ring;
    SliceOfSlice(c, 0, b + |ring|, b, b + |ring|);
  }

  lemma {:induction false} SpinFront<T>(ring: seq<T>, revs: nat)
    ensures Spin(ring, revs + 1) == ring + Spin(ring, revs)
  {
    if revs == 0 {
      assert Spin(ring, 1) == Spin(ring, 0) + ring;
    } else {
      SpinFront(ring, revs - 1);
      assert Spin(ring, revs + 1) == (ring + Spin(ring, revs - 1)) + ring;
    }
  }

  lemma NoTurn<T>(ring: seq<T>)
    ensures Spin(ring, 0) == []
  {
  }

  // ----- the cells before the first index pulse

  /** What a stream delivers before the first index pulse fills the register with the
      last cells of the ring. */
  predicate LeadsIn(lead: seq<bool>, ring: seq<bool>)
  {
    32 <= |lead| && 32 <= |ring| && lead[|lead| - 32..] == ring[|ring| - 32..]
  }

  /** A soft stream starts with the second cell of the ring. */
  lemma SoftLead(ring: seq<bool>)
    requires |ring| >= 33
    ensures LeadsIn(ring[1..], ring)
  {
  }

  function Delivered(lead: seq<bool>, ring: seq<bool>, revs: nat): seq<bool>
  {
    lead + Spin(ring, revs)
  }

  function Pulses(lead: nat, n: nat, revs: nat): seq<bool>
  {
    PulseRing(lead) + Spin(PulseRing(n), revs)
  }

  lemma SameLengths(lead: seq<bool>, ring: seq<bool>, revs: nat)
    ensures |Spin(PulseRing(|ring|), revs)| == |Spin(ring, revs)|
    ensures |Pulses(|lead|, |ring|, revs)| == |Delivered(lead, ring, revs)| == |lead| + |Spin(ring, revs)|
  {
    SpinLength(ring, revs);
    SpinLength(PulseRing(|ring|), revs);
  }

  /** The register p cells behind the first index pulse, as if the ring had always
      been turning. */
  lemma RegisterAt(lead: seq<bool>, ring: seq<bool>, revs: nat, p: nat)
    requires LeadsIn(lead, ring) && p <= |Spin(ring, revs)|
    ensures |Spin(ring, revs + 1)| == |ring| + |Spin(ring, revs)|
    ensures WordAt(Delivered(lead, ring, revs), |lead| + p) == Spin(ring, revs + 1)[|ring| + p - 32..|ring| + p]
  {
    hide Spin;
    SpinFront(ring, revs);
    var c, wide, d := Delivered(lead, ring, revs), Spin(ring, revs + 1), Spin(ring, revs);
    WordIsLast32(c, |lead| + p);
    var l, r := c[|lead| + p - 32..|lead| + p], wide[|ring| + p - 32..|ring| + p];
    forall i | 0 <= i < 32 ensures l[i] == r[i] {
      if p + i < 32 {
        assert lead[|lead| - 32..][p + i] == ring[|ring| - 32..][p + i];
      } else {
        assert l[i] == d[p + i - 32] == r[i];
      }
    }
  }

  lemma {:induction false} IndexAt(pulse: seq<bool>, p: nat, q: nat)
    requires p <= q < |pulse| && pulse[q] && forall j | p <= j < q :: !pulse[j]
    ensures IndexFrom(pulse, p) == q + 1
    decreases q - p
  {
    if p < q {
      IndexAt(pulse, p + 1, q);
    }
  }

  /** A reset leaves the stream at the first index pulse. */
  lemma FirstIndex(lead: nat, n: nat, revs: nat)
    requires lead > 0
    ensures lead <= |Pulses(lead, n, revs)| && IndexFrom(Pulses(lead, n, revs), 0) == lead
  {
    hide Spin;
    IndexAt(Pulses(lead, n, revs), 0, lead - 1);
  }

  // ----- the distance from the index pulse

  /** A revolution that begins at r, up to e. */
  ghost predicate Turned(pulse: seq<bool>, r: nat, e: nat)
  {
    && r <= e <= |pulse| && (r > 0 ==> pulse[r - 1])
    && forall j | r <= j < e :: !pulse[j]
  }

  lemma {:induction false} OffsetFrom(pulse: seq<bool>, r: nat, p: nat, e: nat)
    requires Turned(pulse, r, e) && r <= p <= e
    ensures OffsetAt(pulse, p) == p - r
  {
    if p > r {
      OffsetFrom(pulse, r, p - 1, e);
    }
  }

  lemma TurnedIn(lead: nat, ring: seq<bool>, r: nat, revs: nat, e: nat)
    requires lead > 0 && r < revs && lead + |Spin(ring, r)| <= e < lead + |Spin(ring, r)| + |ring|
    ensures Turned(Pulses(lead, |ring|, revs), lead + |Spin(ring, r)|, e)
  {
    hide Spin, PulseRing;
    var n, p := |ring|, PulseRing(|ring|);
    var turns, b := Spin(p, revs), |Spin(ring, r)|;
    PulsePlaces(n);
    PulsePlaces(lead);
    SameLengths([], ring, r);
    SpinTurn(p, r, revs);
    var pulse := Pulses(lead, n, revs);
    forall j | lead + b <= j < e ensures !pulse[j] {
      assert turns[b..b + n][j - lead - b] == turns[j - lead] == pulse[j];
    }
    if r > 0 {
      SameLengths([], ring, r - 1);
      SpinTurn(p, r - 1, revs);
      assert turns[b - n..b][n - 1] == turns[b - 1] == pulse[lead + b - 1];
    } else {
      NoTurn(ring);
      assert pulse[lead - 1] == PulseRing(lead)[lead - 1];
    }
  }

  lemma PulsePlaces(n: nat)
    ensures forall j | 0 <= j < n :: PulseRing(n)[j] == (j == n - 1)
  {
  }
}
