/** The gap that tbuf_finalise leaves between the end of a track and its start: legal
    MFM, raw zeros around the write splice, and legal MFM again. */
module Gap {
  import opened Bits
  import opened Mfm
  import opened TrackBuffer
  import opened SyncMarks

  lemma LegalSlice(c: seq<bool>, lo: nat, hi: nat, i: nat, j: nat, parity: nat)
    requires lo <= i <= j <= hi <= |c| && LegalIn(c, lo, hi, parity)
    ensures LegalIn(c, i, j, parity)
  {
  }

  lemma GapPieces(c: seq<bool>, e: nat, b: nat, prev: bool)
    requires e < b <= |c| && c[e..b] == GapCells(prev, b - e)
    ensures var g := b - e;
            var zs := e + 2 * ForwardPairs(g);
            var ze := zs + SpliceCells(g);
            && zs < ze <= b
            && c[e..zs] == Encode(prev, Zeros(ForwardPairs(g)))
            && (forall j | zs <= j < ze :: !c[j])
            && c[ze..b] == ReverseFill(b - ze)
            && ze <= zs + 5
  {
    hide Encode, ReverseFill;
    var g := b - e;
    var zs := 2 * ForwardPairs(g);
    var ze := zs + SpliceCells(g);
    var e0, e1, e2 := Encode(prev, Zeros(ForwardPairs(g))), Zeros(SpliceCells(g)), ReverseFill(g - ze);
    var whole := e0 + e1 + e2;
    SliceOfSlice(c, e, b, 0, zs);
    SliceOfSlice(c, e, b, ze, g);
    assert whole[0..zs] == e0 && whole[ze..g] == e2;
    forall j | e + zs <= j < e + ze ensures !c[j] {
      assert c[j] == c[e..b][j - e] == whole[j - e];
    }
  }

  /** From lo to hi the cells alternate, with a one at b. */
  ghost predicate Alternating(c: seq<bool>, lo: nat, b: nat, hi: nat)
  {
    hi <= |c| && forall i | lo <= i < hi :: c[i] == ((i - b) % 2 == 0)
  }

  lemma ReverseAlternates(c: seq<bool>, ze: nat, b: nat, z: nat)
    requires ze <= b && b + 2 * z <= |c|
    requires c[ze..b] == ReverseFill(b - ze) && c[b..b + 2 * z] == Encode(false, Zeros(z))
    ensures Alternating(c, ze, b, b + 2 * z)
  {
    hide Encode, ReverseFill;
    forall i | ze <= i < b + 2 * z ensures c[i] == ((i - b) % 2 == 0) {
      AlternateAt(c, ze, b, z, i);
    }
  }

  /** The reverse fill runs into the zero bits at the start of the track. */
  lemma ReverseThenLegal(c: seq<bool>, ze: nat, b: nat, z: nat)
    requires ze <= b && b + 2 * z <= |c|
    requires c[ze..b] == ReverseFill(b - ze) && c[b..b + 2 * z] == Encode(false, Zeros(z))
    ensures LegalIn(c, ze, b + 2 * z, b % 2)
  {
    hide Encode, ReverseFill;
    forall j | ze < j < b + 2 * z - 1 && j % 2 == b % 2 ensures LegalAt(c, j) {
      AlternateAt(c, ze, b, z, j - 1);
      AlternateAt(c, ze, b, z, j);
      AlternateAt(c, ze, b, z, j + 1);
      EvenApart(j, b);
    }
  }

  lemma EvenApart(j: nat, b: nat)
    requires j % 2 == b % 2
    ensures (j - b) % 2 == 0 && (j - 1 - b) % 2 == 1 && (j + 1 - b) % 2 == 1
  {
  }

  lemma AlternateAt(c: seq<bool>, ze: nat, b: nat, z: nat, i: nat)
    requires ze <= b && b + 2 * z <= |c| && ze <= i < b + 2 * z
    requires c[ze..b] == ReverseFill(b - ze) && c[b..b + 2 * z] == Encode(false, Zeros(z))
    ensures c[i] == ((i - b) % 2 == 0)
  {
    if i < b {
      assert c[i] == c[ze..b][i - ze];
    } else {
      assert c[i] == c[b..b + 2 * z][i - b];
    }
  }

  /** No window that starts before the end of the splice shows two halves of sync
      words. */
  lemma NoSyncAcrossSplice(f: Filter, c: seq<bool>, lo: nat, zs: nat, ze: nat, hi: nat, left: nat, right: nat, w: nat)
    requires Known(f) && lo <= zs <= ze && ze + 32 <= hi <= |c| && left < 2 && right < 2
    requires LegalIn(c, lo, zs, left) && LegalIn(c, ze, hi, right)
    requires forall j | zs <= j < ze :: !c[j]
    requires lo <= w < ze
    ensures !(Half(f, c[w..w + 16]) && Half(f, c[w + 16..w + 32]))
  {
    hide Known, Half, LegalIn;
    if w + 16 <= zs {
      LegalSlice(c, lo, zs, w, w + 16, left);
      NoHalfInLegal(f, c, w, left);
    } else if w + 16 >= ze {
      LegalSlice(c, ze, hi, w + 16, w + 32, right);
      NoHalfInLegal(f, c, w + 16, right);
    } else {
      NoHalfAfterZeros(f, c, w + 16, ze, hi, right);
    }
  }
}
