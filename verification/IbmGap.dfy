/** No mark where none was written: across the splice in the gap of a finished
    track, and around the index mark. */
module IbmGap {
  import opened Bits
  import opened Mfm
  import opened TrackBuffer
  import opened StreamReader
  import opened SyncMarks
  import opened Gap
  import opened IbmTrack
  import opened IbmReader
  import opened IbmField

  lemma MarkEndsHalves(c: seq<bool>, w: nat)
    requires MarkHere(c, w)
    ensures w + 32 <= |c| && c[w..w + 16] == H4489() && c[w + 16..w + 32] == H4489() && c[w + 15]
  {
    SliceOfSlice(c, w, w + 32, 0, 16);
    SliceOfSlice(c, w, w + 32, 16, 32);
    assert c[w + 15] == c[w..w + 16][15];
  }

  /** A window with one half in legal MFM shows no doubled mark. */
  lemma QuietHalf(c: seq<bool>, w: nat, h: nat, lo: nat, hi: nat, parity: nat)
    requires h == w || h == w + 16
    requires lo <= h && h + 16 <= hi <= |c| && parity < 2 && LegalIn(c, lo, hi, parity)
    ensures !MarkHere(c, w)
  {
    hide AcceptedHalf, LegalIn, MarkHere, H4489;
    LegalSlice(c, lo, hi, h, h + 16, parity);
    NoHalfInLegal(AnySync, c, h, parity);
    if MarkHere(c, w) {
      MarkEndsHalves(c, w);
      AcceptsMark();
    }
  }

  lemma AcceptsMark()
    ensures AcceptedHalf(H4489())
  {
  }

  /** Legal MFM, then zeros around the write splice, then legal MFM again. */
  lemma QuietSplice(c: seq<bool>, lo: nat, zs: nat, ze: nat, hi: nat, left: nat, right: nat)
    requires lo <= zs <= ze && ze + 32 <= hi <= |c| && left < 2 && right < 2
    requires LegalIn(c, lo, zs, left) && LegalIn(c, ze, hi, right)
    requires forall j | zs <= j < ze :: !c[j]
    ensures Quiet(c, lo, ze)
  {
    hide LegalIn, MarkHere, AcceptedHalf;
    forall w | lo <= w < ze ensures !MarkHere(c, w) {
      NoSyncAcrossSplice(AnySync, c, lo, zs, ze, hi, left, right, w);
      if MarkHere(c, w) {
        MarkHalves(c, w);
      }
    }
  }

  lemma MarkHalves(c: seq<bool>, w: nat)
    requires MarkHere(c, w)
    ensures w + 32 <= |c| && AcceptedHalf(c[w..w + 16]) && AcceptedHalf(c[w + 16..w + 32])
  {
    hide AcceptedHalf, H4489;
    AcceptsMark();
    MarkEndsHalves(c, w);
  }

  // ----- the index mark

  lemma IamNumbers()
    ensures ToBits(0x5224, 16)
         == [false, true, false, true, false, false, true, false, false, false, true, false, false, true, false, false]
    ensures ToBits(0x5552, 16)
         == [false, true, false, true, false, true, false, true, false, true, false, true, false, false, true, false]
  {
    hide ToBits;
    Hex4(5, 2, 2, 4);
    Hex4(5, 5, 5, 2);
  }

  lemma IamHalfOnes(k: nat)
    requires k < 16
    ensures ToBits(0x5224, 16)[k] == (k == 1 || k == 3 || k == 6 || k == 10 || k == 13)
    ensures ToBits(0x5552, 16)[k] == (k == 1 || k == 3 || k == 5 || k == 7 || k == 9 || k == 11 || k == 14)
  {
    hide ToBits;
    IamNumbers();
  }

  lemma IamOnes(i: nat)
    requires i < 64
    ensures (IamWord() + IamEnd())[i] == if i < 48 then ToBits(0x5224, 16)[i % 16] else ToBits(0x5552, 16)[i % 16]
  {
    hide ToBits;
    var a, b := ToBits(0x5224, 16), ToBits(0x5552, 16);
    assert i < 16 || (i < 32 && i % 16 == i - 16) || (i < 48 && i % 16 == i - 32) || i % 16 == i - 48;
  }

  lemma IamOne(i: nat)
    requires i < 64
    ensures (IamWord() + IamEnd())[i]
         == (i % 16 == 1 || i % 16 == 3 || (i < 48 && (i % 16 == 6 || i % 16 == 10 || i % 16 == 13)) ||
             (i >= 48 && (i % 16 == 5 || i % 16 == 7 || i % 16 == 9 || i % 16 == 11 || i % 16 == 14)))
  {
    hide ToBits, IamWord, IamEnd;
    IamOnes(i);
    IamHalfOnes(i % 16);
  }

  lemma IamAhead(o: nat, k: nat)
    requires o <= 48 && k < 16
    ensures var r := if o % 16 + k < 16 then o % 16 + k else o % 16 + k - 16;
            (IamWord() + IamEnd())[o..o + 16][k]
            == (r == 1 || r == 3 || (o + k < 48 && (r == 6 || r == 10 || r == 13)) ||
                (o + k >= 48 && (r == 5 || r == 7 || r == 9 || r == 11 || r == 14)))
  {
    hide IamWord, IamEnd;
    IamOne(o + k);
  }

  lemma IamHidesNoMark(o: nat)
    requires o <= 48
    ensures (IamWord() + IamEnd())[o..o + 16] != H4489()
  {
    hide IamWord, IamEnd, H4489;
    var h := (IamWord() + IamEnd())[o..o + 16];
    IamAhead(o, 1);
    IamAhead(o, 5);
    IamAhead(o, 8);
    IamAhead(o, 12);
    IamAhead(o, 15);
    MarkOnes();
    assert !h[1] || !h[5] || !h[8] || !h[12] || !h[15];
  }

  lemma MarkOnes()
    ensures var h := H4489(); h[1] && h[5] && h[8] && h[12] && h[15]
  {
  }

  ghost predicate IamHere(c: seq<bool>, b: nat, prev: bool, gap: nat)
  {
    b + 256 + 16 * gap <= |c| && c[b..b + 256 + 16 * gap] == IamCells(prev, gap)
  }

  lemma IamPieces(c: seq<bool>, b: nat, prev: bool, gap: nat)
    requires IamHere(c, b, prev, gap)
    ensures b + 256 + 16 * gap <= |c|
    ensures c[b..b + 192] == Encode(prev, Zeros(96))
    ensures c[b + 192..b + 256] == IamWord() + IamEnd()
    ensures c[b + 256..b + 256 + 16 * gap] == Encode(IamEnd()[31], BytesBits(Fill(0x4e, gap)))
  {
    hide Encode, IamWord, IamEnd, BytesBits;
    var n := 256 + 16 * gap;
    var e0, e1, e2, e3 := Encode(prev, Zeros(96)), IamWord(), IamEnd(), Encode(IamEnd()[31], BytesBits(Fill(0x4e, gap)));
    var whole := e0 + e1 + e2 + e3;
    SliceOfSlice(c, b, b + n, 0, 192);
    SliceOfSlice(c, b, b + n, 192, 256);
    SliceOfSlice(c, b, b + n, 256, n);
    assert whole[0..192] == e0 && whole[192..256] == e1 + e2 && whole[256..n] == e3;
  }

  /** From legal MFM into an index mark and on to the first sector. */
  lemma QuietIam(c: seq<bool>, lo: nat, b: nat, m: nat, parity: nat, prev: bool, gap: nat)
    requires IamHere(c, b, prev, gap) && parity < 2 && lo <= b + 192
    requires LegalIn(c, lo, b + 192, parity)
    requires b + 256 + 32 <= m && m + 32 <= |c| && LegalIn(c, b + 256, m, b % 2) && c[m..m + 32] == MarkWord()
    ensures Quiet(c, lo, m)
  {
    hide LegalIn, MarkHere, H4489, IamHere, IamWord, IamEnd, MarkWord, Quiet;
    IamPieces(c, b, prev, gap);
    QuietLegal(c, b + 256, m, b % 2);
    forall w | lo <= w < m ensures !MarkHere(c, w) {
      if w + 16 <= b + 192 {
        QuietHalf(c, w, w, lo, b + 192, parity);
      } else if w >= b + 256 {
        QuietAt(c, b + 256, m, w);
      } else if w >= b + 240 {
        QuietHalf(c, w, w + 16, b + 256, m, b % 2);
      } else if MarkHere(c, w) {
        MarkEndsHalves(c, w);
        var h := if w >= b + 192 then w else w + 16;
        SliceOfSlice(c, b + 192, b + 256, h - b - 192, h - b - 176);
        IamHidesNoMark(h - b - 192);
      }
    }
    QuietIs(c, lo, m);
  }

  lemma QuietAt(c: seq<bool>, lo: nat, a: nat, w: nat)
    requires Quiet(c, lo, a) && lo <= w < a
    ensures !MarkHere(c, w)
  {
  }

  lemma QuietIs(c: seq<bool>, lo: nat, a: nat)
    requires forall w | lo <= w < a :: !MarkHere(c, w)
    ensures Quiet(c, lo, a)
  {
  }

  lemma QuietJoin(c: seq<bool>, lo: nat, mid: nat, a: nat)
    requires lo <= mid && Quiet(c, lo, mid) && Quiet(c, mid, a)
    ensures Quiet(c, lo, a)
  {
  }
}
