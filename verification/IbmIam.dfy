/** The word that begins an index mark: where it cannot show. */
module IbmIam {
  import opened Bits
  import opened Mfm
  import opened TrackBuffer
  import opened StreamReader
  import opened SyncMarks
  import opened Gap
  import opened IbmTrack
  import opened IbmReader
  import opened IbmField
  import opened IbmGap

  /** The window at w shows the first word of an index mark. */
  predicate IamMark(c: seq<bool>, w: nat)
  {
    w + 32 <= |c| && c[w..w + 32] == IamWord()
  }

  /** No window that starts at lo or later and before a shows it. */
  ghost predicate NoIam(c: seq<bool>, lo: nat, a: nat)
  {
    forall w | lo <= w < a :: !IamMark(c, w)
  }

  lemma NoIamAt(c: seq<bool>, lo: nat, a: nat, w: nat)
    requires NoIam(c, lo, a) && lo <= w < a
    ensures !IamMark(c, w)
  {
  }

  lemma NoIamIs(c: seq<bool>, lo: nat, a: nat)
    requires forall w | lo <= w < a :: !IamMark(c, w)
    ensures NoIam(c, lo, a)
  {
  }

  lemma NoIamJoin(c: seq<bool>, lo: nat, mid: nat, a: nat)
    requires lo <= mid <= a && NoIam(c, lo, mid) && NoIam(c, mid, a)
    ensures NoIam(c, lo, a)
  {
    hide IamMark;
  }

  lemma IamBit(i: nat)
    requires i < 32
    ensures IamWord()[i] == (i % 16 == 1 || i % 16 == 3 || i % 16 == 6 || i % 16 == 10 || i % 16 == 13)
  {
    hide IamWord, IamEnd;
    IamOne(i);
    assert (IamWord() + IamEnd())[i] == IamWord()[i];
  }

  /** Cell j of a window that shows it. */
  lemma IamShows(c: seq<bool>, w: nat, j: nat)
    requires j < 32 && w + j < |c|
    ensures IamMark(c, w) ==> c[w + j] == (j % 16 == 1 || j % 16 == 3 || j % 16 == 6 || j % 16 == 10 || j % 16 == 13)
  {
    hide IamWord;
    IamBit(j);
  }

  lemma MarkBit(i: nat)
    requires i < 48
    ensures Mark3()[i] == (i % 16 == 1 || i % 16 == 5 || i % 16 == 8 || i % 16 == 12 || i % 16 == 15)
  {
    var j := i % 16;
    assert Mark3()[i] == H4489()[j] by {
      hide H4489;
      assert i < 16 || (i < 32 && j == i - 16) || j == i - 32;
    }
  }

  /** Three zeros around an even and around an odd place: legal MFM cannot show the
      word, whichever cells are the clock cells. */
  lemma NoIamInLegal(c: seq<bool>, lo: nat, hi: nat, w: nat, parity: nat)
    requires parity < 2 && lo <= w + 7 && w + 17 <= hi <= |c| && LegalIn(c, lo, hi, parity)
    ensures !IamMark(c, w)
  {
    hide IamMark;
    var j := if w % 2 == parity then 8 else 15;
    ClockHolds(c, lo, hi, w + j, parity);
    IamShows(c, w, j - 1);
    IamShows(c, w, j);
    IamShows(c, w, j + 1);
  }

  /** No window that starts in the marks of a field, and ends in them or in what
      follows. */
  lemma NoIamFromMarks(c: seq<bool>, m: nat, w: nat)
    requires m + 48 <= |c| && c[m..m + 48] == Mark3() && m <= w <= m + 41
    ensures !IamMark(c, w)
  {
    hide IamMark, Mark3;
    var o := w - m;
    MarkBit(o + 1);
    MarkBit(o + 3);
    MarkBit(o + 6);
    OnesApart(o);
    assert c[m..m + 48][o + 1] == c[w + 1] && c[m..m + 48][o + 3] == c[w + 3] && c[m..m + 48][o + 6] == c[w + 6];
    IamShows(c, w, 1);
    IamShows(c, w, 3);
    IamShows(c, w, 6);
  }

  /** Two ones that are two places apart and one three places on do not occur in the
      marks. */
  lemma OnesApart(o: nat)
    requires o <= 41
    ensures var a, b, d := (o + 1) % 16, (o + 3) % 16, (o + 6) % 16;
            !((a == 1 || a == 5 || a == 8 || a == 12 || a == 15) && (b == 1 || b == 5 || b == 8 || b == 12 || b == 15)
              && (d == 1 || d == 5 || d == 8 || d == 12 || d == 15))
  {
  }

  /** No window whose second half reaches into the marks. */
  lemma NoIamIntoMarks(c: seq<bool>, m: nat, w: nat)
    requires m + 48 <= |c| && c[m..m + 48] == Mark3() && w < m <= w + 16
    ensures !IamMark(c, w)
  {
    hide IamMark, Mark3;
    var o := m - w;
    MarkBit(1);
    MarkBit(5);
    MarkBit(8);
    MarkBit(15);
    var s := c[m..m + 48];
    assert s[1] == c[m + 1] && s[5] == c[m + 5] && s[8] == c[m + 8] && s[15] == c[m + 15];
    IamShows(c, w, o + 1);
    IamShows(c, w, o + 5);
    IamShows(c, w, o + 8);
    IamShows(c, w, o + 15);
  }

  /** From the marks of one field to those of the next. */
  lemma NoIamToMarks(c: seq<bool>, m: nat, m2: nat, parity: nat)
    requires m + 48 + 32 <= m2 && m2 + 48 <= |c| && parity < 2
    requires c[m..m + 48] == Mark3() && c[m2..m2 + 48] == Mark3() && LegalIn(c, m + 48, m2, parity)
    ensures NoIam(c, m, m2)
  {
    hide IamMark, Mark3, LegalIn;
    forall w | m <= w < m2 ensures !IamMark(c, w) {
      if w <= m + 41 {
        NoIamFromMarks(c, m, w);
      } else if w + 17 <= m2 {
        NoIamInLegal(c, m + 48, m2, w, parity);
      } else {
        NoIamIntoMarks(c, m2, w);
      }
    }
  }

  lemma NoIamToNext(c: seq<bool>, b: nat, prev: bool, bytes: seq<byte>, filler: nat, bytes2: seq<byte>, filler2: nat)
    requires FieldHere(c, b, prev, bytes, filler)
    requires FieldHere(c, b + FieldLen(|bytes|, filler), FieldEnd(bytes, filler), bytes2, filler2)
    ensures NoIam(c, b + 192, b + FieldLen(|bytes|, filler) + 192)
  {
    hide FieldHere, Encode, FieldEnd, LegalIn, NoIam, Mark3;
    var b2 := b + FieldLen(|bytes|, filler);
    FieldPieces(c, b, prev, bytes, filler);
    FieldPieces(c, b2, FieldEnd(bytes, filler), bytes2, filler2);
    FieldThenLegal(c, b, prev, bytes, filler, Zeros(96));
    NoIamToMarks(c, b + 192, b2 + 192, b % 2);
  }

  // ----- over the gap

  /** From legal MFM over the splice into the cells that alternate up to b + 192: no
      window that ends there. */
  lemma NoIamAcrossSplice(c: seq<bool>, lo: nat, zs: nat, ze: nat, b: nat, left: nat)
    requires left < 2 && lo <= zs <= ze <= zs + 5 && ze <= b && b + 192 <= |c|
    requires LegalIn(c, lo, zs, left) && Alternating(c, ze, b, b + 192)
    ensures NoIam(c, lo, b + 161)
  {
    hide IamMark, LegalIn;
    forall w | lo <= w < b + 161 ensures !IamMark(c, w) {
      if w + 17 <= zs {
        NoIamInLegal(c, lo, zs, w, left);
      } else {
        NoIamAlternating(c, w, 30);
      }
    }
  }

  /** The word has two zeros side by side at 4 and at 30. */
  lemma NoIamAlternating(c: seq<bool>, w: nat, i: nat)
    requires i == 4 || i == 30
    requires w + i + 1 < |c| && c[w + i] != c[w + i + 1]
    ensures !IamMark(c, w)
  {
    hide IamMark;
    IamShows(c, w, i);
    IamShows(c, w, i + 1);
  }

  /** And none that runs from them into the marks of the first field ... */
  lemma NoIamBeforeField(c: seq<bool>, ze: nat, b: nat)
    requires ze <= b && b + 240 <= |c| && Alternating(c, ze, b, b + 192) && c[b + 192..b + 240] == Mark3()
    ensures NoIam(c, b + 161, b + 192)
  {
    hide IamMark, Mark3;
    forall w | b + 161 <= w < b + 192 ensures !IamMark(c, w) {
      if w + 16 < b + 192 {
        NoIamAlternating(c, w, 4);
      } else {
        NoIamIntoMarks(c, b + 192, w);
      }
    }
  }

  /** ... or into the index mark itself. */
  lemma NoIamBeforeIam(c: seq<bool>, ze: nat, b: nat)
    requires ze <= b && b + 224 <= |c| && Alternating(c, ze, b, b + 192) && c[b + 192..b + 224] == IamWord()
    ensures NoIam(c, b + 161, b + 192)
  {
    hide IamMark, IamWord;
    forall w | b + 161 <= w < b + 192 ensures !IamMark(c, w) {
      if w + 5 < b + 192 {
        NoIamAlternating(c, w, 4);
      } else {
        NoIamIntoIam(c, b + 192, w);
      }
    }
  }

  lemma NoIamIntoIam(c: seq<bool>, m: nat, w: nat)
    requires m + 32 <= |c| && c[m..m + 32] == IamWord() && w < m <= w + 5
    ensures !IamMark(c, w)
  {
    hide IamMark, IamWord;
    var o := m - w;
    IamBit(1);
    IamBit(3);
    assert c[m..m + 32][1] == c[m + 1] && c[m..m + 32][3] == c[m + 3];
    IamShows(c, w, o + 1);
    IamShows(c, w, o + 3);
  }

  // ----- the scan

  lemma {:induction false} IamNever(f: Flux, p: nat)
    requires p <= |f.cells| && forall r | p < r <= |f.cells| :: WordAt(f.cells, r) != IamWord()
    ensures !IamSeen(f, p)
    decreases |f.cells| - p
  {
    hide WordAt, IamWord, IamEnd;
    if p < |f.cells| {
      IamNever(f, p + 1);
    }
  }

  lemma {:induction false} IamFirst(f: Flux, p: nat, q: nat)
    requires p < q && q + 32 <= |f.cells| && forall r | p < r < q :: WordAt(f.cells, r) != IamWord()
    requires WordAt(f.cells, q) == IamWord() && WordAt(f.cells, q + 32) == IamEnd()
    ensures IamSeen(f, p)
    decreases q - p
  {
    hide WordAt, IamWord, IamEnd;
    if p + 1 < q {
      IamFirst(f, p + 1, q);
    }
  }
}
