/** The DEC RX02 variant of MFM.  The sequence 011110 of data bits would look
    like an address mark and is written as 01000100010 instead; the reader
    recognises the illegal clocks and puts the ones back. */
module Rx02 {
  import opened Bits
  import opened Crc
  import opened Mfm

  type Word = w: seq<bool> | |w| == 16 witness Zeros(16)

  // ----- the substitution, cell by cell

  /** Cells are read as data bits 0, 1, ..., data bit k at cell 2k + 1 behind its
      clock at 2k.  The six data bits that end with bit k are 011110. */
  predicate SixBits(c: seq<bool>, k: nat)
    requires 5 <= k && 2 * k + 1 < |c|
  {
    && !c[2 * k - 9] && c[2 * k - 7] && c[2 * k - 5] && c[2 * k - 3] && c[2 * k - 1] && !c[2 * k + 1]
  }

  /** Writes 01000100010 over those bits and the clocks between them. */
  function Substitute(c: seq<bool>, k: nat): (r: seq<bool>)
    requires 5 <= k && 2 * k + 1 < |c|
    ensures |r| == |c|
  {
    seq(|c|, i requires 0 <= i < |c| => if 2 * k - 9 <= i <= 2 * k + 1 then (i - 2 * k + 9) % 4 == 1 else c[i])
  }

  /** The rule tried at the data bits from 8 on and before k, in that order. */
  function Substituted(c: seq<bool>, k: nat): (r: seq<bool>)
    requires 2 * k <= |c|
    ensures |r| == |c|
  {
    if k <= 8 then c
    else
      var before := Substituted(c, k - 1);
      if SixBits(before, k - 1) then Substitute(before, k - 1) else before
  }

  /** The reader's rule at the clock of data bit k: clear between clear bits
      means that both bits were set. */
  function Restore(c: seq<bool>, k: nat): (r: seq<bool>)
    requires 1 <= k && 2 * k + 1 < |c|
    ensures |r| == |c|
  {
    if !c[2 * k - 1] && !c[2 * k] && !c[2 * k + 1] then c[2 * k - 1 := true][2 * k + 1 := true] else c
  }

  function Restored(c: seq<bool>, k: nat): (r: seq<bool>)
    requires 2 * k <= |c|
    ensures |r| == |c|
  {
    if k <= 1 then c else Restore(Restored(c, k - 1), k - 1)
  }

  // ----- where substitutions happen

  /** Exactly four ones start at s. */
  predicate RunAt(p: seq<bool>, s: int)
  {
    1 <= s && s + 4 < |p| && !p[s - 1] && p[s] && p[s + 1] && p[s + 2] && p[s + 3] && !p[s + 4]
  }

  /** How far data bit m lies behind the start of a run that ends before lim;
      5 if there is none. */
  function InRun(p: seq<bool>, m: int, lim: int): (t: nat)
    ensures t <= 5
    ensures t < 5 ==> RunAt(p, m - t) && m - t + 4 < lim
  {
    if RunAt(p, m) && m + 4 < lim then 0
    else if RunAt(p, m - 1) && m + 3 < lim then 1
    else if RunAt(p, m - 2) && m + 2 < lim then 2
    else if RunAt(p, m - 3) && m + 1 < lim then 3
    else if RunAt(p, m - 4) && m < lim then 4
    else 5
  }

  /** Data bit m, and its clock, after the rule has been tried before k. */
  predicate CellsAre(c: seq<bool>, c0: seq<bool>, p: seq<bool>, m: nat, k: nat)
    requires |c| == |c0| == 2 * |p| && m < |p|
  {
    && c[2 * m + 1] == (p[m] && InRun(p, m, k) == 5)
    && c[2 * m] == if InRun(p, m, k) == 5 then c0[2 * m] else InRun(p, m, k) % 2 == 0
  }

  /** The rule matches exactly at the end of a run of exactly four ones. */
  lemma MatchIsRun(c: seq<bool>, c0: seq<bool>, p: seq<bool>, k: nat)
    requires |c| == |c0| == 2 * |p| && 5 <= k < |p|
    requires forall m | k - 5 <= m <= k :: CellsAre(c, c0, p, m, k)
    ensures SixBits(c, k) <==> RunAt(p, k - 4)
  {
    hide InRun;
    assert CellsAre(c, c0, p, k - 5, k) && CellsAre(c, c0, p, k - 4, k) && CellsAre(c, c0, p, k - 3, k);
    assert CellsAre(c, c0, p, k - 2, k) && CellsAre(c, c0, p, k - 1, k) && CellsAre(c, c0, p, k, k);
  }

  lemma RunGrows(p: seq<bool>, m: nat, k: nat)
    requires m < |p|
    ensures InRun(p, m, k + 1)
         == if RunAt(p, k - 4) && k - 4 <= m <= k then m - (k - 4) else InRun(p, m, k)
  {
  }

  /** The whole rule, one data bit at a time. */
  lemma {:induction false} SubstitutedIs(c0: seq<bool>, p: seq<bool>, k: nat)
    requires |c0| == 2 * |p| && 8 <= k <= |p| && DataBits(c0) == p && forall j | 0 <= j < 8 :: !p[j]
    ensures forall m | 0 <= m < |p| :: CellsAre(Substituted(c0, k), c0, p, m, k)
  {
    hide InRun, RunAt, CellsAre;
    var c := Substituted(c0, k);
    if k == 8 {
      forall m | 0 <= m < |p| ensures CellsAre(c, c0, p, m, k) {
        NothingYet(c0, p, m);
      }
    } else {
      var b := Substituted(c0, k - 1);
      SubstitutedIs(c0, p, k - 1);
      MatchIsRun(b, c0, p, k - 1);
      forall m | 0 <= m < |p| ensures CellsAre(c, c0, p, m, k) {
        CellsAfter(b, c0, p, m, k - 1);
      }
    }
  }

  lemma NothingYet(c0: seq<bool>, p: seq<bool>, m: nat)
    requires |c0| == 2 * |p| && 8 <= |p| && m < |p| && DataBits(c0) == p && forall j | 0 <= j < 8 :: !p[j]
    ensures CellsAre(c0, c0, p, m, 8)
  {
    assert DataBits(c0)[m] == c0[2 * m + 1];
    NoEarlyRun(p, m);
  }

  lemma CellsAfter(b: seq<bool>, c0: seq<bool>, p: seq<bool>, m: nat, k: nat)
    requires |b| == |c0| == 2 * |p| && 8 <= k < |p| && m < |p| && CellsAre(b, c0, p, m, k)
    requires SixBits(b, k) <==> RunAt(p, k - 4)
    ensures CellsAre(if SixBits(b, k) then Substitute(b, k) else b, c0, p, m, k + 1)
  {
    hide InRun, SixBits, Substitute, RunAt;
    RunGrows(p, m, k);
    if SixBits(b, k) {
      SubstituteCells(b, k, m);
      RunBits(p, k - 4);
    }
  }

  lemma SubstituteCells(b: seq<bool>, k: nat, m: nat)
    requires |b| % 2 == 0 && 5 <= k && 2 * k + 1 < |b| && 2 * m + 1 < |b|
    ensures var c, inside := Substitute(b, k), k - 4 <= m <= k;
            && |c| == |b| && c[2 * m + 1] == (!inside && m != k - 5 && b[2 * m + 1])
            && c[2 * m] == if inside then (m - (k - 4)) % 2 == 0 else b[2 * m]
  {
  }

  lemma NoEarlyRun(p: seq<bool>, m: nat)
    requires |p| >= 8 && m < |p| && forall j | 0 <= j < 8 :: !p[j]
    ensures InRun(p, m, 8) == 5
  {
  }

  lemma RunBits(p: seq<bool>, s: int)
    requires RunAt(p, s)
    ensures 1 <= s && s + 4 < |p| && !p[s - 1] && !p[s + 4]
  {
  }

  // ----- reading it back

  /** Data bit m and its clock as the writer leaves them. */
  predicate WrittenAt(w: seq<bool>, p: seq<bool>, m: nat)
    requires 2 * m + 1 < |w| && m + 8 < |p|
  {
    var t := InRun(p, m + 8, |p|);
    && w[2 * m + 1] == (p[m + 8] && t == 5)
    && w[2 * m] == if t == 5 then !(p[m + 7] || p[m + 8]) else t % 2 == 0
  }

  /** The cells w hold data bits as the writer left them: those of p behind its
      first eight, which are clear.  Behind them only ones follow. */
  ghost predicate Written(w: seq<bool>, p: seq<bool>)
  {
    && |w| % 2 == 0 && 8 + |w| / 2 <= |p|
    && (forall j | 0 <= j < 8 :: !p[j])
    && (forall j | 8 + |w| / 2 <= j < |p| :: p[j])
    && forall m | 0 <= m < |w| / 2 :: WrittenAt(w, p, m)
  }

  /** The clock at which bit m of a run, t behind its start, is put back. */
  function PairClock(m: nat, t: nat): int
  {
    m - t + (if t < 2 then 1 else 3)
  }

  /** Data bit m and its clock when the clocks before k have been looked at. */
  predicate BackAt(x: seq<bool>, w: seq<bool>, p: seq<bool>, m: nat, k: nat)
    requires |x| == |w| && 2 * m + 1 < |w| && m + 8 < |p|
  {
    var t := InRun(p, m + 8, |p|);
    && x[2 * m + 1] == (p[m + 8] && (t == 5 || PairClock(m, t) < k))
    && x[2 * m] == w[2 * m]
  }

  /** A clear clock between clear bits stands inside a run, before its second or
      its fourth bit, and nowhere else. */
  lemma TripleIsRun(x: seq<bool>, w: seq<bool>, p: seq<bool>, k: nat)
    requires Written(w, p) && |x| == |w| && 1 <= k && 2 * k + 1 < |w|
    requires BackAt(x, w, p, k - 1, k) && BackAt(x, w, p, k, k)
    ensures !x[2 * k - 1] && !x[2 * k] && !x[2 * k + 1] <==> InRun(p, k + 8, |p|) == 1 || InRun(p, k + 8, |p|) == 3
    ensures InRun(p, k + 8, |p|) == 1 || InRun(p, k + 8, |p|) == 3 ==>
              InRun(p, k + 7, |p|) == InRun(p, k + 8, |p|) - 1 && p[k + 7] && p[k + 8]
  {
    assert WrittenAt(w, p, k) && WrittenAt(w, p, k - 1);
  }

  lemma {:induction false} RestoredIs(w: seq<bool>, p: seq<bool>, k: nat)
    requires Written(w, p) && 1 <= k && 2 * k <= |w|
    ensures forall m | 0 <= m < |w| / 2 :: BackAt(Restored(w, k), w, p, m, k)
  {
    hide InRun;
    var x := Restored(w, k);
    if k == 1 {
      forall m | 0 <= m < |w| / 2 ensures BackAt(x, w, p, m, 1) {
        assert WrittenAt(w, p, m);
        NothingBack(p, m);
      }
    } else {
      var y := Restored(w, k - 1);
      RestoredIs(w, p, k - 1);
      assert BackAt(y, w, p, k - 2, k - 1) && BackAt(y, w, p, k - 1, k - 1);
      TripleIsRun(y, w, p, k - 1);
      forall m | 0 <= m < |w| / 2 ensures BackAt(x, w, p, m, k) {
        assert BackAt(y, w, p, m, k - 1);
        PairAt(p, m, k - 1);
      }
    }
  }

  lemma NothingBack(p: seq<bool>, m: nat)
    requires m + 8 < |p| && forall j | 0 <= j < 8 :: !p[j]
    ensures var t := InRun(p, m + 8, |p|); t < 4 ==> PairClock(m, t) >= 1
  {
  }

  /** The bits put back at clock k are k - 1 and k, if a run is there. */
  lemma PairAt(p: seq<bool>, m: nat, k: nat)
    requires 1 <= k && k + 8 < |p| && m + 8 < |p|
    ensures var t, u := InRun(p, m + 8, |p|), InRun(p, k + 8, |p|);
            t < 4 ==> (PairClock(m, t) == k <==> (u == 1 || u == 3) && (m == k || m == k - 1))
  {
  }

  /** All data bits are back. */
  lemma RestoredData(w: seq<bool>, p: seq<bool>)
    requires Written(w, p) && w != []
    ensures DataBits(Restored(w, |w| / 2)) == p[8..8 + |w| / 2]
  {
    hide InRun;
    var n := |w| / 2;
    var x := Restored(w, n);
    RestoredIs(w, p, n);
    forall m | 0 <= m < n ensures DataBits(x)[m] == p[8..8 + n][m] {
      BackData(x, w, p, m, n);
    }
  }

  lemma BackData(x: seq<bool>, w: seq<bool>, p: seq<bool>, m: nat, n: nat)
    requires Written(w, p) && |x| == |w| == 2 * n && m < n && BackAt(x, w, p, m, n)
    ensures x[2 * m + 1] == p[m + 8]
  {
    hide InRun, WrittenAt;
    RunInside(p, m, n);
  }

  /** No run reaches into the ones at the end. */
  lemma RunInside(p: seq<bool>, m: nat, n: nat)
    requires m < n && 8 + n <= |p| && forall j | 8 + n <= j < |p| :: p[j]
    ensures var t := InRun(p, m + 8, |p|); p[m + 8] && t < 5 ==> PairClock(m, t) < n
  {
  }

  // ----- the written cells as flux

  /** No two ones side by side, never more than three zeros in between. */
  lemma WrittenRunLength(w: seq<bool>, p: seq<bool>)
    requires Written(w, p)
    ensures forall i | 0 <= i < |w| - 1 :: !(w[i] && w[i + 1])
    ensures forall i | 0 <= i < |w| - 3 :: w[i] || w[i + 1] || w[i + 2] || w[i + 3]
  {
    hide WrittenAt;
    forall i | 0 <= i < |w| - 1 ensures !(w[i] && w[i + 1]) {
      NoTwoOnes(w, p, i);
    }
    forall i | 0 <= i < |w| - 3 ensures w[i] || w[i + 1] || w[i + 2] || w[i + 3] {
      NoFourZeros(w, p, i);
    }
  }

  lemma NoTwoOnes(w: seq<bool>, p: seq<bool>, i: nat)
    requires Written(w, p) && i + 1 < |w|
    ensures !(w[i] && w[i + 1])
  {
    assert WrittenAt(w, p, i / 2);
    assert WrittenAt(w, p, (i + 1) / 2);
  }

  lemma NoFourZeros(w: seq<bool>, p: seq<bool>, i: nat)
    requires Written(w, p) && i + 3 < |w|
    ensures w[i] || w[i + 1] || w[i + 2] || w[i + 3]
  {
    assert WrittenAt(w, p, i / 2);
    assert WrittenAt(w, p, (i + 1) / 2);
    assert WrittenAt(w, p, (i + 2) / 2);
    assert WrittenAt(w, p, (i + 3) / 2);
  }

  // ----- from words to cells and back

  function Flat(ws: seq<Word>): (c: seq<bool>)
    ensures |c| == 16 * |ws|
  {
    if ws == [] then [] else Flat(ws[..|ws| - 1]) + ws[|ws| - 1]
  }

  lemma {:induction false} FlatIs(ws: seq<Word>, c: seq<bool>)
    requires |c| == 16 * |ws| && forall i | 0 <= i < |ws| :: ws[i] == c[16 * i..16 * i + 16]
    ensures Flat(ws) == c
  {
    if ws != [] {
      var n := |ws| - 1;
      forall i | 0 <= i < n ensures ws[..n][i] == c[..16 * n][16 * i..16 * i + 16] {
        SliceOfSlice(c, 0, 16 * n, 16 * i, 16 * i + 16);
      }
      FlatIs(ws[..n], c[..16 * n]);
    }
  }

  lemma {:induction false} FlatAt(ws: seq<Word>, i: nat)
    requires i < |ws|
    ensures Flat(ws)[16 * i..16 * i + 16] == ws[i]
  {
    var front := Flat(ws[..|ws| - 1]);
    assert Flat(ws) == front + ws[|ws| - 1];
    if i < |ws| - 1 {
      FlatAt(ws[..|ws| - 1], i);
      assert Flat(ws)[16 * i..16 * i + 16] == front[16 * i..16 * i + 16];
    }
  }

  /** One word of the normal MFM encoding, shifted in behind the one before. */
  method EncodeWord(prev: Word, w8: byte) returns (w16: Word)
    ensures w16 == Encode(prev[15], ByteBits(w8)) && w16[15] == LastBit(prev[15], ByteBits(w8))
  {
    hide *;
    var b := ByteBits(w8);
    w16 := prev;
    NothingShifted(prev, b);
    for j := 0 to 8
      invariant ShiftedIn(w16, prev[15], b, j)
    {
      OneMore(w16, prev[15], b, j);
      w16 := Shifted(w16, b[j]);
    }
    AllShifted(w16, prev[15], b);
  }

  /** The last cells of the register encode the first j bits of b. */
  ghost predicate ShiftedIn(w: Word, last: bool, b: seq<bool>, j: nat)
    requires j <= 8 == |b|
  {
    w[16 - 2 * j..] == Encode(last, b[..j]) && w[15] == LastBit(last, b[..j])
  }

  lemma NothingShifted(w: Word, b: seq<bool>)
    requires |b| == 8
    ensures ShiftedIn(w, w[15], b, 0)
  {
    assert b[..0] == [];
  }

  lemma AllShifted(w: Word, last: bool, b: seq<bool>)
    requires |b| == 8 && ShiftedIn(w, last, b, 8)
    ensures w == Encode(last, b) && w[15] == LastBit(last, b)
  {
    assert b[..8] == b && w[0..] == w;
  }

  /** The next two cells: no clock first, then one if both data bits are clear. */
  function Shifted(w: Word, bit: bool): Word
  {
    var s := w[2..] + [false, bit];
    if !s[13] && !s[15] then s[14 := true] else s
  }

  /** The normal MFM encoding of the data, one word a byte. */
  method EncodeWords(dat: seq<byte>) returns (mmfm: array<Word>)
    ensures fresh(mmfm) && mmfm.Length == |dat|
    ensures Flat(mmfm[..]) == Encode(false, BytesBits(dat))
  {
    hide Encode, ToBits;
    mmfm := new Word[|dat|](_ => Zeros(16));
    var w16: Word := Zeros(16);
    NothingEncoded(false, []);
    for i := 0 to |dat|
      invariant Flat(mmfm[..i]) == Encode(false, BytesBits(dat[..i]))
      invariant w16[15] == LastBit(false, BytesBits(dat[..i]))
    {
      w16 := EncodeWord(w16, dat[i]);
      mmfm[i] := w16;
      EncodeAppend(false, BytesBits(dat[..i]), ByteBits(dat[i]));
      assert dat[..i + 1][..i] == dat[..i];
      assert mmfm[..i + 1][..i] == mmfm[..i];
    }
    assert dat[..|dat|] == dat && mmfm[..|dat|] == mmfm[..];
  }

  lemma NothingEncoded(prev: bool, b: seq<bool>)
    ensures Encode(prev, []) == [] && Encode(prev, b[..0]) == [] && LastBit(prev, b[..0]) == prev
  {
    assert b[..0] == [];
  }

  lemma OneMore(w: Word, last: bool, b: seq<bool>, j: nat)
    requires |b| == 8 && j < 8 && ShiftedIn(w, last, b, j)
    ensures ShiftedIn(Shifted(w, b[j]), last, b, j + 1)
  {
    hide Encode;
    var after, c := Shifted(w, b[j]), !(w[15] || b[j]);
    EncodeAppend(last, b[..j], [b[j]]);
    assert b[..j + 1] == b[..j] + [b[j]];
    assert after == w[2..] + [c, b[j]];
    assert after[16 - 2 * (j + 1)..] == w[16 - 2 * j..] + [c, b[j]];
    EncodeOne(w[15], b[j]);
  }

  // ----- the substitution, word by word

  lemma SubstitutedStep(c: seq<bool>, k: nat)
    requires 8 <= k && 2 * k + 2 <= |c|
    ensures var b := Substituted(c, k);
            Substituted(c, k + 1) == if SixBits(b, k) then Substitute(b, k) else b
  {
  }

  /** Where the rule has not got to yet ... */
  lemma {:induction false} SubstitutedTail(c: seq<bool>, k: nat)
    requires 8 <= k && 2 * k <= |c|
    ensures Substituted(c, k)[2 * k..] == c[2 * k..]
  {
    if k > 8 {
      hide Substituted;
      SubstitutedTail(c, k - 1);
      SubstitutedStep(c, k - 1);
      var b, r := Substituted(c, k - 1), Substituted(c, k);
      forall i | 2 * k <= i < |c| ensures r[i] == c[i] {
        assert b[2 * (k - 1)..][i - 2 * (k - 1)] == c[2 * (k - 1)..][i - 2 * (k - 1)];
      }
    }
  }

  /** ... and where it will not come back to. */
  lemma {:induction false} SubstitutedHead(c: seq<bool>, k0: nat, k: nat)
    requires 8 <= k0 <= k && 2 * k <= |c|
    ensures Substituted(c, k)[..2 * k0 - 9] == Substituted(c, k0)[..2 * k0 - 9]
  {
    hide Substituted;
    if k > k0 {
      SubstitutedHead(c, k0, k - 1);
      SubstitutedStep(c, k - 1);
      var b, r := Substituted(c, k - 1), Substituted(c, k);
      assert r[..2 * k0 - 9] == b[..2 * k0 - 9];
    }
  }

  /** 0x222. */
  function Pattern(): (p: seq<bool>)
    ensures |p| == 11
  {
    [false, true, false, false, false, true, false, false, false, true, false]
  }

  /** One test of the inner loop, on a register that shows the cells from a on. */
  lemma RegisterStep(c: seq<bool>, a: nat, w: seq<bool>, o: nat, k: nat)
    requires a + 32 <= |c| && w == c[a..a + 32] && o <= 21
    requires k >= 5 && 2 * k - 9 == a + o && 2 * k + 1 < |c|
    ensures SixBits(c, k) <==> (!w[o] && w[o + 2] && w[o + 4] && w[o + 6] && w[o + 8] && !w[o + 10])
    ensures w[..o] + Pattern() + w[o + 11..] == Substitute(c, k)[a..a + 32]
  {
    var l, r := w[..o] + Pattern() + w[o + 11..], Substitute(c, k)[a..a + 32];
    forall i | 0 <= i < 32 ensures l[i] == r[i] {
      if o <= i < o + 11 {
        PatternAt(i - o);
      }
    }
  }

  lemma PatternAt(i: nat)
    requires i < 11
    ensures Pattern()[i] == (i % 4 == 1)
  {
  }

  /** The inner loop: the rule at the eight data bits of the low word. */
  method TestWord(w: seq<bool>, ghost c: seq<bool>, ghost i: nat) returns (w32: seq<bool>)
    requires 16 * i + 32 <= |c| && w == Substituted(c, 8 + 8 * i)[16 * i..16 * i + 32]
    ensures w32 == Substituted(c, 16 + 8 * i)[16 * i..16 * i + 32]
  {
    hide *;
    w32 := w;
    for j := 0 to 8
      invariant w32 == Substituted(c, 8 + 8 * i + j)[16 * i..16 * i + 32]
    {
      var o := 7 + 2 * j;
      ghost var k := 8 + 8 * i + j;
      RegisterStep(Substituted(c, k), 16 * i, w32, o, k);
      SubstitutedStep(c, k);
      if !w32[o] && w32[o + 2] && w32[o + 4] && w32[o + 6] && w32[o + 8] && !w32[o + 10] {
        w32 := w32[..o] + Pattern() + w32[o + 11..];
      }
    }
  }

  /** The state of the substitution loop: the register shows the cells of the last
      word, and that word has not been written back. */
  ghost predicate RuleAt(now: seq<Word>, ws: seq<Word>, w32: seq<bool>, i: nat)
    requires i <= |ws|
  {
    var v := Substituted(Zeros(16) + Flat(ws), 8 + 8 * i);
    && |w32| == 32 && 16 * i + 16 <= |v|
    && w32[16..] == v[16 * i..16 * i + 16]
    && Done(now, ws, v, if i == 0 then 0 else i - 1)
  }

  /** One pass of the substitution loop. */
  method RuleStep(mmfm: array<Word>, w: seq<bool>, i: nat, ghost ws: seq<Word>) returns (w32: seq<bool>)
    requires i < mmfm.Length == |ws| && RuleAt(mmfm[..], ws, w, i)
    modifies mmfm
    ensures RuleAt(mmfm[..], ws, w32, i + 1)
  {
    hide Substituted, Substitute, Flat, Done, Zeros, SixBits;
    ghost var c := Zeros(16) + Flat(ws);
    ghost var v, u := Substituted(c, 8 + 8 * i), Substituted(c, 16 + 8 * i);
    ghost var before := mmfm[..];
    NextWord(c, ws, i);
    StillThere(before, ws, v, if i == 0 then 0 else i - 1, i);
    w32 := w[16..] + mmfm[i];
    Adjoin(v, 16 * i, 16 * i + 16, 16 * i + 32);
    w32 := TestWord(w32, c, i);
    SubstitutedHead(c, 8 + 8 * i, 16 + 8 * i);
    RegisterHalves(u, 16 * i, w32);
    if i > 0 {
      mmfm[i - 1] := w32[..16];
      OneMoreDone(before, ws, v, u, i - 1, mmfm[i - 1]);
      assert mmfm[..] == before[i - 1 := mmfm[i - 1]];
    } else {
      NoneDone(ws, u);
      NoneYet(before, ws, v);
    }
  }

  /** The substitution loop of ibm_fm_read_raw.  A word is written back when the
      next one has been looked at; the last word is not written back. */
  method ApplyRule(mmfm: array<Word>)
    requires mmfm.Length > 0
    modifies mmfm
    ensures var v := Substituted(Zeros(16) + Flat(old(mmfm[..])), 8 + 8 * mmfm.Length);
            && (forall a | 0 <= a < mmfm.Length - 1 :: mmfm[a] == v[16 * a + 16..16 * a + 32])
            && mmfm[mmfm.Length - 1] == old(mmfm[mmfm.Length - 1])
  {
    hide *;
    ghost var ws := mmfm[..];
    var w32 := Zeros(32);
    RuleStart(ws);
    for i := 0 to mmfm.Length
      invariant RuleAt(mmfm[..], ws, w32, i)
    {
      w32 := RuleStep(mmfm, w32, i, ws);
    }
    RuleEnd(mmfm[..], ws, w32);
  }

  lemma RuleStart(ws: seq<Word>)
    requires ws != []
    ensures RuleAt(ws, ws, Zeros(32), 0)
  {
    hide Flat;
    StartRegister(Zeros(16) + Flat(ws), ws);
    NoneDone(ws, Zeros(16) + Flat(ws));
  }

  lemma RuleEnd(now: seq<Word>, ws: seq<Word>, w32: seq<bool>)
    requires ws != [] && RuleAt(now, ws, w32, |ws|)
    ensures var v := Substituted(Zeros(16) + Flat(ws), 8 + 8 * |ws|);
            && |now| == |ws| && (forall a | 0 <= a < |now| - 1 :: now[a] == v[16 * a + 16..16 * a + 32])
            && now[|now| - 1] == ws[|ws| - 1]
  {
    hide Flat, Substituted;
    AllDone(now, ws, Substituted(Zeros(16) + Flat(ws), 8 + 8 * |ws|));
  }

  /** The first k words have their final cells, the others are as they were. */
  ghost predicate Done(now: seq<Word>, ws: seq<Word>, v: seq<bool>, k: nat)
  {
    && |now| == |ws| && k <= |ws| && |v| == 16 * |ws| + 16
    && (forall a | 0 <= a < k :: now[a] == v[16 * a + 16..16 * a + 32])
    && now[k..] == ws[k..]
  }

  lemma NoneDone(ws: seq<Word>, v: seq<bool>)
    requires |v| == 16 * |ws| + 16
    ensures Done(ws, ws, v, 0)
  {
  }

  lemma NoneYet(now: seq<Word>, ws: seq<Word>, v: seq<bool>)
    requires Done(now, ws, v, 0)
    ensures now == ws
  {
    assert now == now[0..] && ws == ws[0..];
  }

  lemma StillThere(now: seq<Word>, ws: seq<Word>, v: seq<bool>, k: nat, i: nat)
    requires Done(now, ws, v, k) && k <= i < |ws|
    ensures i < |now| && now[i] == ws[i]
  {
    assert now[i] == now[k..][i - k] && ws[i] == ws[k..][i - k];
  }

  lemma OneMoreDone(now: seq<Word>, ws: seq<Word>, v: seq<bool>, u: seq<bool>, k: nat, w: Word)
    requires Done(now, ws, v, k) && k < |ws| && |u| == |v| && 16 * k + 23 <= |v| && u[..16 * k + 23] == v[..16 * k + 23]
    requires 16 * k + 32 <= |u| && w == u[16 * k + 16..16 * k + 32]
    ensures Done(now[k := w], ws, u, k + 1)
  {
    var next := now[k := w];
    forall a | 0 <= a < k + 1 ensures next[a] == u[16 * a + 16..16 * a + 32] {
      if a < k {
        SameHead(v, u, 16 * k + 23, 16 * a + 16, 16 * a + 32);
      }
    }
    assert next[k + 1..] == now[k..][1..] && ws[k + 1..] == ws[k..][1..];
  }

  lemma AllDone(now: seq<Word>, ws: seq<Word>, v: seq<bool>)
    requires ws != [] && Done(now, ws, v, |ws| - 1)
    ensures forall a | 0 <= a < |ws| - 1 :: now[a] == v[16 * a + 16..16 * a + 32]
    ensures now[|ws| - 1] == ws[|ws| - 1]
  {
    StillThere(now, ws, v, |ws| - 1, |ws| - 1);
  }

  lemma RegisterHalves(u: seq<bool>, a: nat, w: seq<bool>)
    requires a + 32 <= |u| && w == u[a..a + 32]
    ensures w[..16] == u[a..a + 16] && w[16..] == u[a + 16..a + 32]
  {
  }

  lemma StartRegister(c: seq<bool>, ws: seq<Word>)
    requires c == Zeros(16) + Flat(ws)
    ensures Substituted(c, 8) == c && Zeros(32)[16..] == c[0..16]
  {
  }

  /** The word behind the register still holds what was encoded. */
  lemma NextWord(c: seq<bool>, ws: seq<Word>, i: nat)
    requires c == Zeros(16) + Flat(ws) && i < |ws|
    ensures var v := Substituted(c, 8 + 8 * i);
            16 * i + 32 <= |v| && v[16 * i + 16..16 * i + 32] == ws[i]
  {
    hide Substituted, Flat;
    FlatAt(ws, i);
    SubstitutedTail(c, 8 + 8 * i);
    var v := Substituted(c, 8 + 8 * i);
    assert v[16 * i + 16..][0..16] == c[16 * i + 16..][0..16] == ws[i];
  }

  // ----- a sector

  /** The bytes of a sector, its CRC and the lead-out. */
  function Field(dat: seq<byte>, crc: Reg): (f: seq<byte>)
    ensures |f| == |dat| + 4
  {
    dat + [ByteOf(crc[..8]), ByteOf(crc[8..]), 0xff, 0xff]
  }

  /** The cells of a sector: normal MFM, then the substitution. */
  function FieldCells(f: seq<byte>): (c: seq<bool>)
    ensures |c| == 16 * |f|
  {
    Substituted(Zeros(16) + Encode(false, BytesBits(f)), 8 + 8 * |f|)[16..]
  }

  lemma PaddedData(f: seq<byte>)
    ensures var c := Zeros(16) + Encode(false, BytesBits(f));
            DataBits(c) == Zeros(8) + BytesBits(f)
  {
    DataBitsOfEncode(false, BytesBits(f));
    var c := Zeros(16) + Encode(false, BytesBits(f));
    DataBitsSplit(c, 16);
    assert c[..16] == Zeros(16) && c[16..] == Encode(false, BytesBits(f));
    assert DataBits(Zeros(16)) == Zeros(8);
  }

  lemma FourBytes(a: byte, b: byte, c: byte, d: byte)
    ensures BytesBits([a, b, c, d]) == ByteBits(a) + ByteBits(b) + ByteBits(c) + ByteBits(d)
  {
    hide ToBits;
    assert [a, b, c, d][..3] == [a, b, c] && [a, b, c][..2] == [a, b] && [a, b][..1] == [a];
    assert BytesBits([a]) == ByteBits(a) by {
      assert [a][..0] == [];
    }
    assert BytesBits([a, b]) == BytesBits([a]) + ByteBits(b);
    assert BytesBits([a, b, c]) == BytesBits([a, b]) + ByteBits(c);
  }

  lemma OnesAtEnd(dat: seq<byte>, crc: Reg)
    ensures BytesBits(Field(dat, crc)) == BytesBits(dat) + crc + seq(16, _ => true)
  {
    hide BytesBits, ToBits;
    var hi, lo := ByteOf(crc[..8]), ByteOf(crc[8..]);
    BytesBitsAppend(dat, [hi, lo, 0xff, 0xff]);
    FourBytes(hi, lo, 0xff, 0xff);
    BitsOfByte(crc[..8]);
    BitsOfByte(crc[8..]);
    Pow8();
    OnesBits(0xff, 8);
  }

  lemma {:induction false} OnesBits(n: nat, k: nat)
    requires n + 1 == Pow2(k)
    ensures ToBits(n, k) == seq(k, _ => true)
  {
    if k > 0 {
      OnesBits(n / 2, k - 1);
    }
  }

  /** Any even number of the cells of a field, as long as the data bits that are
      left out are ones. */
  lemma FieldIsWritten(f: seq<byte>, n: nat)
    requires n <= 8 * |f| && forall j | n <= j < 8 * |f| :: BytesBits(f)[j]
    ensures Written(FieldCells(f)[..2 * n], Zeros(8) + BytesBits(f))
  {
    hide *;
    var d := BytesBits(f);
    var c0, p := Zeros(16) + Encode(false, d), Zeros(8) + d;
    PaddedData(f);
    SubstitutedIs(c0, p, |p|);
    var v := Substituted(c0, |p|);
    var w := FieldCells(f)[..2 * n];
    FieldCellsAre(f, n);
    forall m | 0 <= m < n ensures WrittenAt(w, p, m) {
      CellsWritten(v, w, d, m, n);
    }
    WrittenIs(w, d, n);
  }

  lemma FieldCellsAre(f: seq<byte>, n: nat)
    requires n <= 8 * |f|
    ensures FieldCells(f)[..2 * n]
         == Substituted(Zeros(16) + Encode(false, BytesBits(f)), |Zeros(8) + BytesBits(f)|)[16..16 + 2 * n]
  {
    hide Substituted, Encode, BytesBits;
  }

  lemma WrittenIs(w: seq<bool>, d: seq<bool>, n: nat)
    requires |w| == 2 * n && n <= |d| && forall j | n <= j < |d| :: d[j]
    requires forall m | 0 <= m < n :: WrittenAt(w, Zeros(8) + d, m)
    ensures Written(w, Zeros(8) + d)
  {
    hide WrittenAt;
  }

  lemma CellsWritten(v: seq<bool>, w: seq<bool>, d: seq<bool>, m: nat, n: nat)
    requires m < n <= |d| && |v| == 16 + 2 * |d| && w == v[16..16 + 2 * n]
    requires CellsAre(v, Zeros(16) + Encode(false, d), Zeros(8) + d, m + 8, 8 + |d|)
    ensures WrittenAt(w, Zeros(8) + d, m)
  {
    hide InRun;
    ClockOf(d, m);
    assert w[2 * m] == v[2 * (m + 8)] && w[2 * m + 1] == v[2 * (m + 8) + 1];
  }

  lemma ClockOf(d: seq<bool>, m: nat)
    requires m < |d|
    ensures var p := Zeros(8) + d;
            (Zeros(16) + Encode(false, d))[2 * (m + 8)] == !(p[m + 7] || p[m + 8])
  {
  }

  /** The RX02 round trip: undoing the substitution gives back the data bits of
      every sector and of its CRC, and the CRC over both comes out as zero. */
  lemma RoundTrip(dat: seq<byte>, crc0: Reg)
    ensures var crc := CrcBits(BytesBits(dat), crc0);
            var n := 8 * |dat| + 16;
            var w := FieldCells(Field(dat, crc))[..2 * n];
            && DataBits(Restored(w, n)) == BytesBits(dat) + crc
            && CrcBits(DataBits(Restored(w, n)), crc0) == Zeros(16)
  {
    hide Restored, FieldCells, BytesBits, CrcBits, DataBits, Written, Field;
    var crc := CrcBits(BytesBits(dat), crc0);
    var f, n := Field(dat, crc), 8 * |dat| + 16;
    OnesAtEnd(dat, crc);
    FieldIsWritten(f, n);
    var w := FieldCells(f)[..2 * n];
    RestoredData(w, Zeros(8) + BytesBits(f));
    assert (Zeros(8) + BytesBits(f))[8..8 + n] == BytesBits(dat) + crc;
    CrcBitsAppend(BytesBits(dat), crc, crc0);
    CrcResidueZero(crc);
  }

  /** The rewritten cells keep the run lengths of MFM: all of the field. */
  lemma FieldRunLength(f: seq<byte>)
    ensures var w := FieldCells(f);
            && (forall i | 0 <= i < |w| - 1 :: !(w[i] && w[i + 1]))
            && (forall i | 0 <= i < |w| - 3 :: w[i] || w[i + 1] || w[i + 2] || w[i + 3])
  {
    hide FieldCells, BytesBits, Written;
    FieldIsWritten(f, 8 * |f|);
    var w := FieldCells(f);
    assert w[..16 * |f|] == w;
    WrittenRunLength(w, Zeros(8) + BytesBits(f));
  }

  // ----- the writer

  /** The data field of ibm_fm_read_raw for a modified-MFM mark, crc0 being the
      CRC of the mark. */
  method WriteField(dat: seq<byte>, crc0: Reg) returns (mmfm: array<Word>, crc: Reg)
    ensures crc == CrcBits(BytesBits(dat), crc0)
    ensures Flat(mmfm[..]) == FieldCells(Field(dat, crc))
  {
    hide *;
    crc := Crc16Ccitt(dat, crc0);
    var f := Field(dat, crc);
    mmfm := EncodeWords(f);
    ghost var ws := mmfm[..];
    ApplyRule(mmfm);
    LastWordKept(dat, crc, ws);
    ghost var v := Substituted(Zeros(16) + Flat(ws), 8 + 8 * mmfm.Length);
    forall a | 0 <= a < mmfm.Length - 1 ensures mmfm[a] == WordOf(v, a + 1) {
      WordOfIs(v, a + 1);
    }
    FieldCellsIs(f);
    WordsAre(mmfm[..], v, FieldCells(f));
  }

  /** The word that is not written back is not changed either. */
  lemma LastWordKept(dat: seq<byte>, crc: Reg, ws: seq<Word>)
    requires var f := Field(dat, crc); |ws| == |f| && Flat(ws) == Encode(false, BytesBits(f))
    ensures ws[|ws| - 1] == FieldCells(Field(dat, crc))[16 * |ws| - 16..]
  {
    hide FieldCells, BytesBits, Encode, Written, WrittenAt, InRun, Flat;
    var f := Field(dat, crc);
    var n := |f|;
    var d, w := BytesBits(f), FieldCells(f);
    OnesAtEnd(dat, crc);
    FieldIsWritten(f, 8 * n);
    assert w[..16 * n] == w;
    FlatAt(ws, n - 1);
    forall i | 16 * n - 16 <= i < 16 * n ensures w[i] == Encode(false, d)[i] {
      assert d[i / 2];
      OnesUnchanged(w, d, i);
    }
  }

  lemma OnesUnchanged(w: seq<bool>, d: seq<bool>, i: nat)
    requires |w| == 2 * |d| && Written(w, Zeros(8) + d) && i < |w|
    requires |d| >= 8 && i / 2 >= |d| - 8 && forall j | |d| - 8 <= j < |d| :: d[j]
    ensures w[i] == Encode(false, d)[i]
  {
    var p := Zeros(8) + d;
    assert WrittenAt(w, p, i / 2);
    NoRunInOnes(p, i / 2 + 8);
  }

  lemma NoRunInOnes(p: seq<bool>, m: nat)
    requires |p| >= 8 && |p| - 8 <= m < |p| && forall j | |p| - 8 <= j < |p| :: p[j]
    ensures InRun(p, m, |p|) == 5
  {
  }

  lemma FieldCellsIs(f: seq<byte>)
    ensures var v := Substituted(Zeros(16) + Encode(false, BytesBits(f)), 8 + 8 * |f|);
            FieldCells(f) == v[16..|v|]
  {
  }

  /** All words but the last taken from v, the last from c, which is v without its
      first word. */
  lemma WordsAre(ws: seq<Word>, v: seq<bool>, c: seq<bool>)
    requires |c| == 16 * |ws| > 0 && |v| == |c| + 16 && c == v[16..|v|]
    requires forall a | 0 <= a < |ws| - 1 :: ws[a] == WordOf(v, a + 1)
    requires ws[|ws| - 1] == c[|c| - 16..]
    ensures Flat(ws) == c
  {
    hide *;
    forall a | 0 <= a < |ws| ensures ws[a] == WordOf(c, a) {
      if a == |ws| - 1 {
        LastWord(c, a);
      } else {
        WordIs(v, c, a);
      }
    }
    FlatWords(ws, c);
  }

  /** Word a of a list of cells. */
  ghost function WordOf(c: seq<bool>, a: nat): seq<bool>
  {
    if 16 * a + 16 <= |c| then c[16 * a..16 * a + 16] else []
  }

  lemma WordOfIs(c: seq<bool>, a: nat)
    requires 16 * a + 16 <= |c|
    ensures WordOf(c, a) == c[16 * a..16 * a + 16]
  {
  }

  lemma FlatWords(ws: seq<Word>, c: seq<bool>)
    requires |c| == 16 * |ws| && forall i | 0 <= i < |ws| :: ws[i] == WordOf(c, i)
    ensures Flat(ws) == c
  {
    hide Flat;
    FlatIs(ws, c);
  }

  lemma WordIs(v: seq<bool>, c: seq<bool>, a: nat)
    requires 16 * a + 32 <= |v| && c == v[16..|v|]
    ensures WordOf(v, a + 1) == WordOf(c, a)
  {
    hide *;
    WordOfIs(v, a + 1);
    WordOfIs(c, a);
    ShiftedSlice(v, c, 16 * a);
  }

  lemma ShiftedSlice(v: seq<bool>, c: seq<bool>, i: nat)
    requires i + 32 <= |v| && c == v[16..|v|]
    ensures c[i..i + 16] == v[i + 16..i + 32]
  {
    SliceOfSlice(v, 16, |v|, i, i + 16);
  }

  lemma LastWord(c: seq<bool>, a: nat)
    requires 16 * a + 16 == |c|
    ensures c[16 * a..] == WordOf(c, a)
  {
  }

  // ----- the reader

  /** One bit of a byte set. */
  function WithBit(b: byte, i: nat): byte
    requires i < 8
  {
    ByteOf(ByteBits(b)[i := true])
  }

  /** x, with the outer bits of a clear triple set.  (Bit 8 is shifted out before
      it is looked at again, so it does not matter that it is set here too.) */
  function Triple(x: Word, i: nat): Word
    requires i + 2 < 16
  {
    if !x[i] && !x[i + 1] && !x[i + 2] then x[i := true][i + 2 := true] else x
  }

  /** The register shows byte i of the cells and the cell before it. */
  ghost predicate Shows(c: seq<bool>, i: nat, x: Word)
  {
    && 8 * i + 8 <= |c|
    && (forall e | 8 <= e < 16 :: x[e] == c[8 * i + e - 8])
    && (if i == 0 then x[7] else x[7] == c[8 * i - 1])
  }

  lemma RestoreStep(c: seq<bool>, i: nat, x: Word, t: nat)
    requires Shows(c, i, x) && t < 4
    ensures i == 0 && t == 0 ==> Triple(x, 7) == x
    ensures 4 * i + t > 0 ==>
              var r := Restore(c, 4 * i + t);
              && Shows(r, i, Triple(x, 7 + 2 * t))
              && r[8 * i + 8..] == c[8 * i + 8..]
              && (i > 0 ==> r[..8 * i - 1] == c[..8 * i - 1])
  {
  }

  lemma RestoredStep(c: seq<bool>, k: nat)
    requires 2 * k + 2 <= |c|
    ensures Restored(c, k + 1) == if k == 0 then c else Restore(Restored(c, k), k)
    ensures Restored(c, 0) == c
  {
  }

  /** The four tests on one byte. */
  lemma ByteStep(c: seq<bool>, i: nat, x: Word)
    requires 8 * i + 8 <= |c| && Shows(Restored(c, 4 * i), i, x)
    ensures var b, r := Restored(c, 4 * i), Restored(c, 4 * i + 4);
            && Shows(r, i, Triple(Triple(Triple(Triple(x, 7), 9), 11), 13))
            && r[8 * i + 8..] == b[8 * i + 8..]
            && (i > 0 ==> r[..8 * i - 1] == b[..8 * i - 1])
  {
    hide *;
    var k := 4 * i;
    var x1, x2, x3 := Triple(x, 7), Triple(Triple(x, 7), 9), Triple(Triple(Triple(x, 7), 9), 11);
    RestoredStep(c, k);
    RestoredStep(c, k + 1);
    RestoredStep(c, k + 2);
    RestoredStep(c, k + 3);
    RestoreStep(Restored(c, k), i, x, 0);
    RestoreStep(Restored(c, k + 1), i, x1, 1);
    RestoreStep(Restored(c, k + 2), i, x2, 2);
    RestoreStep(Restored(c, k + 3), i, x3, 3);
  }

  lemma {:induction false} BytesFromCells(bs: seq<byte>, c: seq<bool>)
    requires |c| == 8 * |bs| && forall a | 0 <= a < |bs| :: ByteBits(bs[a]) == c[8 * a..8 * a + 8]
    ensures BytesBits(bs) == c
  {
    hide ByteBits;
    if bs != [] {
      var n := |bs| - 1;
      forall a | 0 <= a < n ensures ByteBits(bs[..n][a]) == c[..8 * n][8 * a..8 * a + 8] {
        SliceOfSlice(c, 0, 8 * n, 8 * a, 8 * a + 8);
      }
      BytesFromCells(bs[..n], c[..8 * n]);
    }
  }

  /** Storing the byte, and the bit before it, leaves the cells restored. */
  lemma ByteStored(b: seq<byte>, after: seq<byte>, r: seq<bool>, i: nat, x: Word, y: Word)
    requires |after| == |b| && |r| == 8 * |b| && i < |b|
    requires Shows(BytesBits(b), i, x) && Shows(r, i, y) && y[7] == (x[7] || (!x[8] && !x[9]))
    requires r[8 * i + 8..] == BytesBits(b)[8 * i + 8..]
    requires i > 0 ==> r[..8 * i - 1] == BytesBits(b)[..8 * i - 1]
    requires after[i] == ByteOf(y[8..])
    requires i > 0 ==> after[i - 1] == if !x[7] && !x[8] && !x[9] then WithBit(b[i - 1], 7) else b[i - 1]
    requires forall a | 0 <= a < |b| && a != i && a != i - 1 :: after[a] == b[a]
    ensures BytesBits(after) == r
  {
    hide *;
    forall a | 0 <= a < |b| ensures ByteBits(after[a]) == r[8 * a..8 * a + 8] {
      StoredAt(b, after[a], r, i, x, y, a);
    }
    BytesFromCells(after, r);
  }

  lemma StoredAt(b: seq<byte>, z: byte, r: seq<bool>, i: nat, x: Word, y: Word, a: nat)
    requires |r| == 8 * |b| && i < |b| && a < |b|
    requires Shows(BytesBits(b), i, x) && Shows(r, i, y) && y[7] == (x[7] || (!x[8] && !x[9]))
    requires r[8 * i + 8..] == BytesBits(b)[8 * i + 8..]
    requires i > 0 ==> r[..8 * i - 1] == BytesBits(b)[..8 * i - 1]
    requires z == if a == i then ByteOf(y[8..])
                  else if a == i - 1 && !x[7] && !x[8] && !x[9] then WithBit(b[a], 7) else b[a]
    ensures ByteBits(z) == r[8 * a..8 * a + 8]
  {
    hide *;
    var c := BytesBits(b);
    ShownByte(c, i, x);
    ShownByte(r, i, y);
    BytesBitsAt(b, a);
    if a == i {
      BitsOfByte(y[8..]);
    } else if a == i - 1 {
      StoredBefore(b[a], z, c, r, 8 * a, x, y);
    } else {
      StoredElsewhere(b, r, i, a);
    }
  }

  lemma StoredElsewhere(b: seq<byte>, r: seq<bool>, i: nat, a: nat)
    requires |r| == 8 * |b| && i < |b| && a < |b| && a != i && a + 1 != i
    requires r[8 * i + 8..] == BytesBits(b)[8 * i + 8..]
    requires i > 0 ==> r[..8 * i - 1] == BytesBits(b)[..8 * i - 1]
    ensures ByteBits(b[a]) == r[8 * a..8 * a + 8]
  {
    hide *;
    var c := BytesBits(b);
    BytesBitsAt(b, a);
    if a < i {
      SameHead(c, r, 8 * i - 1, 8 * a, 8 * a + 8);
    } else {
      SameTail(c, r, 8 * i + 8, 8 * a, 8 * a + 8);
    }
  }

  lemma StoredBefore(b: byte, z: byte, c: seq<bool>, r: seq<bool>, p: nat, x: Word, y: Word)
    requires p + 8 <= |c| == |r| && c[p..p + 8] == ByteBits(b) && r[..p + 7] == c[..p + 7]
    requires c[p + 7] == x[7] && r[p + 7] == y[7] == (x[7] || (!x[8] && !x[9]))
    requires z == if !x[7] && !x[8] && !x[9] then WithBit(b, 7) else b
    ensures ByteBits(z) == r[p..p + 8]
  {
    hide *;
    ByteBefore(b, c[p..p + 8], x, y);
    PrefixCells(c, r, p + 7, p);
  }

  lemma ByteBefore(b: byte, s: seq<bool>, x: Word, y: Word)
    requires |s| == 8 && ByteBits(b) == s && s[7] == x[7] && y[7] == (x[7] || (!x[8] && !x[9]))
    ensures ByteBits(if !x[7] && !x[8] && !x[9] then WithBit(b, 7) else b) == s[7 := y[7]]
  {
    hide ByteBits, ByteOf;
    BitsOfByte(s[7 := true]);
    assert s[7 := s[7]] == s;
  }

  lemma ShownByte(c: seq<bool>, i: nat, x: Word)
    requires Shows(c, i, x)
    ensures 8 * i + 8 <= |c| && c[8 * i..8 * i + 8] == x[8..]
    ensures i > 0 ==> c[8 * i - 1] == x[7]
  {
  }

  lemma SameHead(c: seq<bool>, r: seq<bool>, hi: nat, p: nat, q: nat)
    requires p <= q <= hi <= |c| == |r| && r[..hi] == c[..hi]
    ensures r[p..q] == c[p..q]
  {
    SliceOfSlice(c, 0, hi, p, q);
    SliceOfSlice(r, 0, hi, p, q);
  }

  lemma SameTail(c: seq<bool>, r: seq<bool>, lo: nat, p: nat, q: nat)
    requires lo <= p <= q <= |c| == |r| && r[lo..] == c[lo..]
    ensures r[p..q] == c[p..q]
  {
    SliceOfSlice(c, lo, |c|, p - lo, q - lo);
    SliceOfSlice(r, lo, |r|, p - lo, q - lo);
  }

  lemma PrefixCells(c: seq<bool>, r: seq<bool>, hi: nat, lo: nat)
    requires lo + 7 == hi < |c| == |r| && r[..hi] == c[..hi]
    ensures r[lo..lo + 8] == c[lo..lo + 8][7 := r[hi]]
  {
    forall j | lo <= j < hi ensures r[j] == c[j] {
      assert r[..hi][j] == c[..hi][j];
    }
  }

  /** The first loop of ibm_fm_write_raw over the bytes of an RX02 field. */
  method UndoRule(dat: array<byte>)
    modifies dat
    ensures BytesBits(dat[..]) == Restored(old(BytesBits(dat[..])), 4 * dat.Length)
  {
    hide *;
    ghost var c := BytesBits(dat[..]);
    var x: Word := FirstRegister();
    StartUndo(c);
    for i := 0 to dat.Length
      invariant BytesBits(dat[..]) == Restored(c, 4 * i) && |c| == 8 * dat.Length
      invariant i == 0 ==> x[15]
      invariant i > 0 ==> x[15] == Restored(c, 4 * i)[8 * i - 1]
    {
      ghost var b := dat[..];
      x := x[8..] + ByteBits(dat[i]);
      ShowsByte(b, i, x);
      ghost var x0 := x;
      if !x[7] && !x[8] && !x[9] {
        dat[i - 1] := WithBit(dat[i - 1], 7);
      }
      x := Triple(Triple(Triple(Triple(x, 7), 9), 11), 13);
      dat[i] := ByteOf(x[8..]);
      ByteStep(c, i, x0);
      TripleSeven(x0);
      ByteStored(b, dat[..], Restored(c, 4 * i + 4), i, x0, x);
      LastShown(Restored(c, 4 * i + 4), i, x);
    }
  }

  /** uint16_t x = 1. */
  function FirstRegister(): (x: Word)
    ensures x[15]
  {
    Zeros(15) + [true]
  }

  lemma StartUndo(c: seq<bool>)
    ensures Restored(c, 0) == c
  {
  }

  lemma ShowsByte(b: seq<byte>, i: nat, x: Word)
    requires i < |b| && x[8..] == ByteBits(b[i])
    requires if i == 0 then x[7] else x[7] == BytesBits(b)[8 * i - 1]
    ensures Shows(BytesBits(b), i, x)
  {
    hide BytesBits, ToBits;
    BytesBitsAt(b, i);
    var s := BytesBits(b)[8 * i..8 * i + 8];
    forall e | 8 <= e < 16 ensures x[e] == BytesBits(b)[8 * i + e - 8] {
      assert x[e] == x[8..][e - 8] == s[e - 8];
    }
  }

  lemma TripleSeven(x: Word)
    ensures Triple(Triple(Triple(Triple(x, 7), 9), 11), 13)[7] == (x[7] || (!x[8] && !x[9]))
  {
  }

  lemma LastShown(c: seq<bool>, i: nat, x: Word)
    requires Shows(c, i, x)
    ensures 8 * i + 8 <= |c| && x[15] == c[8 * i + 7]
  {
  }

  /** What a reader makes of the bytes of an RX02 field: n data bytes. */
  function DataOf(raw: seq<byte>): seq<bool>
  {
    DataBits(Restored(BytesBits(raw), 4 * |raw|))
  }

  /** The RX02 branch of ibm_fm_write_raw, decoding in place: n bytes of data and
      CRC, and the CRC over them. */
  method ReadField(dat: array<byte>, n: nat, crc0: Reg) returns (crc: Reg)
    requires dat.Length == 2 * n
    modifies dat
    ensures BytesBits(dat[..n]) == DataOf(old(dat[..]))
    ensures crc == CrcBits(DataOf(old(dat[..])), crc0)
  {
    hide *;
    ghost var raw := dat[..];
    UndoRule(dat);
    ghost var back := dat[..];
    assert dat[0..0 + 2 * n] == back;
    MfmDecodeBytes(Linear, n, dat, 0, dat);
    LinearBits(back, dat[..n], n);
    DataOfIs(raw);
    crc := Crc16Ccitt(dat[..n], crc0);
  }

  lemma DataOfIs(raw: seq<byte>)
    ensures DataOf(raw) == DataBits(Restored(BytesBits(raw), 4 * |raw|))
  {
  }

  /** Linear decoding keeps the data bits in order. */
  lemma {:induction false} LinearBits(raw: seq<byte>, out: seq<byte>, n: nat)
    requires |raw| == 2 * n && |out| == n
    requires forall i | 0 <= i < n :: out[i] == DecodedByte(Linear, raw, n, i)
    ensures BytesBits(out) == DataBits(BytesBits(raw))
  {
    hide BytesBits, AllOdds, Odds, DataBits, DecodedByte;
    var c := BytesBits(raw);
    forall k | 0 <= k < 2 * n ensures raw[k] == ByteOf(c[8 * k..8 * k + 8]) {
      BytesBitsAt(raw, k);
      ByteOfBits(raw[k]);
    }
    PackedDataCells(c, raw);
    forall i | 0 <= i < n ensures Odds(raw[2 * i]) + Odds(raw[2 * i + 1]) == ByteBits(out[i]) {
      DecodedBits(raw, n, i);
    }
    OddsFromNibbles(raw, out);
  }

  lemma DecodedBits(raw: seq<byte>, n: nat, i: nat)
    requires |raw| == 2 * n && i < n
    ensures ByteBits(DecodedByte(Linear, raw, n, i)) == Odds(raw[2 * i]) + Odds(raw[2 * i + 1])
  {
    hide Odds, ByteOf, ToBits;
    BitsOfByte(Odds(raw[2 * i]) + Odds(raw[2 * i + 1]));
  }

  /** Every sector comes back: the bytes of the cells that were written decode to
      the data and its CRC, and the CRC over both is zero. */
  lemma SectorRoundTrip(dat: seq<byte>, crc0: Reg, raw: seq<byte>)
    requires |raw| == 2 * (|dat| + 2)
    requires BytesBits(raw) == FieldCells(Field(dat, CrcBits(BytesBits(dat), crc0)))[..8 * |raw|]
    ensures DataOf(raw) == BytesBits(dat) + CrcBits(BytesBits(dat), crc0)
    ensures CrcBits(DataOf(raw), crc0) == Zeros(16)
  {
    hide *;
    RoundTrip(dat, crc0);
    DataOfIs(raw);
  }
}
