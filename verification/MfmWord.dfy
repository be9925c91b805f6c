/** The shift-and-mask codec of whole words: sixteen data bits and the thirty-two
    cells that encode them. */
module MfmWord {
  import opened Bits
  import opened Mfm

  type Word = w: seq<bool> | |w| == 32 witness Zeros(32)

  function And(a: Word, b: Word): (r: Word)
    ensures forall i | 0 <= i < 32 :: r[i] == (a[i] && b[i])
  {
    seq(32, i requires 0 <= i < 32 => a[i] && b[i])
  }

  function Or(a: Word, b: Word): (r: Word)
    ensures forall i | 0 <= i < 32 :: r[i] == (a[i] || b[i])
  {
    seq(32, i requires 0 <= i < 32 => a[i] || b[i])
  }

  function Not(a: Word): (r: Word)
    ensures forall i | 0 <= i < 32 :: r[i] == !a[i]
  {
    seq(32, i requires 0 <= i < 32 => !a[i])
  }

  /** 1 << k. */
  function One(k: nat): (r: Word)
    requires k < 32
    ensures forall i | 0 <= i < 32 :: r[i] == (i == 31 - k)
  {
    seq(32, i requires 0 <= i < 32 => i == 31 - k)
  }

  /** 0xaaaaaaaa. */
  function ClockMask(): (r: Word)
    ensures forall i | 0 <= i < 32 :: r[i] == (i % 2 == 0)
  {
    seq(32, i requires 0 <= i < 32 => i % 2 == 0)
  }

  /** The first n of the sixteen terms of mfm_decode_word, from the lowest: each takes
      bit 2j of w down to bit j. */
  function Gathered(w: Word, n: nat): Word
    requires n <= 16
  {
    if n == 0 then Zeros(32) else Or(Gathered(w, n - 1), Shr(And(w, One(2 * (n - 1))), n - 1))
  }

  function MfmDecodeWord(w: Word): Word
  {
    Gathered(w, 16)
  }

  /** The first n terms of mfm_encode_word: each takes bit j of w up to bit 2j. */
  function Scattered(w: Word, n: nat): Word
    requires n <= 16
  {
    if n == 0 then Zeros(32) else Or(Scattered(w, n - 1), Shl(And(w, One(n - 1)), n - 1))
  }

  /** mfm_encode_word: the data bits in their places, the clock bits between them, and
      the first clock bit again as the bit before it asks; that one is bit 16 of w. */
  function MfmEncodeWord(w: Word): Word
  {
    var x := Scattered(w, 16);
    var y := Or(x, And(Not(Or(Shr(x, 1), Shl(x, 1))), ClockMask()));
    if And(w, One(16)) != Zeros(32) then And(y, Not(One(31))) else y
  }

  // ----- what the words hold

  lemma {:induction false} GatheredBits(w: Word, n: nat, i: nat)
    requires n <= 16 && i < 32
    ensures Gathered(w, n)[i] == (i >= 32 - n && w[2 * i - 31])
  {
    if n > 0 {
      hide Gathered;
      GatheredBits(w, n - 1, i);
      GatherTerm(w, n);
    }
  }

  lemma GatherTerm(w: Word, n: nat)
    requires 0 < n <= 16
    ensures Gathered(w, n) == Or(Gathered(w, n - 1), Shr(And(w, One(2 * (n - 1))), n - 1))
  {
  }

  lemma {:induction false} ScatteredBits(w: Word, n: nat, i: nat)
    requires n <= 16 && i < 32
    ensures Scattered(w, n)[i] == (i % 2 == 1 && i >= 32 - 2 * n && w[16 + i / 2])
  {
    if n > 0 {
      hide Scattered;
      ScatteredBits(w, n - 1, i);
      ScatterTerm(w, n);
    }
  }

  lemma ScatterTerm(w: Word, n: nat)
    requires 0 < n <= 16
    ensures Scattered(w, n) == Or(Scattered(w, n - 1), Shl(And(w, One(n - 1)), n - 1))
  {
  }

  /** The decoder extracts every second cell of the word. */
  lemma DecodeWordIs(w: Word)
    ensures MfmDecodeWord(w) == Zeros(16) + DataBits(w)
  {
    var l, r := MfmDecodeWord(w), Zeros(16) + DataBits(w);
    forall i | 0 <= i < 32 ensures l[i] == r[i] {
      GatheredBits(w, 16, i);
    }
  }

  /** The encoder computes the MFM cells of the low sixteen bits, written after the
      bit above them. */
  lemma EncodeWordIs(w: Word)
    ensures MfmEncodeWord(w) == Encode(w[15], w[16..])
  {
    hide MfmEncodeWord, Scattered, Encode;
    forall i | 0 <= i < 32 ensures MfmEncodeWord(w)[i] == Encode(w[15], w[16..])[i] {
      EncodedCell(w, i);
    }
  }

  lemma BeforeIsSet(w: Word)
    ensures And(w, One(16)) != Zeros(32) <==> w[15]
  {
    var v := And(w, One(16));
    assert v[15] == w[15];
    if !w[15] {
      assert v == Zeros(32);
    }
  }

  lemma EncodedCell(w: Word, i: nat)
    requires i < 32
    ensures MfmEncodeWord(w)[i] == Encode(w[15], w[16..])[i]
  {
    hide Scattered;
    BeforeIsSet(w);
    var x := Scattered(w, 16);
    ScatteredBits(w, 16, i);
    if i > 0 {
      ScatteredBits(w, 16, i - 1);
    }
    if i < 31 {
      ScatteredBits(w, 16, i + 1);
    }
    if i % 2 == 0 {
      assert (i + 1) / 2 == i / 2 && (i > 0 ==> (i - 1) / 2 == i / 2 - 1);
    }
  }

  /** Decoding a word undoes encoding it. */
  lemma WordRoundTrip(w: Word)
    ensures MfmDecodeWord(MfmEncodeWord(w))[16..] == w[16..]
  {
    EncodeWordIs(w);
    DecodeWordIs(MfmEncodeWord(w));
    DataBitsOfEncode(w[15], w[16..]);
  }
}
