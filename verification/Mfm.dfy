/** MFM: every data bit is preceded by a clock cell, which is set exactly when
    the data bits on both sides of it are clear. */
module Mfm {
  import opened Bits

  /** The cells of the data bits d, written after a data bit prev. */
  function Encode(prev: bool, d: seq<bool>): (c: seq<bool>)
    ensures |c| == 2 * |d|
  {
    seq(2 * |d|, i requires 0 <= i < 2 * |d| =>
      if i % 2 == 1 then d[i / 2] else !(d[i / 2] || (if i == 0 then prev else d[i / 2 - 1])))
  }

  /** Every second cell: what the shift-and-mask decoders extract. */
  function DataBits(c: seq<bool>): (d: seq<bool>)
    ensures |d| == |c| / 2
  {
    seq(|c| / 2, i requires 0 <= i < |c| / 2 => c[2 * i + 1])
  }

  function LastBit(prev: bool, d: seq<bool>): bool
  {
    if d == [] then prev else d[|d| - 1]
  }

  lemma DataBitsOfEncode(prev: bool, d: seq<bool>)
    ensures DataBits(Encode(prev, d)) == d
  {
  }

  lemma EncodeOne(prev: bool, bit: bool)
    ensures Encode(prev, [bit]) == [!(prev || bit), bit]
  {
  }

  lemma EncodeAppend(prev: bool, a: seq<bool>, b: seq<bool>)
    ensures Encode(prev, a + b) == Encode(prev, a) + Encode(LastBit(prev, a), b)
  {
    var l, r := Encode(prev, a + b), Encode(prev, a) + Encode(LastBit(prev, a), b);
    forall i | 0 <= i < |l| ensures l[i] == r[i] {
      if i < 2 * |a| {
      } else {
        assert r[i] == Encode(LastBit(prev, a), b)[i - 2 * |a|];
        assert (i - 2 * |a|) / 2 == i / 2 - |a|;
      }
    }
  }

  lemma DataBitsSplit(c: seq<bool>, m: nat)
    requires m <= |c| && m % 2 == 0
    ensures DataBits(c) == DataBits(c[..m]) + DataBits(c[m..])
  {
  }

  lemma DataBitsSlice(c: seq<bool>, lo: nat, hi: nat)
    requires lo <= hi && 2 * hi <= |c|
    ensures DataBits(c[2 * lo..2 * hi]) == DataBits(c)[lo..hi]
  {
  }

  // ----- legality

  /** The clock cell at j agrees with the data cells beside it. */
  predicate LegalAt(c: seq<bool>, j: int)
    requires 0 < j < |c| - 1
  {
    c[j] == !(c[j - 1] || c[j + 1])
  }

  /** All clock cells strictly between lo and hi - 1 are legal, clock cells
      being those whose index has the given parity. */
  predicate LegalIn(c: seq<bool>, lo: nat, hi: nat, parity: nat)
    requires lo <= hi <= |c|
  {
    forall j {:trigger LegalAt(c, j)} | lo < j < hi - 1 && j % 2 == parity :: LegalAt(c, j)
  }

  /** A run of encoded cells is legal wherever it stands. */
  lemma EncodedRunIsLegal(c: seq<bool>, lo: nat, hi: nat, prev: bool, d: seq<bool>)
    requires lo <= hi <= |c| && c[lo..hi] == Encode(prev, d)
    ensures LegalIn(c, lo, hi, lo % 2)
  {
    var e := c[lo..hi];
    forall j | lo < j < hi - 1 && j % 2 == lo % 2 ensures LegalAt(c, j) {
      assert e[j - lo] == c[j] && e[j - lo - 1] == c[j - 1] && e[j - lo + 1] == c[j + 1];
    }
  }

  /** Legal MFM never has two adjacent ones nor four adjacent zeros. */
  lemma LegalRunLength(c: seq<bool>, parity: nat)
    requires parity < 2 && LegalIn(c, 0, |c|, parity)
    ensures forall i | 0 < i < |c| - 2 :: !(c[i] && c[i + 1])
    ensures forall i | 0 <= i < |c| - 3 :: c[i] || c[i + 1] || c[i + 2] || c[i + 3]
  {
    forall i | 0 < i < |c| - 2 ensures !(c[i] && c[i + 1]) {
      assert i % 2 == parity || (i + 1) % 2 == parity;
      if i % 2 == parity { assert LegalAt(c, i); } else { assert LegalAt(c, i + 1); }
    }
    forall i | 0 <= i < |c| - 3 ensures c[i] || c[i + 1] || c[i + 2] || c[i + 3] {
      assert (i + 1) % 2 == parity || (i + 2) % 2 == parity;
      if (i + 1) % 2 == parity { assert LegalAt(c, i + 1); } else { assert LegalAt(c, i + 2); }
    }
  }

  // ----- the byte-array codecs of disk.c

  datatype Encoding = Linear | EvenOdd | OddEven

  /** Bits 7,5,3,1 of a byte, and bits 6,4,2,0: (x >> 1) & 0x55 and x & 0x55. */
  function Evens(x: byte): (s: seq<bool>)
    ensures |s| == 4
  {
    var b := ByteBits(x);
    [b[0], b[2], b[4], b[6]]
  }

  function Odds(x: byte): (s: seq<bool>)
    ensures |s| == 4
  {
    var b := ByteBits(x);
    [b[1], b[3], b[5], b[7]]
  }

  function AllEvens(bs: seq<byte>): (s: seq<bool>)
    ensures |s| == 4 * |bs|
  {
    if bs == [] then [] else AllEvens(bs[..|bs| - 1]) + Evens(bs[|bs| - 1])
  }

  function AllOdds(bs: seq<byte>): (s: seq<bool>)
    ensures |s| == 4 * |bs|
  {
    if bs == [] then [] else AllOdds(bs[..|bs| - 1]) + Odds(bs[|bs| - 1])
  }

  /** The order in which an encoding lays out the data bits of a buffer. */
  function Layout(enc: Encoding, bs: seq<byte>): (s: seq<bool>)
    ensures |s| == 8 * |bs|
  {
    match enc
    case Linear => BytesBits(bs)
    case EvenOdd => AllEvens(bs) + AllOdds(bs)
    case OddEven => AllOdds(bs) + AllEvens(bs)
  }

  /** The data cells of an encoded byte. */
  function DataOf(x: byte): (s: seq<bool>)
    ensures |s| == 4
  {
    Odds(x)
  }

  /** A byte from the data cells of two encoded bytes: the first holds the high
      nibble (linear) or the even bits (even-odd). */
  function FromNibbles(hi: seq<bool>, lo: seq<bool>): byte
    requires |hi| == |lo| == 4
  {
    ByteOf(hi + lo)
  }

  function FromEvenOdd(evens: seq<bool>, odds: seq<bool>): byte
    requires |evens| == |odds| == 4
  {
    ByteOf([evens[0], odds[0], evens[1], odds[1], evens[2], odds[2], evens[3], odds[3]])
  }

  /** What mfm_decode_bytes computes for output byte i. */
  function DecodedByte(enc: Encoding, raw: seq<byte>, n: nat, i: nat): byte
    requires |raw| == 2 * n && i < n
  {
    match enc
    case Linear => FromNibbles(DataOf(raw[2 * i]), DataOf(raw[2 * i + 1]))
    case EvenOdd => FromEvenOdd(DataOf(raw[i]), DataOf(raw[i + n]))
    case OddEven => FromEvenOdd(DataOf(raw[i + n]), DataOf(raw[i]))
  }

  // ----- indexing the layouts

  lemma {:induction false} AllOddsAt(bs: seq<byte>, i: nat)
    requires i < |bs|
    ensures AllOdds(bs)[4 * i..4 * i + 4] == Odds(bs[i])
  {
    var front := AllOdds(bs[..|bs| - 1]);
    assert AllOdds(bs) == front + Odds(bs[|bs| - 1]);
    if i < |bs| - 1 {
      AllOddsAt(bs[..|bs| - 1], i);
      assert AllOdds(bs)[4 * i..4 * i + 4] == front[4 * i..4 * i + 4];
    }
  }

  lemma {:induction false} AllEvensAt(bs: seq<byte>, i: nat)
    requires i < |bs|
    ensures AllEvens(bs)[4 * i..4 * i + 4] == Evens(bs[i])
  {
    var front := AllEvens(bs[..|bs| - 1]);
    assert AllEvens(bs) == front + Evens(bs[|bs| - 1]);
    if i < |bs| - 1 {
      AllEvensAt(bs[..|bs| - 1], i);
      assert AllEvens(bs)[4 * i..4 * i + 4] == front[4 * i..4 * i + 4];
    }
  }

  lemma EvensOddsMakeByte(x: byte)
    ensures FromEvenOdd(Evens(x), Odds(x)) == x
  {
    var b := ByteBits(x);
    assert [b[0], b[1], b[2], b[3], b[4], b[5], b[6], b[7]] == b;
    ByteOfBits(x);
  }

  /** Decoding undoes every layout: if the data cells of the encoded bytes are
      the laid-out bits of bs, output byte i is bs[i]. */
  lemma DecodeUndoesLayout(enc: Encoding, raw: seq<byte>, bs: seq<byte>, i: nat)
    requires |raw| == 2 * |bs| && i < |bs|
    requires AllOdds(raw) == Layout(enc, bs)
    ensures DecodedByte(enc, raw, |bs|, i) == bs[i]
  {
    hide AllOdds, AllEvens, Odds, Evens, BytesBits, FromNibbles, FromEvenOdd;
    var n := |bs|;
    match enc {
      case Linear => LinearUndone(raw, bs, i);
      case EvenOdd =>
        LayoutHalves(AllEvens(bs), AllOdds(bs), raw, n, i);
        AllEvensAt(bs, i);
        AllOddsAt(bs, i);
        EvensOddsMakeByte(bs[i]);
      case OddEven =>
        LayoutHalves(AllOdds(bs), AllEvens(bs), raw, n, i);
        AllEvensAt(bs, i);
        AllOddsAt(bs, i);
        EvensOddsMakeByte(bs[i]);
    }
  }

  lemma LinearUndone(raw: seq<byte>, bs: seq<byte>, i: nat)
    requires |raw| == 2 * |bs| && i < |bs| && AllOdds(raw) == BytesBits(bs)
    ensures FromNibbles(DataOf(raw[2 * i]), DataOf(raw[2 * i + 1])) == bs[i]
  {
    hide AllOdds, Odds, BytesBits;
    var all := AllOdds(raw);
    AllOddsAt(raw, 2 * i);
    AllOddsAt(raw, 2 * i + 1);
    BytesBitsAt(bs, i);
    assert all[8 * i..8 * i + 8] == all[8 * i..8 * i + 4] + all[8 * i + 4..8 * i + 8];
    ByteOfBits(bs[i]);
  }

  lemma LayoutHalves(a: seq<bool>, b: seq<bool>, raw: seq<byte>, n: nat, i: nat)
    requires |raw| == 2 * n && i < n && |a| == |b| == 4 * n
    requires AllOdds(raw) == a + b
    ensures Odds(raw[i]) == a[4 * i..4 * i + 4]
    ensures Odds(raw[i + n]) == b[4 * i..4 * i + 4]
  {
    hide AllOdds, Odds;
    var all := AllOdds(raw);
    AllOddsAt(raw, i);
    AllOddsAt(raw, i + n);
    assert all[4 * i..4 * i + 4] == a[4 * i..4 * i + 4];
    assert all[4 * (i + n)..4 * (i + n) + 4] == b[4 * i..4 * i + 4];
  }

  /** Bytes packed from a run of cells show the data cells of that run. */
  lemma {:induction false} PackedDataCells(cells: seq<bool>, raw: seq<byte>)
    requires |cells| == 8 * |raw|
    requires forall k | 0 <= k < |raw| :: raw[k] == ByteOf(cells[8 * k..8 * k + 8])
    ensures AllOdds(raw) == DataBits(cells)
  {
    if raw != [] {
      var m := |raw| - 1;
      var front := cells[..8 * m];
      forall k | 0 <= k < m ensures raw[..m][k] == ByteOf(front[8 * k..8 * k + 8]) {
        assert front[8 * k..8 * k + 8] == cells[8 * k..8 * k + 8];
      }
      PackedDataCells(front, raw[..m]);
      var w := cells[8 * m..8 * m + 8];
      BitsOfByte(w);
      assert Odds(raw[m]) == DataBits(w);
      assert DataBits(cells) == DataBits(front) + DataBits(w);
    }
  }

  /** mfm_decode_bytes.  The linear form may decode a buffer onto itself. */
  method MfmDecodeBytes(enc: Encoding, n: nat, inp: array<byte>, off: nat, out: array<byte>)
    requires off + 2 * n <= inp.Length && n <= out.Length
    requires inp == out ==> enc == Linear && off == 0
    modifies out
    ensures forall i | 0 <= i < n :: out[i] == DecodedByte(enc, old(inp[off..off + 2 * n]), n, i)
    ensures forall i | n <= i < out.Length :: out[i] == old(out[i])
  {
    ghost var raw := inp[off..off + 2 * n];
    var i := 0;
    while i < n
      invariant 0 <= i <= n
      invariant forall k | 0 <= k < i :: out[k] == DecodedByte(enc, raw, n, k)
      invariant forall k | i <= k < out.Length :: out[k] == old(out[k])
      invariant inp != out ==> inp[off..off + 2 * n] == raw
    {
      assert forall k | 0 <= k < 2 * n && (inp != out || k >= i) :: inp[off + k] == raw[k];
      match enc {
        case Linear =>
          out[i] := FromNibbles(DataOf(inp[off + 2 * i]), DataOf(inp[off + 2 * i + 1]));
        case EvenOdd =>
          out[i] := FromEvenOdd(DataOf(inp[off + i]), DataOf(inp[off + i + n]));
        case OddEven =>
          out[i] := FromEvenOdd(DataOf(inp[off + i + n]), DataOf(inp[off + i]));
      }
      i := i + 1;
    }
  }

  lemma {:induction false} AllOddsAppend(a: seq<byte>, b: seq<byte>)
    ensures AllOdds(a + b) == AllOdds(a) + AllOdds(b)
  {
    if b == [] {
      assert a + b == a;
    } else {
      assert (a + b)[..|a + b| - 1] == a + b[..|b| - 1];
      AllOddsAppend(a, b[..|b| - 1]);
    }
  }

  lemma AllOddsSlice(raw: seq<byte>, i: nat, j: nat)
    requires i <= j <= |raw|
    ensures AllOdds(raw[i..j]) == AllOdds(raw)[4 * i..4 * j]
  {
    hide AllOdds;
    var front, mid, back := raw[..i], raw[i..j], raw[j..];
    Cut(raw, i, j);
    AllOddsAppend(front, mid + back);
    AllOddsAppend(mid, back);
    Middle(AllOdds(front), AllOdds(mid), AllOdds(back));
  }

  lemma Cut(raw: seq<byte>, i: nat, j: nat)
    requires i <= j <= |raw|
    ensures raw == raw[..i] + (raw[i..j] + raw[j..])
  {
  }

  lemma Middle(a: seq<bool>, b: seq<bool>, c: seq<bool>)
    ensures (a + (b + c))[|a|..|a| + |b|] == b
  {
  }

  lemma {:induction false} OddsFromEvens(a: seq<byte>, bs: seq<byte>)
    requires |a| == |bs| && forall k | 0 <= k < |bs| :: Odds(a[k]) == Evens(bs[k])
    ensures AllOdds(a) == AllEvens(bs)
  {
    if bs != [] {
      OddsFromEvens(a[..|bs| - 1], bs[..|bs| - 1]);
    }
  }

  lemma {:induction false} OddsFromNibbles(a: seq<byte>, bs: seq<byte>)
    requires |a| == 2 * |bs|
    requires forall k | 0 <= k < |bs| :: Odds(a[2 * k]) + Odds(a[2 * k + 1]) == ByteBits(bs[k])
    ensures AllOdds(a) == BytesBits(bs)
  {
    if bs != [] {
      var m := |bs| - 1;
      OddsFromNibbles(a[..2 * m], bs[..m]);
      assert a == a[..2 * m] + [a[2 * m], a[2 * m + 1]];
      AllOddsAppend(a[..2 * m], [a[2 * m], a[2 * m + 1]]);
      assert [a[2 * m], a[2 * m + 1]][..1] == [a[2 * m]];
      assert AllOdds([a[2 * m], a[2 * m + 1]]) == Odds(a[2 * m]) + Odds(a[2 * m + 1]);
    }
  }

  /** The high nibble of a byte moved to its data places, and the low one. */
  function SpreadHigh(x: byte): byte
  {
    var b := ByteBits(x);
    ByteOf([false, b[0], false, b[1], false, b[2], false, b[3]])
  }

  function SpreadLow(x: byte): byte
  {
    var b := ByteBits(x);
    ByteOf([false, b[4], false, b[5], false, b[6], false, b[7]])
  }

  lemma SpreadNibbles(x: byte)
    ensures Odds(SpreadHigh(x)) + Odds(SpreadLow(x)) == ByteBits(x)
  {
    var b := ByteBits(x);
    BitsOfByte([false, b[0], false, b[1], false, b[2], false, b[3]]);
    BitsOfByte([false, b[4], false, b[5], false, b[6], false, b[7]]);
  }

  /** Shifting a byte right by one brings its even bits to the data places. */
  lemma OddsOfHalf(x: byte)
    ensures Odds(x / 2) == Evens(x)
  {
    assert ToBits(x, 8) == ToBits(x / 2, 7) + [x % 2 == 1];
    ToBitsDrop(x / 2, 7);
  }

  lemma {:induction false} ToBitsDrop(n: nat, k: nat)
    ensures ToBits(n, k + 1)[1..] == ToBits(n, k)
  {
    if k > 0 {
      ToBitsDrop(n / 2, k - 1);
    }
  }

  /** mfm_encode_bytes: the cells of the output are the MFM encoding of the
      laid-out data bits, continuing after prev.  The first loop puts the data
      bits in their places, the second computes the clock bits in place. */
  method MfmEncodeBytes(enc: Encoding, bs: array<byte>, out: array<byte>, prev: bool)
    requires bs != out && out.Length == 2 * bs.Length
    modifies out
    ensures BytesBits(out[..]) == Encode(prev, Layout(enc, bs[..]))
  {
    var n := bs.Length;
    SpreadData(enc, bs, out);
    ghost var raw := out[..];
    hide AllOdds, Odds, BytesBits, Encode, LastBit, ByteOf, Layout;
    NothingEncoded(prev);
    var last := prev;
    for k := 0 to 2 * n
      invariant last == LastBit(prev, AllOdds(raw[..k]))
      invariant BytesBits(out[..k]) == Encode(prev, AllOdds(raw[..k]))
      invariant out[k..] == raw[k..]
    {
      assert out[k] == out[k..][0] == raw[k];
      var s := Odds(out[k]);
      OneByteEncoded(prev, out[..k], raw[..k], raw[k]);
      out[k] := ByteOf(Encode(last, s));
      assert out[..k + 1] == out[..k] + [out[k]];
      assert raw[..k + 1] == raw[..k] + [raw[k]];
      assert out[k + 1..] == raw[k..][1..];
      last := s[3];
    }
    assert out[..2 * n] == out[..];
    assert raw[..2 * n] == raw;
  }

  lemma NothingEncoded(prev: bool)
    ensures LastBit(prev, AllOdds([])) == prev && BytesBits([]) == Encode(prev, AllOdds([]))
  {
  }

  lemma OneByteEncoded(prev: bool, done: seq<byte>, raw: seq<byte>, x: byte)
    requires BytesBits(done) == Encode(prev, AllOdds(raw))
    ensures var e := Encode(LastBit(prev, AllOdds(raw)), Odds(x));
            BytesBits(done + [ByteOf(e)]) == Encode(prev, AllOdds(raw + [x]))
    ensures LastBit(prev, AllOdds(raw + [x])) == Odds(x)[3]
  {
    hide Odds, Encode, ByteOf, ByteBits;
    var s := Odds(x);
    var e := Encode(LastBit(prev, AllOdds(raw)), s);
    BitsOfByte(e);
    assert (done + [ByteOf(e)])[..|done|] == done && (raw + [x])[..|raw|] == raw;
    EncodeAppend(prev, AllOdds(raw), s);
  }

  method SpreadData(enc: Encoding, bs: array<byte>, out: array<byte>)
    requires bs != out && out.Length == 2 * bs.Length
    modifies out
    ensures AllOdds(out[..]) == Layout(enc, bs[..])
  {
    var n := bs.Length;
    for i := 0 to n
      invariant enc.Linear? ==> forall k | 0 <= k < i ::
                  out[2 * k] == SpreadHigh(bs[k]) && out[2 * k + 1] == SpreadLow(bs[k])
      invariant enc.EvenOdd? ==> forall k | 0 <= k < i :: out[k] == bs[k] / 2 && out[k + n] == bs[k]
      invariant enc.OddEven? ==> forall k | 0 <= k < i :: out[k] == bs[k] && out[k + n] == bs[k] / 2
    {
      var x := bs[i];
      match enc {
        case Linear => out[2 * i] := SpreadHigh(x); out[2 * i + 1] := SpreadLow(x);
        case EvenOdd => out[i] := x / 2; out[i + n] := x;
        case OddEven => out[i] := x; out[i + n] := x / 2;
      }
    }
    SpreadIsLayout(enc, bs[..], out[..]);
  }

  lemma SpreadIsLayout(enc: Encoding, bs: seq<byte>, raw: seq<byte>)
    requires |raw| == 2 * |bs|
    requires enc.Linear? ==> forall k | 0 <= k < |bs| ::
               raw[2 * k] == SpreadHigh(bs[k]) && raw[2 * k + 1] == SpreadLow(bs[k])
    requires enc.EvenOdd? ==> forall k | 0 <= k < |bs| :: raw[k] == bs[k] / 2 && raw[k + |bs|] == bs[k]
    requires enc.OddEven? ==> forall k | 0 <= k < |bs| :: raw[k] == bs[k] && raw[k + |bs|] == bs[k] / 2
    ensures AllOdds(raw) == Layout(enc, bs)
  {
    hide AllOdds, AllEvens, Odds, Evens, SpreadHigh, SpreadLow;
    match enc {
      case Linear =>
        forall k | 0 <= k < |bs| ensures Odds(raw[2 * k]) + Odds(raw[2 * k + 1]) == ByteBits(bs[k]) {
          SpreadNibbles(bs[k]);
        }
        OddsFromNibbles(raw, bs);
      case EvenOdd =>
        HalvesAreLayout(bs, raw[..|bs|], raw[|bs|..]);
        Cut(raw, |bs|, |raw|);
      case OddEven =>
        HalvesAreLayout(bs, raw[|bs|..], raw[..|bs|]);
        Cut(raw, |bs|, |raw|);
    }
  }

  lemma HalvesAreLayout(bs: seq<byte>, evens: seq<byte>, odds: seq<byte>)
    requires |evens| == |odds| == |bs|
    requires forall k | 0 <= k < |bs| :: evens[k] == bs[k] / 2 && odds[k] == bs[k]
    ensures AllOdds(evens + odds) == AllEvens(bs) + AllOdds(bs)
    ensures AllOdds(odds + evens) == AllOdds(bs) + AllEvens(bs)
  {
    hide Odds, Evens, AllOdds, AllEvens;
    forall k | 0 <= k < |bs| ensures Odds(evens[k]) == Evens(bs[k]) {
      OddsOfHalf(bs[k]);
    }
    OddsFromEvens(evens, bs);
    assert odds == bs;
    AllOddsAppend(evens, odds);
    AllOddsAppend(odds, evens);
  }

  /** The round trip of the two array codecs: decoding what encoding wrote gives
      the bytes back, whatever the layout and the preceding bit. */
  lemma CodecRoundTrip(enc: Encoding, bs: seq<byte>, prev: bool, raw: seq<byte>, i: nat)
    requires |raw| == 2 * |bs| && i < |bs|
    requires BytesBits(raw) == Encode(prev, Layout(enc, bs))
    ensures DecodedByte(enc, raw, |bs|, i) == bs[i]
  {
    var cells := BytesBits(raw);
    forall k | 0 <= k < |raw| ensures raw[k] == ByteOf(cells[8 * k..8 * k + 8]) {
      BytesBitsAt(raw, k);
      ByteOfBits(raw[k]);
    }
    PackedDataCells(cells, raw);
    DataBitsOfEncode(prev, Layout(enc, bs));
    DecodeUndoesLayout(enc, raw, bs, i);
  }
}
