/** Words and bit lists.

    Bit cells and data bits travel as lists of booleans, most significant
    first, and so do shift registers; bytes and other stored words are
    numbers.  `ToBits` and `Val` go from one to the other. */
module Bits {

  type byte = n: int | 0 <= n < 256

  function Pow2(k: nat): (p: nat)
    ensures p > 0
  {
    if k == 0 then 1 else 2 * Pow2(k - 1)
  }

  /** Division as C does it, rounding towards zero. */
  function TruncDiv(a: int, b: nat): int
    requires b > 0
  {
    if a >= 0 then a / b else -(-a / b)
  }

  /** The number written by a list of bits. */
  function Val(s: seq<bool>): nat
  {
    if s == [] then 0 else 2 * Val(s[..|s| - 1]) + (if s[|s| - 1] then 1 else 0)
  }

  /** The k low bits of a number. */
  function ToBits(n: nat, k: nat): (s: seq<bool>)
    ensures |s| == k
  {
    if k == 0 then [] else ToBits(n / 2, k - 1) + [n % 2 == 1]
  }

  function Zeros(n: nat): (s: seq<bool>)
    ensures |s| == n && forall i | 0 <= i < n :: !s[i]
  {
    seq(n, _ => false)
  }

  lemma SliceOfSlice<T>(s: seq<T>, a: nat, b: nat, i: nat, j: nat)
    requires a <= b <= |s| && i <= j <= b - a
    ensures s[a..b][i..j] == s[a + i..a + j]
  {
    var l, r := s[a..b][i..j], s[a + i..a + j];
    forall k | 0 <= k < |l| ensures l[k] == r[k] {
      assert l[k] == s[a..b][i + k] == s[a + i + k];
    }
  }

  lemma Adjoin<T>(c: seq<T>, i: nat, j: nat, k: nat)
    requires i <= j <= k <= |c|
    ensures c[i..k] == c[i..j] + c[j..k]
  {
  }

  lemma {:induction false} ValBound(s: seq<bool>)
    ensures Val(s) < Pow2(|s|)
  {
    if s != [] {
      ValBound(s[..|s| - 1]);
    }
  }

  lemma {:induction false} ValToBits(n: nat, k: nat)
    requires n < Pow2(k)
    ensures Val(ToBits(n, k)) == n
  {
    if k > 0 {
      ValToBits(n / 2, k - 1);
      assert ToBits(n, k)[..k - 1] == ToBits(n / 2, k - 1);
    }
  }

  lemma {:induction false} ToBitsVal(s: seq<bool>)
    ensures ToBits(Val(s), |s|) == s
  {
    if s != [] {
      ToBitsVal(s[..|s| - 1]);
      assert s == s[..|s| - 1] + [s[|s| - 1]];
    }
  }

  // ----- bytes

  function ByteBits(b: byte): (s: seq<bool>)
    ensures |s| == 8
  {
    ToBits(b, 8)
  }

  function ByteOf(s: seq<bool>): (b: byte)
    requires |s| == 8
  {
    ByteBound(s);
    Val(s)
  }

  lemma Pow8()
    ensures Pow2(8) == 256
  {
    assert Pow2(4) == 16;
  }

  lemma ByteBound(s: seq<bool>)
    requires |s| == 8
    ensures Val(s) < 256
  {
    ValBound(s);
    Pow8();
  }

  lemma ByteOfBits(b: byte)
    ensures ByteOf(ByteBits(b)) == b
  {
    Pow8();
    ValToBits(b, 8);
  }

  lemma BitsOfByte(s: seq<bool>)
    requires |s| == 8
    ensures ByteBits(ByteOf(s)) == s
  {
    ToBitsVal(s);
  }

  lemma {:induction false} ToBitsZero(k: nat)
    ensures ToBits(0, k) == Zeros(k)
  {
    if k > 0 {
      ToBitsZero(k - 1);
    }
  }

  lemma ZeroByte()
    ensures ByteOf(Zeros(8)) == 0 && ByteBits(0) == Zeros(8)
  {
    ToBitsZero(8);
    ByteOfBits(0);
  }

  /** The bits of a list of bytes, one byte after the other. */
  function BytesBits(bs: seq<byte>): (s: seq<bool>)
    ensures |s| == 8 * |bs|
  {
    if bs == [] then [] else BytesBits(bs[..|bs| - 1]) + ByteBits(bs[|bs| - 1])
  }

  lemma {:induction false} BytesBitsAppend(a: seq<byte>, b: seq<byte>)
    ensures BytesBits(a + b) == BytesBits(a) + BytesBits(b)
  {
    if b == [] {
      assert a + b == a;
    } else {
      assert (a + b)[..|a + b| - 1] == a + b[..|b| - 1];
      BytesBitsAppend(a, b[..|b| - 1]);
    }
  }

  lemma {:induction false} BytesBitsAt(bs: seq<byte>, i: nat)
    requires i < |bs|
    ensures BytesBits(bs)[8 * i..8 * i + 8] == ByteBits(bs[i])
  {
    var front := BytesBits(bs[..|bs| - 1]);
    assert BytesBits(bs) == front + ByteBits(bs[|bs| - 1]);
    if i < |bs| - 1 {
      BytesBitsAt(bs[..|bs| - 1], i);
      assert BytesBits(bs)[8 * i..8 * i + 8] == front[8 * i..8 * i + 8];
    }
  }

  // ----- word operations on bit lists of one length

  function Xor(a: seq<bool>, b: seq<bool>): (r: seq<bool>)
    requires |a| == |b|
    ensures |r| == |a| && forall i | 0 <= i < |r| :: r[i] == (a[i] != b[i])
  {
    seq(|a|, i requires 0 <= i < |a| => a[i] != b[i])
  }

  function Shl(a: seq<bool>, k: nat): (r: seq<bool>)
    ensures |r| == |a| && forall i | 0 <= i < |r| :: r[i] == (i + k < |a| && a[i + k])
  {
    seq(|a|, i requires 0 <= i < |a| => i + k < |a| && a[i + k])
  }

  function Shr(a: seq<bool>, k: nat): (r: seq<bool>)
    ensures |r| == |a| && forall i | 0 <= i < |r| :: r[i] == (i >= k && a[i - k])
  {
    seq(|a|, i requires 0 <= i < |a| => i >= k && a[i - k])
  }

  /** a & (2^k - 1). */
  function LowBits(a: seq<bool>, k: nat): (r: seq<bool>)
    ensures |r| == |a| && forall i | 0 <= i < |r| :: r[i] == (i >= |a| - k && a[i])
  {
    seq(|a|, i requires 0 <= i < |a| => i >= |a| - k && a[i])
  }
}
