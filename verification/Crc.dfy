/** CRC-16/CCITT, x^16 + x^12 + x^5 + 1 (section 2 of ITU-T V.41).

    The writer updates the register bit by bit, the reader byte by byte.  The
    register is kept as its sixteen bits. */
module Crc {
  import opened Bits

  type Reg = r: seq<bool> | |r| == 16 witness Zeros(16)

  /** 0x1021. */
  function Poly(): (p: Reg)
    ensures forall i | 0 <= i < 16 :: p[i] == (i == 3 || i == 10 || i == 15)
  {
    seq(16, i => i == 3 || i == 10 || i == 15)
  }

  /** 0xffff, the value every field starts from. */
  function Preset(): Reg
  {
    seq(16, _ => true)
  }

  /** crc16_ccitt_bit. */
  function CrcBit(b: bool, crc: Reg): Reg
  {
    if b != crc[0] then Xor(Shl(crc, 1), Poly()) else Shl(crc, 1)
  }

  /** One pass of the loop of crc16_ccitt. */
  function CrcByte(b: byte, crc: Reg): Reg
  {
    var c1: Reg := crc[8..] + crc[..8];
    var c2: Reg := Xor(c1, Zeros(8) + ByteBits(b));
    var c3: Reg := Xor(c2, Shr(LowBits(c2, 8), 4));
    var c4: Reg := Xor(c3, Shl(c3, 12));
    Xor(c4, Shl(LowBits(c4, 8), 5))
  }

  function CrcBits(bits: seq<bool>, crc: Reg): Reg
  {
    if bits == [] then crc else CrcBit(bits[|bits| - 1], CrcBits(bits[..|bits| - 1], crc))
  }

  function CrcBytes(bytes: seq<byte>, crc: Reg): Reg
  {
    if bytes == [] then crc else CrcByte(bytes[|bytes| - 1], CrcBytes(bytes[..|bytes| - 1], crc))
  }

  /** crc16_ccitt: the bytewise update over a buffer. */
  method Crc16Ccitt(buf: seq<byte>, crc: Reg) returns (r: Reg)
    ensures r == CrcBytes(buf, crc)
    ensures r == CrcBits(BytesBits(buf), crc)
  {
    r := crc;
    for i := 0 to |buf|
      invariant r == CrcBytes(buf[..i], crc)
    {
      assert buf[..i + 1][..i] == buf[..i];
      var c := r[8..] + r[..8];
      c := Xor(c, Zeros(8) + ByteBits(buf[i]));
      c := Xor(c, Shr(LowBits(c, 8), 4));
      c := Xor(c, Shl(c, 12));
      c := Xor(c, Shl(LowBits(c, 8), 5));
      r := c;
    }
    assert buf[..|buf|] == buf;
    CrcBytesAreBits(buf, crc);
  }

  // ----- the two updates agree

  lemma {:induction false} CrcBitsAppend(a: seq<bool>, b: seq<bool>, crc: Reg)
    ensures CrcBits(a + b, crc) == CrcBits(b, CrcBits(a, crc))
  {
    if b == [] {
      assert a + b == a;
    } else {
      assert (a + b)[..|a + b| - 1] == a + b[..|b| - 1];
      CrcBitsAppend(a, b[..|b| - 1], crc);
    }
  }

  /** The bit fed back at each step, up to eight of them: new bit plus outgoing
      bit, the outgoing bit of step k having met the feedback of step k - 4. */
  function Feed(bits: seq<bool>, crc: Reg, k: nat): bool
    requires k < |bits| && k < 16
  {
    (bits[k] != crc[k]) != (k >= 4 && Feed(bits, crc, k - 4))
  }

  /** What the feedback entering at tap t contributes to bit j after k steps. */
  function Fed(bits: seq<bool>, crc: Reg, k: nat, t: nat, j: nat): bool
    requires k <= |bits| && k <= 8
  {
    j <= t && t - j < k && Feed(bits, crc, k - 1 - (t - j))
  }

  /** Bit j of the register after k steps. */
  function BitAfter(bits: seq<bool>, crc: Reg, k: nat, j: nat): bool
    requires k <= |bits| && k <= 8 && j < 16
  {
    (j + k < 16 && crc[j + k]) != (Fed(bits, crc, k, 3, j) != (Fed(bits, crc, k, 10, j) != Fed(bits, crc, k, 15, j)))
  }

  lemma {:induction false} CrcBitsClosed(bits: seq<bool>, crc: Reg, k: nat)
    requires k <= |bits| && k <= 8
    ensures forall j | 0 <= j < 16 :: CrcBits(bits[..k], crc)[j] == BitAfter(bits, crc, k, j)
  {
    if k > 0 {
      CrcBitsClosed(bits, crc, k - 1);
      assert bits[..k][..k - 1] == bits[..k - 1];
      var r := CrcBits(bits[..k - 1], crc);
      assert r[0] == BitAfter(bits, crc, k - 1, 0);
      assert (bits[k - 1] != r[0]) == Feed(bits, crc, k - 1);
      forall j | 0 <= j < 16 ensures CrcBits(bits[..k], crc)[j] == BitAfter(bits, crc, k, j) {
        if j < 15 {
          assert r[j + 1] == BitAfter(bits, crc, k - 1, j + 1);
        }
      }
    }
  }

  /** The bytewise update equals eight bitwise updates, most significant bit
      first. */
  lemma CrcByteIsEightBits(b: byte, crc: Reg)
    ensures CrcByte(b, crc) == CrcBits(ByteBits(b), crc)
  {
    var bits := ByteBits(b);
    CrcBitsClosed(bits, crc, 8);
    assert bits[..8] == bits;
    var c1: Reg := crc[8..] + crc[..8];
    var c2: Reg := Xor(c1, Zeros(8) + bits);
    var c3: Reg := Xor(c2, Shr(LowBits(c2, 8), 4));
    var c4: Reg := Xor(c3, Shl(c3, 12));
    assert forall k | 0 <= k < 8 :: c3[8 + k] == Feed(bits, crc, k);
    forall j | 0 <= j < 16 ensures CrcByte(b, crc)[j] == BitAfter(bits, crc, 8, j) {
      assert c4[j] == (if j < 8 then crc[8 + j] != (j < 4 && Feed(bits, crc, j + 4)) else Feed(bits, crc, j - 8));
    }
  }

  lemma {:induction false} CrcBytesAreBits(buf: seq<byte>, crc: Reg)
    ensures CrcBytes(buf, crc) == CrcBits(BytesBits(buf), crc)
  {
    if buf != [] {
      var front, last := buf[..|buf| - 1], buf[|buf| - 1];
      CrcBytesAreBits(front, crc);
      CrcByteIsEightBits(last, CrcBytes(front, crc));
      CrcBitsAppend(BytesBits(front), ByteBits(last), crc);
    }
  }

  lemma LastFed(x: seq<bool>, crc: Reg)
    requires x != []
    ensures CrcBits(x, crc) == CrcBit(x[|x| - 1], CrcBits(x[..|x| - 1], crc))
  {
  }

  /** The low bits are clear behind a step exactly if nothing is fed back and one
      bit fewer was clear before it. */
  lemma OneFed(b: bool, q: Reg, n: nat)
    requires 0 < n <= 16
    ensures CrcBit(b, q)[16 - n..] == Zeros(n) <==> b == q[0] && q[17 - n..] == Zeros(n - 1)
    ensures b == q[0] ==> CrcBit(b, q) == q[1..] + [false]
  {
    var r := CrcBit(b, q);
    if b == q[0] {
      assert r == q[1..] + [false];
      assert r[16 - n..] == q[17 - n..] + [false];
      assert r[16 - n..][..n - 1] == q[17 - n..];
      assert Zeros(n) == Zeros(n - 1) + [false] && Zeros(n)[..n - 1] == Zeros(n - 1);
    } else {
      assert r[15] && r[16 - n..][n - 1] == r[15];
    }
  }

  lemma OneMoved(q: Reg, crc: Reg, n: nat)
    requires 0 < n <= 16 && q == crc[n - 1..] + Zeros(n - 1)
    ensures q[0] == crc[n - 1] && q[1..] + [false] == crc[n..] + Zeros(n)
  {
  }

  lemma OneMore(x: seq<bool>, crc: Reg)
    requires 0 < |x| <= 16
    ensures x == crc[..|x|] <==> x[..|x| - 1] == crc[..|x| - 1] && x[|x| - 1] == crc[|x| - 1]
  {
    assert x == x[..|x| - 1] + [x[|x| - 1]];
    assert crc[..|x|] == crc[..|x| - 1] + [crc[|x| - 1]];
  }

  /** Feeding up to sixteen bits leaves as many low bits clear exactly if they are the
      high bits of the register; then the rest of it moves up. */
  lemma {:induction false} LowBitsClear(x: seq<bool>, crc: Reg)
    requires |x| <= 16
    ensures CrcBits(x, crc)[16 - |x|..] == Zeros(|x|) <==> x == crc[..|x|]
    ensures x == crc[..|x|] ==> CrcBits(x, crc) == crc[|x|..] + Zeros(|x|)
  {
    if x == [] {
      assert crc[0..] == crc + Zeros(0);
    } else {
      hide CrcBits, CrcBit, Zeros;
      var front, b := x[..|x| - 1], x[|x| - 1];
      var q := CrcBits(front, crc);
      LowBitsClear(front, crc);
      LastFed(x, crc);
      OneFed(b, q, |x|);
      OneMore(x, crc);
      if front == crc[..|x| - 1] {
        OneMoved(q, crc, |x|);
      }
    }
  }

  /** No two registers, and no two bits, are taken to the same place. */
  lemma StepApart(b: bool, q: Reg, q': Reg)
    ensures CrcBit(b, q) != CrcBit(!b, q)
    ensures q != q' ==> CrcBit(b, q) != CrcBit(b, q')
  {
    var r, r' := CrcBit(b, q), CrcBit(b, q');
    assert r[15] == (b != q[0]) && CrcBit(!b, q)[15] == (!b != q[0]) && r'[15] == (b != q'[0]);
    if r == r' {
      assert q[0] == q'[0];
      forall j | 0 < j < 16 ensures q[j] == q'[j] {
        assert r[j - 1] == r'[j - 1];
      }
      assert q == q';
    }
  }

  /** A single wrong bit shows in the CRC, wherever it is. */
  lemma {:induction false} OneBitSeen(x: seq<bool>, y: seq<bool>, i: nat, crc: Reg)
    requires i < |x| == |y| && forall k | 0 <= k < |x| :: x[k] != y[k] <==> k == i
    ensures CrcBits(x, crc) != CrcBits(y, crc)
  {
    hide CrcBit;
    var n := |x| - 1;
    if i == n {
      assert x[..n] == y[..n];
      StepApart(x[n], CrcBits(x[..n], crc), CrcBits(x[..n], crc));
    } else {
      OneBitSeen(x[..n], y[..n], i, crc);
      StepApart(x[n], CrcBits(x[..n], crc), CrcBits(y[..n], crc));
    }
  }

  // ----- where it starts from

  /** What is added to the register and to the bit that meets it cancels out. */
  lemma BitAbsorbed(b: bool, q: Reg, d: Reg)
    ensures CrcBit(b != d[0], Xor(q, d)) == Xor(CrcBit(b, q), Shl(d, 1))
  {
  }

  lemma {:induction false} Absorbed(x: seq<bool>, crc: Reg, d: Reg)
    requires |x| <= 16
    ensures CrcBits(Xor(x, d[..|x|]), Xor(crc, d)) == Xor(CrcBits(x, crc), Shl(d, |x|))
  {
    hide CrcBit;
    if x == [] {
      assert Shl(d, 0) == d;
    } else {
      var n := |x| - 1;
      Absorbed(x[..n], crc, d);
      assert Xor(x, d[..n + 1])[..n] == Xor(x[..n], d[..n]);
      BitAbsorbed(x[n], CrcBits(x[..n], crc), Shl(d, n));
      assert Shl(Shl(d, n), 1) == Shl(d, n + 1);
    }
  }

  /** The first sixteen bits inverted. */
  function Inverted(x: seq<bool>): (r: seq<bool>)
    ensures |r| == |x|
  {
    seq(|x|, i requires 0 <= i < |x| => if i < 16 then !x[i] else x[i])
  }

  /** Starting from the preset is starting from a clear register with the first sixteen
      bits inverted. */
  lemma PresetInverts(x: seq<bool>)
    requires |x| >= 16
    ensures CrcBits(x, Preset()) == CrcBits(Inverted(x), Zeros(16))
  {
    hide CrcBits, CrcBit;
    var front, rest := x[..16], x[16..];
    var flipped := Inverted(x)[..16];
    Absorbed(flipped, Zeros(16), Preset());
    assert Xor(flipped, Preset()[..16]) == front && Xor(Zeros(16), Preset()) == Preset();
    assert Xor(CrcBits(flipped, Zeros(16)), Shl(Preset(), 16)) == CrcBits(flipped, Zeros(16));
    CrcBitsAppend(front, rest, Preset());
    CrcBitsAppend(flipped, rest, Zeros(16));
    assert front + rest == x && flipped + rest == Inverted(x);
  }

  /** Feeding the register its own sixteen bits clears it: the residue of a
      field followed by its CRC is zero. */
  lemma CrcResidueZero(crc: Reg)
    ensures CrcBits(crc, crc) == Zeros(16)
  {
    hide CrcBits;
    LowBitsClear(crc, crc);
    assert |crc| == 16;
    assert crc[..16] == crc && crc[16..] == [];
    assert CrcBits(crc, crc) == [] + Zeros(16);
  }
}
