/** What the AmigaDOS scanner turns away: a sector in which a single data cell is
    wrong; and what it calls extended. */
module AmigaDosErrors {
  import opened Bits
  import opened Mfm
  import opened AmigaDos
  import opened AmigaDosReader

  /** Exactly one of the four data cells of a raw byte is different. */
  predicate CellOff(a: byte, b: byte, k: nat)
    requires k < 4
  {
    forall j | 0 <= j < 4 :: Odds(a)[j] != Odds(b)[j] <==> j == k
  }

  /** Exactly one bit of a buffer is different. */
  predicate BitOff(a: seq<byte>, b: seq<byte>, i: nat)
  {
    |a| == |b| && i < 8 * |a| && forall k | 0 <= k < 8 * |a| :: BytesBits(a)[k] != BytesBits(b)[k] <==> k == i
  }

  lemma OneByteOff(a: seq<byte>, b: seq<byte>, m: nat, j: nat)
    requires m < |a| == |b| && j < 8 && forall i | 0 <= i < |a| && i != m :: a[i] == b[i]
    requires forall k | 0 <= k < 8 :: ByteBits(a[m])[k] != ByteBits(b[m])[k] <==> k == j
    ensures BitOff(a, b, 8 * m + j)
  {
    hide BytesBits, ByteBits;
    forall k | 0 <= k < 8 * |a| ensures BytesBits(a)[k] != BytesBits(b)[k] <==> k == 8 * m + j {
      BitOfByte(a, k);
      BitOfByte(b, k);
    }
  }

  lemma BitOfByte(a: seq<byte>, k: nat)
    requires k < 8 * |a|
    ensures k / 8 < |a| && BytesBits(a)[k] == ByteBits(a[k / 8])[k % 8]
  {
    hide BytesBits, ByteBits;
    BytesBitsAt(a, k / 8);
    assert BytesBits(a)[k] == BytesBits(a)[8 * (k / 8)..8 * (k / 8) + 8][k % 8];
  }

  lemma BitOffFront(a: seq<byte>, b: seq<byte>, c: seq<byte>, i: nat)
    requires BitOff(a, b, i)
    ensures BitOff(a + c, b + c, i)
  {
    hide BytesBits;
    BytesBitsAppend(a, c);
    BytesBitsAppend(b, c);
  }

  lemma BitOffBack(c: seq<byte>, a: seq<byte>, b: seq<byte>, i: nat)
    requires BitOff(a, b, i)
    ensures BitOff(c + a, c + b, 8 * |c| + i)
  {
    hide BytesBits;
    BytesBitsAppend(c, a);
    BytesBitsAppend(c, b);
  }

  lemma Interleaved(e: seq<bool>, o: seq<bool>)
    requires |e| == |o| == 4
    ensures ByteBits(FromEvenOdd(e, o)) == [e[0], o[0], e[1], o[1], e[2], o[2], e[3], o[3]]
  {
    hide ByteBits;
    BitsOfByte([e[0], o[0], e[1], o[1], e[2], o[2], e[3], o[3]]);
  }

  /** A field of n bytes at off: cells elsewhere do not matter ... */
  lemma FieldSame(raw: seq<byte>, j: nat, b: byte, off: nat, n: nat)
    requires off + 2 * n <= |raw| && j < |raw| && !(off <= j < off + 2 * n)
    ensures Field(raw[j := b], off, n) == Field(raw, off, n)
  {
    assert raw[j := b][off..off + 2 * n] == raw[off..off + 2 * n];
  }

  /** ... and each data cell of its own is one of its bits. */
  lemma FieldOff(raw: seq<byte>, j: nat, b: byte, k: nat, off: nat, n: nat) returns (i: nat)
    requires off + 2 * n <= |raw| && off <= j < off + 2 * n && k < 4 && CellOff(raw[j], b, k)
    ensures BitOff(Field(raw, off, n), Field(raw[j := b], off, n), i)
  {
    hide ByteBits, Odds;
    var s, t, m := raw[off..off + 2 * n], raw[j := b][off..off + 2 * n], j - off;
    assert t == s[m := b];
    var at := if m < n then m else m - n;
    Interleaved(Odds(s[at]), Odds(s[at + n]));
    Interleaved(Odds(t[at]), Odds(t[at + n]));
    var bit := 2 * k + (if m < n then 0 else 1);
    OneByteOff(Field(raw, off, n), Field(raw[j := b], off, n), at, bit);
    i := 8 * at + bit;
  }

  /** One cell off among the data cells of a sector that checks out, be it in its header,
      its label, its data or either checksum: the sector is turned away. */
  lemma CellErrorSeen(raw: seq<byte>, j: nat, b: byte, k: nat)
    requires |raw| == RAW_BYTES && j < RAW_BYTES && k < 4 && CellOff(raw[j], b, k) && SumsMatch(raw)
    ensures !SumsMatch(raw[j := b])
  {
    hide Checksum, Field, CellOff, BitOff;
    var x := raw[j := b];
    ElsewhereSame(raw, j, b);
    if j < 8 {
      var i := FieldOff(raw, j, b, k, 0, 4);
      BitOffFront(Field(raw, 0, 4), Field(x, 0, 4), Field(raw, 8, 16), i);
      SumOff(RawHeader(raw), RawHeader(x), i);
    } else if j < 40 {
      var i := FieldOff(raw, j, b, k, 8, 16);
      BitOffBack(Field(raw, 0, 4), Field(raw, 8, 16), Field(x, 8, 16), i);
      SumOff(RawHeader(raw), RawHeader(x), 32 + i);
    } else if j < 48 {
      var i := FieldOff(raw, j, b, k, 40, 4);
      NotSame(Field(raw, 40, 4), Field(x, 40, 4), i);
    } else if j < 56 {
      var i := FieldOff(raw, j, b, k, 48, 4);
      NotSame(Field(raw, 48, 4), Field(x, 48, 4), i);
    } else {
      var i := FieldOff(raw, j, b, k, 56, STD_SEC);
      SumOff(RawData(raw), RawData(x), i);
    }
  }

  lemma ElsewhereSame(raw: seq<byte>, j: nat, b: byte)
    requires |raw| == RAW_BYTES && j < RAW_BYTES
    ensures var x := raw[j := b];
            && (j >= 8 ==> Field(x, 0, 4) == Field(raw, 0, 4))
            && (!(8 <= j < 40) ==> Field(x, 8, 16) == Field(raw, 8, 16))
            && (!(40 <= j < 48) ==> Field(x, 40, 4) == Field(raw, 40, 4))
            && (!(48 <= j < 56) ==> Field(x, 48, 4) == Field(raw, 48, 4))
            && (j < 56 ==> Field(x, 56, STD_SEC) == Field(raw, 56, STD_SEC))
  {
    hide Field;
    if j >= 8 {
      FieldSame(raw, j, b, 0, 4);
    }
    if !(8 <= j < 40) {
      FieldSame(raw, j, b, 8, 16);
    }
    if !(40 <= j < 48) {
      FieldSame(raw, j, b, 40, 4);
    }
    if !(48 <= j < 56) {
      FieldSame(raw, j, b, 48, 4);
    }
    if j < 56 {
      FieldSame(raw, j, b, 56, STD_SEC);
    }
  }

  lemma SumOff(a: seq<byte>, b: seq<byte>, i: nat)
    requires BitOff(a, b, i) && |a| % 4 == 0
    ensures Checksum(a) != Checksum(b)
  {
    hide Checksum, BytesBits;
    OneBitOff(a, b, i);
  }

  lemma NotSame(a: seq<byte>, b: seq<byte>, i: nat)
    requires BitOff(a, b, i)
    ensures BytesBits(a) != BytesBits(b)
  {
    hide BytesBits;
    assert BytesBits(a)[i] != BytesBits(b)[i];
  }

  /** A sector is extended exactly if no standard track has one with its sync and its
      header: none of the 512 data bytes could make the difference. */
  lemma ExtendedExact(track: byte, im: Image, i: nat)
    requires ImageOk(im) && i < SECTORS
    ensures NonStandard(track, im.sync, Header(im, i)) <==>
              !(im.sync == StdImage(track, im.dat).sync && Header(im, i) == Header(StdImage(track, im.dat), i))
  {
    var h, std := Header(im, i), Header(StdImage(track, im.dat), i);
    assert std[0] == 0xff && std[1] == track && h[2] == std[2] == i && h[3] == std[3];
    assert forall k | 4 <= k < 20 :: std[k] == 0;
    if forall k | 0 <= k < 20 :: h[k] == std[k] {
      assert h == std;
    }
  }
}
