/** Reading back one IBM field: its bytes, its CRC, and the absence of marks
    between one field and the next. */
module IbmField {
  import opened Bits
  import opened Crc
  import opened Mfm
  import opened TrackBuffer
  import opened StreamReader
  import opened SyncMarks
  import opened IbmTrack
  import opened IbmReader

  /** A field lies in the stream from b on. */
  ghost predicate FieldHere(c: seq<bool>, b: nat, prev: bool, bytes: seq<byte>, filler: nat)
  {
    var n := FieldLen(|bytes|, filler);
    b + n <= |c| && c[b..b + n] == FieldCells(prev, bytes, filler)
  }

  function FieldLen(n: nat, filler: nat): nat
  {
    272 + 16 * n + 16 * filler
  }

  /** Three marks, then the bytes of the field and sixteen bits where its CRC goes. */
  ghost predicate Carries(c: seq<bool>, m: nat, bytes: seq<byte>, x: Reg)
  {
    && m + 80 + 16 * |bytes| <= |c|
    && c[m..m + 48] == Mark3()
    && c[m + 48..m + 80 + 16 * |bytes|] == Encode(true, BytesBits(bytes) + x)
  }

  ghost predicate Marked(c: seq<bool>, m: nat, bytes: seq<byte>)
  {
    Carries(c, m, bytes, FieldCrc(bytes))
  }

  lemma FieldPieces(c: seq<bool>, b: nat, prev: bool, bytes: seq<byte>, filler: nat)
    requires FieldHere(c, b, prev, bytes, filler)
    ensures var n := FieldLen(|bytes|, filler);
            && b + n <= |c|
            && c[b..b + 192] == Encode(prev, Zeros(96))
            && c[b + 192..b + 240] == Mark3()
            && c[b + 240..b + n] == Encode(true, FieldBits(bytes, filler))
  {
    hide Encode, FieldBits, Mark3;
    var n := FieldLen(|bytes|, filler);
    var e0, e1, e2 := Encode(prev, Zeros(96)), Mark3(), Encode(true, FieldBits(bytes, filler));
    var whole := e0 + e1 + e2;
    assert c[b..b + n] == whole;
    SliceOfSlice(c, b, b + n, 0, 192);
    SliceOfSlice(c, b, b + n, 192, 240);
    SliceOfSlice(c, b, b + n, 240, n);
    assert whole[0..192] == e0 && whole[192..240] == e1 && whole[240..n] == e2;
  }

  lemma FieldIsMarked(c: seq<bool>, b: nat, prev: bool, bytes: seq<byte>, filler: nat)
    requires FieldHere(c, b, prev, bytes, filler)
    ensures Marked(c, b + 192, bytes)
  {
    hide Encode, BytesBits, FieldCrc, Mark3, FieldHere;
    FieldPieces(c, b, prev, bytes, filler);
    var d, rest := BytesBits(bytes) + FieldCrc(bytes), BytesBits(Fill(0x4e, filler));
    EncodeAppend(true, d, rest);
    var n, e := FieldLen(|bytes|, filler), Encode(true, d);
    SliceOfSlice(c, b + 240, b + n, 0, |e|);
  }

  // ----- bytes

  /** Data byte i behind the marks. */
  lemma MarkedByte(c: seq<bool>, m: nat, bytes: seq<byte>, i: nat)
    requires Marked(c, m, bytes) && i < |bytes|
    ensures ByteOf(DataBits(c[m + 48 + 16 * i..m + 64 + 16 * i])) == bytes[i]
  {
    hide Encode, BytesBits, FieldCrc, DataBits, ByteOf;
    var d := BytesBits(bytes) + FieldCrc(bytes);
    var e := Encode(true, d);
    SliceOfSlice(c, m + 48, m + 48 + |e|, 16 * i, 16 * i + 16);
    DataBitsOfEncode(true, d);
    DataBitsSlice(e, 8 * i, 8 * i + 8);
    BytesBitsAt(bytes, i);
    assert d[8 * i..8 * i + 8] == BytesBits(bytes)[8 * i..8 * i + 8];
    ByteOfBits(bytes[i]);
  }

  /** Two data bytes fill the register. */
  lemma MarkedWord(c: seq<bool>, m: nat, bytes: seq<byte>, i: nat)
    requires Marked(c, m, bytes) && i + 1 < |bytes|
    ensures var w := WordAt(c, m + 80 + 16 * i); HighByte(w) == bytes[i] && LowByte(w) == bytes[i + 1]
  {
    hide Marked, DataBits, ByteOf, WordAt;
    MarkedBounds(c, m, bytes);
    MarkedByte(c, m, bytes, i);
    MarkedByte(c, m, bytes, i + 1);
    var p := m + 80 + 16 * i;
    WordIsLast32(c, p);
    SliceOfSlice(c, p - 32, p, 0, 16);
    SliceOfSlice(c, p - 32, p, 16, 32);
  }

  /** What stands behind the CRC, up to the next field, reads as bytes 0x4e. */
  lemma FillerReads(c: seq<bool>, b: nat, prev: bool, bytes: seq<byte>, filler: nat, i: nat)
    requires FieldHere(c, b, prev, bytes, filler) && i < filler
    ensures var at := b + 272 + 16 * (|bytes| + i);
            at + 16 <= |c| && ByteOf(DataBits(c[at..at + 16])) == 0x4e
  {
    hide Encode, BytesBits, FieldCrc, DataBits, ByteOf, FieldHere;
    FieldPieces(c, b, prev, bytes, filler);
    var d, e := FieldBits(bytes, filler), Encode(true, FieldBits(bytes, filler));
    var from := |bytes| + 2 + i;
    SliceOfSlice(c, b + 240, b + FieldLen(|bytes|, filler), 16 * from, 16 * from + 16);
    DataBitsOfEncode(true, d);
    DataBitsSlice(e, 8 * from, 8 * from + 8);
    BytesBitsAt(Fill(0x4e, filler), i);
    assert d[8 * from..8 * from + 8] == BytesBits(Fill(0x4e, filler))[8 * i..8 * i + 8];
    ByteOfBits(0x4e);
  }

  lemma MarkedBounds(c: seq<bool>, m: nat, bytes: seq<byte>)
    requires Marked(c, m, bytes)
    ensures m + 80 + 16 * |bytes| <= |c|
  {
  }

  /** The byte right behind the marks. */
  lemma MarkByte(c: seq<bool>, m: nat, bytes: seq<byte>)
    requires Marked(c, m, bytes) && bytes != []
    ensures LowByte(WordAt(c, m + 64)) == bytes[0]
  {
    hide Marked, DataBits, ByteOf, WordAt;
    MarkedBounds(c, m, bytes);
    MarkedByte(c, m, bytes, 0);
    WordIsLast32(c, m + 64);
    SliceOfSlice(c, m + 32, m + 64, 16, 32);
  }

  /** The data bytes of a field, decoded from its cells. */
  lemma MarkedData(c: seq<bool>, m: nat, bytes: seq<byte>)
    requires Marked(c, m, bytes) && bytes != []
    ensures m + 64 + 16 * (|bytes| - 1) <= |c| && DataAt(c, m + 64, |bytes| - 1) == bytes[1..]
  {
    hide Encode, BytesBits, FieldCrc, DataBits, PackedBytes, DecodedByte, ByteOf, AllOdds;
    var d := BytesBits(bytes) + FieldCrc(bytes);
    var e := Encode(true, d);
    var n := |bytes| - 1;
    var run := c[m + 64..m + 64 + 16 * n];
    SliceOfSlice(c, m + 48, m + 48 + |e|, 16, 16 + 16 * n);
    DataBitsOfEncode(true, d);
    DataBitsSlice(e, 8, 8 + 8 * n);
    BytesBitsTail(bytes);
    assert DataBits(run) == BytesBits(bytes[1..]) by {
      assert d[8..8 + 8 * n] == BytesBits(bytes)[8..];
    }
    var raw := PackedBytes(run, 2 * n);
    PackedIs(run, 2 * n);
    PackedDataCells(run, raw);
    forall i | 0 <= i < n ensures DecodedByte(Linear, raw, n, i) == bytes[1..][i] {
      DecodeUndoesLayout(Linear, raw, bytes[1..], i);
    }
  }

  lemma BytesBitsTail(bytes: seq<byte>)
    requires bytes != []
    ensures BytesBits(bytes)[8..] == BytesBits(bytes[1..])
  {
    hide BytesBits;
    BytesBitsAppend(bytes[..1], bytes[1..]);
    assert bytes == bytes[..1] + bytes[1..];
  }

  lemma PackedIs(cells: seq<bool>, n: nat)
    requires |cells| == 8 * n
    ensures forall k | 0 <= k < n :: PackedBytes(cells, n)[k] == ByteOf(cells[8 * k..8 * k + 8])
  {
  }

  // ----- the CRC

  lemma SeedIsBitSerial()
    ensures MarkSeed() == CrcBits(DataBits(MarkWord()), Preset())
  {
    hide CrcBytes, CrcBits, H4489, DataBits;
    var w := MarkWord();
    var bs := [HighByte(w), LowByte(w)];
    CrcBytesAreBits(bs, Preset());
    BitsOfByte(DataBits(w[..16]));
    BitsOfByte(DataBits(w[16..]));
    assert BytesBits(bs) == ByteBits(bs[0]) + ByteBits(bs[1]) by {
      assert bs[..1] == [bs[0]] && bs[..1][..0] == [];
    }
    DataBitsSplit(w, 16);
  }

  /** The three marks carry the bytes 0xa1. */
  lemma MarkBytes()
    ensures DataBits(Mark3()) == BytesBits([0xa1, 0xa1, 0xa1])
    ensures DataBits(MarkWord()) == BytesBits([0xa1, 0xa1])
  {
    hide H4489, ByteBits, DataBits;
    var a: byte := 0xa1;
    MarkByteBits();
    DataBitsJoin(H4489() + H4489(), H4489());
    DataBitsJoin(H4489(), H4489());
    assert [a, a, a][..2] == [a, a] && [a, a][..1] == [a] && [a][..0] == [];
  }

  lemma MarkByteBits()
    ensures DataBits(H4489()) == ByteBits(0xa1)
  {
    assert ToBits(0xa, 4) == [true, false, true, false];
    assert ToBits(0xa1, 8) == ToBits(0xa, 4) + [false, false, false, true];
  }

  /** In absolute terms: the CRC of a field, its marks included, is that of its bits with
      the first sixteen inverted, from a clear register; and so is what the reader
      starts from at the second mark. */
  lemma FieldCrcIs(bytes: seq<byte>)
    ensures FieldCrc(bytes) == CrcBits(Inverted(BytesBits([0xa1, 0xa1, 0xa1] + bytes)), Zeros(16))
    ensures MarkSeed() == CrcBits(Inverted(BytesBits([0xa1, 0xa1])), Zeros(16))
  {
    hide BytesBits, CrcBits, DataBits, Mark3, MarkSeed;
    MarkBytes();
    SeedIsBitSerial();
    BytesBitsAppend([0xa1, 0xa1, 0xa1], bytes);
    CrcBitsAppend(BytesBits([0xa1, 0xa1, 0xa1]), BytesBits(bytes), Preset());
    PresetInverts(BytesBits([0xa1, 0xa1, 0xa1] + bytes));
    PresetInverts(BytesBits([0xa1, 0xa1]));
  }

  /** The reader's CRC of a field, started at the second mark: what is left when the
      sixteen bits behind the bytes meet the CRC of the field. */
  lemma ResidueIs(c: seq<bool>, m: nat, bytes: seq<byte>, x: Reg)
    requires Carries(c, m, bytes, x)
    ensures CrcAt(c, m + 32, m + 80 + 16 * |bytes|, MarkSeed()) == CrcBits(x, FieldCrc(bytes))
  {
    hide Encode, BytesBits, CrcBits, CrcRun, DataBits, H4489, MarkSeed;
    var d := BytesBits(bytes) + x;
    var q := m + 80 + 16 * |bytes|;
    var run := c[m + 32..q];
    assert run == H4489() + Encode(true, d) by {
      SliceOfSlice(c, m, m + 48, 32, 48);
      assert c[m + 32..m + 48] == Mark3()[32..48] == H4489();
      assert run == c[m + 32..m + 48] + c[m + 48..q];
    }
    CrcRunIsBitSerial(run, MarkSeed());
    SeedIsBitSerial();
    DataBitsJoin(H4489(), Encode(true, d));
    DataBitsOfEncode(true, d);
    DataBitsJoin(MarkWord(), H4489());
    CrcBitsAppend(DataBits(H4489()), d, MarkSeed());
    CrcBitsAppend(DataBits(MarkWord()), DataBits(H4489()), Preset());
    CrcBitsAppend(BytesBits(bytes), x, CrcBits(DataBits(Mark3()), Preset()));
    assert MarkWord() + H4489() == Mark3();
  }

  /** It is zero behind every field that the writer emits. */
  lemma FieldResidue(c: seq<bool>, m: nat, bytes: seq<byte>)
    requires Marked(c, m, bytes)
    ensures CrcAt(c, m + 32, m + 80 + 16 * |bytes|, MarkSeed()) == Zeros(16)
  {
    hide Carries, CrcAt, CrcBits, MarkSeed;
    ResidueIs(c, m, bytes, FieldCrc(bytes));
    CrcResidueZero(FieldCrc(bytes));
  }

  // ----- when an ID field is trusted

  /** An ID field with any sixteen bits in place of its CRC.  The residue is zero exactly
      if they are the CRC.  But only its low byte is kept, and that is zero exactly if
      the second of the two bytes is what the register asks for behind the first. */
  lemma IdTrusted(f: Flux, m: nat, bytes: seq<byte>, x: Reg)
    requires Carries(f.cells, m, bytes, x) && |bytes| == 5
    ensures m + 160 <= |f.cells|
    ensures CrcAt(f.cells, m + 32, m + 160, MarkSeed()) == Zeros(16) <==> x == FieldCrc(bytes)
    ensures HeaderAt(f, m + 32, m + 64).crcLow == 0 <==> x[8..] == CrcBits(x[..8], FieldCrc(bytes))[..8]
  {
    hide Carries, CrcAt, CrcBits, MarkSeed, FieldCrc, WordAt, HighByte, LowByte, ByteOf;
    CarriesBounds(f.cells, m, bytes, x);
    ResidueIs(f.cells, m, bytes, x);
    var crc, r := FieldCrc(bytes), CrcBits(x, FieldCrc(bytes));
    LowBitsClear(x, crc);
    assert crc[..16] == crc && r[0..] == r;
    CrcBitsAppend(x[..8], x[8..], crc);
    assert x[..8] + x[8..] == x;
    LowBitsClear(x[8..], CrcBits(x[..8], crc));
    ZeroBits(r[8..]);
  }

  lemma CarriesBounds(c: seq<bool>, m: nat, bytes: seq<byte>, x: Reg)
    requires Carries(c, m, bytes, x)
    ensures m + 80 + 16 * |bytes| <= |c|
  {
  }

  lemma ZeroBits(s: seq<bool>)
    requires |s| == 8
    ensures ByteOf(s) == 0 <==> s == Zeros(8)
  {
    hide ByteOf, ByteBits;
    ZeroByte();
    BitsOfByte(s);
    BitsOfByte(Zeros(8));
    ByteOfBits(0);
  }

  /** Any first byte will do: one that is wrong, and the second byte to go with it. */
  function WrongCrc(bytes: seq<byte>): Reg
  {
    var crc := FieldCrc(bytes);
    var a := [!crc[0]] + crc[1..8];
    a + CrcBits(a, crc)[..8]
  }

  /** An ID field with a wrong CRC that is trusted. */
  lemma WrongIdTrusted(bytes: seq<byte>, pulse: seq<bool>, len0: nat)
    requires |bytes| == 5
    ensures var f := Flux(Mark3() + Encode(true, BytesBits(bytes) + WrongCrc(bytes)), pulse, len0);
            && |f.cells| == 160 && WrongCrc(bytes) != FieldCrc(bytes)
            && CrcAt(f.cells, 32, 160, MarkSeed()) != Zeros(16) && HeaderAt(f, 32, 64).crcLow == 0
  {
    hide CrcAt, CrcBits, MarkSeed, FieldCrc, WordAt, HeaderAt, Mark3, Encode, BytesBits;
    var x, crc := WrongCrc(bytes), FieldCrc(bytes);
    var e := Encode(true, BytesBits(bytes) + x);
    var f := Flux(Mark3() + e, pulse, len0);
    assert f.cells[0..48] == Mark3() && f.cells[48..160] == e;
    assert x[..8] == [!crc[0]] + crc[1..8] && x[0] != crc[0];
    IdTrusted(f, 0, bytes, x);
  }

  // ----- no mark in between

  /** The window at w shows a doubled mark. */
  predicate MarkHere(c: seq<bool>, w: nat)
  {
    w + 32 <= |c| && c[w..w + 32] == MarkWord()
  }

  /** No window that starts at lo or later and before a shows a doubled mark. */
  ghost predicate Quiet(c: seq<bool>, lo: nat, a: nat)
  {
    forall w | lo <= w < a :: !MarkHere(c, w)
  }

  lemma MarkIsSync(c: seq<bool>, w: nat)
    requires w + 32 <= |c| && c[w..w + 32] == MarkWord()
    ensures AcceptedHalf(c[w..w + 16]) && AcceptedHalf(c[w + 16..w + 32])
  {
    hide H4489;
    SliceOfSlice(c, w, w + 32, 0, 16);
    SliceOfSlice(c, w, w + 32, 16, 32);
  }

  lemma QuietLegal(c: seq<bool>, lo: nat, a: nat, parity: nat)
    requires lo <= a && a + 32 <= |c| && parity < 2 && LegalIn(c, lo, a, parity)
    requires c[a..a + 32] == MarkWord()
    ensures Quiet(c, lo, a)
  {
    hide LegalIn, AcceptedHalf, MarkWord;
    MarkWordIs();
    forall w | lo <= w < a ensures !MarkHere(c, w) {
      StandardSyncAccepted();
      NoSyncBefore(AnySync, c, lo, a, w, parity);
      if MarkHere(c, w) {
        MarkIsSync(c, w);
      }
    }
  }

  lemma MarkWordIs()
    ensures MarkWord() == H4489() + H4489()
  {
  }

  lemma TwoMarks(c: seq<bool>, m: nat)
    requires m + 48 <= |c| && c[m..m + 48] == Mark3()
    ensures c[m..m + 32] == MarkWord() && c[m + 32..m + 48] == H4489()
  {
    hide H4489;
    SliceOfSlice(c, m, m + 48, 0, 32);
    SliceOfSlice(c, m, m + 48, 32, 48);
  }

  /** Behind the marks of a field everything is legal MFM, up to the marks of
      the field that follows. */
  lemma FieldThenLegal(c: seq<bool>, b: nat, prev: bool, bytes: seq<byte>, filler: nat, tail: seq<bool>)
    requires FieldHere(c, b, prev, bytes, filler)
    requires var e := b + FieldLen(|bytes|, filler);
             e + 2 * |tail| <= |c| && c[e..e + 2 * |tail|] == Encode(FieldEnd(bytes, filler), tail)
    ensures LegalIn(c, b + 240, b + FieldLen(|bytes|, filler) + 2 * |tail|, b % 2)
  {
    hide Encode, FieldBits, LastBit, Mark3, FieldHere;
    FieldPieces(c, b, prev, bytes, filler);
    var d := FieldBits(bytes, filler);
    var e := b + FieldLen(|bytes|, filler);
    EncodeAppend(true, d, tail);
    assert c[b + 240..e + 2 * |tail|] == c[b + 240..e] + c[e..e + 2 * |tail|];
    EncodedRunIsLegal(c, b + 240, e + 2 * |tail|, true, d + tail);
  }

  lemma QuietToNext(c: seq<bool>, b: nat, prev: bool, bytes: seq<byte>, filler: nat, bytes2: seq<byte>, filler2: nat)
    requires FieldHere(c, b, prev, bytes, filler)
    requires FieldHere(c, b + FieldLen(|bytes|, filler), FieldEnd(bytes, filler), bytes2, filler2)
    ensures Quiet(c, b + 240, b + FieldLen(|bytes|, filler) + 192)
  {
    hide FieldHere, Encode, FieldEnd, LegalIn, Quiet, Mark3, MarkWord, H4489;
    var b2 := b + FieldLen(|bytes|, filler);
    FieldPieces(c, b2, FieldEnd(bytes, filler), bytes2, filler2);
    FieldThenLegal(c, b, prev, bytes, filler, Zeros(96));
    TwoMarks(c, b2 + 192);
    QuietLegal(c, b + 240, b2 + 192, b % 2);
  }
}
