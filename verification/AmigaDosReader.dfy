/** The AmigaDOS scanner: it looks for sync marks in a cell stream and decodes
    the sector behind each. */
module AmigaDosReader {
  import opened Bits
  import opened Mfm
  import opened TrackBuffer
  import opened StreamReader
  import opened SyncMarks
  import opened AmigaDos

  datatype Block = Bad | Good(sync: seq<bool>, hdr: seq<byte>, dat: seq<byte>)

  /** What the scan has found so far. */
  datatype Found = Found(blocks: seq<Block>, valid: nat, least: nat, bitoff: int, extended: bool)

  function NothingFound(): Found
  {
    Found(seq(SECTORS, _ => Bad), 0, 0, 0, false)
  }

  // ----- one sector

  /** n bytes decoded from the 2n raw bytes at off. */
  function Field(raw: seq<byte>, off: nat, n: nat): (f: seq<byte>)
    requires off + 2 * n <= |raw|
    ensures |f| == n
  {
    seq(n, i requires 0 <= i < n => DecodedByte(EvenOdd, raw[off..off + 2 * n], n, i))
  }

  function RawHeader(raw: seq<byte>): (h: seq<byte>)
    requires |raw| == RAW_BYTES
    ensures |h| == 20
  {
    Field(raw, 0, 4) + Field(raw, 8, 16)
  }

  function RawData(raw: seq<byte>): (d: seq<byte>)
    requires |raw| == RAW_BYTES
    ensures |d| == STD_SEC
  {
    Field(raw, 56, STD_SEC)
  }

  predicate SumsMatch(raw: seq<byte>)
    requires |raw| == RAW_BYTES
  {
    && Checksum(RawHeader(raw)) == BytesBits(Field(raw, 40, 4))
    && Checksum(RawData(raw)) == BytesBits(Field(raw, 48, 4))
  }

  /** A header or sync that a standard track cannot express. */
  predicate NonStandard(track: byte, sync: seq<bool>, hdr: seq<byte>)
    requires |hdr| == 20
  {
    hdr[0] != 0xff || hdr[1] != track || sync != StdSync() || exists i | 4 <= i < 20 :: hdr[i] != 0
  }

  /** What a sector that follows an accepted sync adds. */
  function Store(f: Found, track: byte, sync: seq<bool>, raw: seq<byte>, idxOff: int): (g: Found)
    requires |f.blocks| == SECTORS && |raw| == RAW_BYTES
    ensures |g.blocks| == SECTORS
  {
    var h := RawHeader(raw);
    if !SumsMatch(raw) || h[2] >= SECTORS || f.blocks[h[2]].Good? then f
    else Found(f.blocks[h[2] := Good(sync, h, RawData(raw))], f.valid + 1,
               if f.least < h[3] then h[3] else f.least,
               if f.least < h[3] then idxOff else f.bitoff,
               f.extended || NonStandard(track, sync, h))
  }

  // ----- the scan

  function Scan(cells: seq<bool>, pulse: seq<bool>, p: nat, track: byte, filter: Filter, f: Found): (g: Found)
    requires |pulse| == |cells| && p <= |cells| && |f.blocks| == SECTORS
    ensures |g.blocks| == SECTORS
    decreases |cells| - p
  {
    if p == |cells| || f.valid == SECTORS then f
    else
      var q := p + 1;
      var word := WordAt(cells, q);
      if !Accepts(filter, word) then Scan(cells, pulse, q, track, filter, f)
      else if q + 8 * RAW_BYTES > |cells| then f
      else
        var raw := PackedBytes(cells[q..q + 8 * RAW_BYTES], RAW_BYTES);
        Scan(cells, pulse, q + 8 * RAW_BYTES, track, filter, Store(f, track, word, raw, OffsetAt(pulse, q) - 31))
  }

  /** The decoding done after an accepted sync. */
  method DecodeSector(raw: array<byte>) returns (hdr: seq<byte>, dat: seq<byte>, ok: bool)
    requires raw.Length == RAW_BYTES
    ensures hdr == RawHeader(raw[..]) && dat == RawData(raw[..])
    ensures ok == SumsMatch(raw[..])
  {
    hide Checksum, BytesBits;
    var info := DecodeField(raw, 0, 4);
    var lbl := DecodeField(raw, 8, 16);
    var hsum := DecodeField(raw, 40, 4);
    var dsum := DecodeField(raw, 48, 4);
    dat := DecodeField(raw, 56, STD_SEC);
    hdr := info + lbl;
    var c1 := AmigadosChecksum(hdr);
    var c2 := AmigadosChecksum(dat);
    ok := c1 == BytesBits(hsum) && c2 == BytesBits(dsum);
  }

  method DecodeField(raw: array<byte>, off: nat, n: nat) returns (f: seq<byte>)
    requires off + 2 * n <= raw.Length
    ensures f == Field(raw[..], off, n)
  {
    var out := new byte[n];
    assert raw[..][off..off + 2 * n] == raw[off..off + 2 * n];
    MfmDecodeBytes(EvenOdd, n, raw, off, out);
    f := out[..];
  }

  /** The loop of ados_write_raw. */
  method AdosWriteRaw(s: Stream, track: byte, filter: Filter) returns (f: Found)
    requires s.Valid()
    modifies s
    ensures |f.blocks| == SECTORS
    ensures f == Scan(s.cells, s.pulse, old(s.pos), track, filter, NothingFound())
  {
    hide Scan, Store, WordAt, OffsetAt, TrackLenAt, CrcAt, Accepts, SumsMatch, RawHeader, RawData, NonStandard;
    f := NothingFound();
    var raw := new byte[RAW_BYTES];
    ghost var result := Scan(s.cells, s.pulse, s.pos, track, filter, f);
    while true
      invariant s.Valid() && |f.blocks| == SECTORS
      invariant Scan(s.cells, s.pulse, s.pos, track, filter, f) == result
      decreases |s.cells| - s.pos
    {
      ghost var p := s.pos;
      ScanStep(s.cells, s.pulse, p, track, filter, f);
      var more := s.NextBit();
      if !more || f.valid == SECTORS {
        return;
      }
      var sync := s.word;
      var idxOff := s.indexOffset - 31;
      if !Accepts(filter, sync) {
        continue;
      }
      more := s.NextBytes(raw, RAW_BYTES);
      if !more {
        return;
      }
      assert raw[..RAW_BYTES] == raw[..];
      var hdr, dat, ok := DecodeSector(raw);
      StoreCases(f, track, sync, raw[..], idxOff);
      if !ok || hdr[2] >= SECTORS || f.blocks[hdr[2]].Good? {
        continue;
      }
      f := Found(f.blocks[hdr[2] := Good(sync, hdr, dat)], f.valid + 1,
                 if f.least < hdr[3] then hdr[3] else f.least,
                 if f.least < hdr[3] then idxOff else f.bitoff,
                 f.extended || NonStandard(track, sync, hdr));
    }
  }

  /** The scan from a position q at which a sync has just been seen. */
  function AfterSync(cells: seq<bool>, pulse: seq<bool>, q: nat, track: byte, filter: Filter, f: Found): Found
    requires |pulse| == |cells| && q <= |cells| && |f.blocks| == SECTORS
  {
    if q + 8 * RAW_BYTES > |cells| then f
    else
      var raw := PackedBytes(cells[q..q + 8 * RAW_BYTES], RAW_BYTES);
      Scan(cells, pulse, q + 8 * RAW_BYTES, track, filter,
           Store(f, track, WordAt(cells, q), raw, OffsetAt(pulse, q) - 31))
  }

  lemma ScanStep(cells: seq<bool>, pulse: seq<bool>, p: nat, track: byte, filter: Filter, f: Found)
    requires |pulse| == |cells| && p <= |cells| && |f.blocks| == SECTORS
    ensures p == |cells| || f.valid == SECTORS ==> Scan(cells, pulse, p, track, filter, f) == f
    ensures p < |cells| && f.valid != SECTORS && !Accepts(filter, WordAt(cells, p + 1)) ==>
              Scan(cells, pulse, p, track, filter, f) == Scan(cells, pulse, p + 1, track, filter, f)
    ensures p < |cells| && f.valid != SECTORS && Accepts(filter, WordAt(cells, p + 1)) ==>
              Scan(cells, pulse, p, track, filter, f) == AfterSync(cells, pulse, p + 1, track, filter, f)
  {
    hide Store, WordAt, OffsetAt, Accepts, PackedBytes;
  }

  lemma StoreCases(f: Found, track: byte, sync: seq<bool>, raw: seq<byte>, idxOff: int)
    requires |f.blocks| == SECTORS && |raw| == RAW_BYTES
    ensures var h := RawHeader(raw);
            Store(f, track, sync, raw, idxOff) ==
            if !SumsMatch(raw) || h[2] >= SECTORS || f.blocks[h[2]].Good? then f
            else Found(f.blocks[h[2] := Good(sync, h, RawData(raw))], f.valid + 1,
                       if f.least < h[3] then h[3] else f.least,
                       if f.least < h[3] then idxOff else f.bitoff,
                       f.extended || NonStandard(track, sync, h))
  {
  }
}
