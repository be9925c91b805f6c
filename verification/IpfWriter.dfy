/** The writer of IPF data streams: cells go straight into the buffer, and the
    header of a chunk is squeezed in before them when the chunk is complete. */
module IpfWriter {
  import opened Bits
  import opened IpfFormat
  import opened IpfRuns

  /** What the image records of a block. */
  datatype Desc = Desc(blockbits: nat, gapbits: nat, dataoffset: nat)

  ghost predicate BlocksOk(bs: seq<Block>)
  {
    forall i | 0 <= i < |bs| :: ChunksOk(bs[i].chunks)
  }

  /** The bytes of closed blocks. */
  ghost function Image(bs: seq<Block>): seq<byte>
    requires BlocksOk(bs)
  {
    if bs == [] then [] else Image(bs[..|bs| - 1]) + BlockBytes(bs[|bs| - 1].chunks)
  }

  /** What is in the buffer before the open chunk. */
  ghost function Closed(s: State): seq<byte>
    requires BlocksOk(s.blocks) && ChunksOk(s.cur)
  {
    Image(s.blocks) + ChunksBytes(s.cur)
  }

  ghost predicate DescsOk(ds: seq<Desc>, bs: seq<Block>)
  {
    && BlocksOk(bs) && |ds| == |bs|
    && (bs != [] ==>
          var n := |bs| - 1;
          ds[n] == Desc(bs[n].cells, bs[n].gap, |Image(bs[..n])|) && DescsOk(ds[..n], bs[..n]))
  }

  /** The open chunk lies raw behind the closed ones, zeros behind it. */
  ghost predicate Laid(dat: seq<byte>, at: nat, bits: seq<bool>)
  {
    forall k | at <= k < |dat| :: dat[k] == PackByte(bits, k - at)
  }

  // ----- packing bits one by one

  lemma PackEmpty(k: nat)
    ensures PackByte([], k) == 0
  {
    assert Eight([], k) == Zeros(8);
    ZeroByte();
  }

  function OrBit(b: byte, i: nat, x: bool): byte
    requires i < 8
  {
    ByteOf(ByteBits(b)[i := ByteBits(b)[i] || x])
  }

  lemma PackMore(bits: seq<bool>, x: bool, k: nat)
    ensures PackByte(bits + [x], k)
         == if k == |bits| / 8 then OrBit(PackByte(bits, k), |bits| % 8, x) else PackByte(bits, k)
  {
    hide ByteOf, ToBits;
    var s, t := Eight(bits, k), Eight(bits + [x], k);
    BitsOfByte(s);
    if k == |bits| / 8 {
      assert t == s[|bits| % 8 := x];
    } else {
      assert t == s;
    }
  }

  lemma LaidIsPack(dat: seq<byte>, at: nat, bits: seq<bool>)
    requires Laid(dat, at, bits) && at + CeilBytes(|bits|) <= |dat|
    ensures dat[at..at + CeilBytes(|bits|)] == Pack(bits)
    ensures forall k | at + CeilBytes(|bits|) <= k < |dat| :: dat[k] == 0
  {
    hide PackByte;
    forall k | at + CeilBytes(|bits|) <= k < |dat| ensures dat[k] == 0 {
      PackBeyond(bits, k - at);
    }
  }

  lemma PackBeyond(bits: seq<bool>, k: nat)
    requires k >= CeilBytes(|bits|)
    ensures PackByte(bits, k) == 0
  {
    PackEmpty(k);
    assert Eight(bits, k) == Eight([], k);
  }

  class IpfTbuf {
    const dat: array<byte>
    const nosplit: bool
    var len: nat
    var bits: nat
    var decodedBits: nat
    var blockstart: nat
    var chunkstart: nat
    var chunktype: nat
    var nrSync: nat
    var gapbits: nat
    var blks: seq<Desc>

    /** What has been written, chunk by chunk. */
    ghost var model: State

    ghost predicate Valid()
      reads this, dat
    {
      && dat.Length < 0x2000_0000
      && BlocksOk(model.blocks) && ChunksOk(model.cur) && OpenOk(model.open)
      && chunktype == model.open.code && decodedBits == model.cells && nrSync == model.syncs && gapbits == model.gap
      && bits < 8 && chunkstart <= len <= dat.Length && model.open.count == 8 * (len - chunkstart) + bits
      && blockstart == |Image(model.blocks)| && chunkstart == |Closed(model)|
      && dat[..chunkstart] == Closed(model)
      && Laid(dat[..], chunkstart, model.open.bits)
      && DescsOk(blks, model.blocks)
    }

    constructor (size: nat, nosplit: bool)
      requires size < 0x2000_0000
      ensures Valid() && model == Initial() && len == 0 && dat.Length == size && this.nosplit == nosplit && fresh(dat)
    {
      hide PackByte;
      dat := new byte[size](_ => 0);
      this.nosplit := nosplit;
      len, bits, decodedBits, blockstart, chunkstart, chunktype := 0, 0, 0, 0, 0, CHK_GAP;
      nrSync, gapbits, blks := 0, 0, [];
      model := Initial();
      new;
      forall k | 0 <= k < dat.Length ensures dat[k] == PackByte([], k) {
        PackEmpty(k);
      }
    }

    /** memmove to a higher address. */
    method MoveUp(dst: nat, src: nat, n: nat)
      requires src <= dst && dst + n <= dat.Length
      modifies dat
      ensures dat[dst..dst + n] == old(dat[src..src + n])
      ensures forall k | 0 <= k < dat.Length && !(dst <= k < dst + n) :: dat[k] == old(dat[k])
    {
      var i := n;
      while i > 0
        invariant 0 <= i <= n
        invariant forall k | dst + i <= k < dst + n :: dat[k] == old(dat[k - dst + src])
        invariant forall k | 0 <= k < dat.Length && !(dst + i <= k < dst + n) :: dat[k] == old(dat[k])
      {
        i := i - 1;
        dat[dst + i] := dat[src + i];
      }
    }

    /** The count behind the first byte of a header, least significant byte last. */
    method PutCount(at: nat, n: nat, cntlen: nat)
      requires cntlen == |CountBytes(n)| && at + cntlen < dat.Length
      modifies dat
      ensures dat[at + 1..at + 1 + cntlen] == CountBytes(n)
      ensures forall k | 0 <= k < dat.Length && !(at < k <= at + cntlen) :: dat[k] == old(dat[k])
    {
      var i, j := n, 0;
      while i > 0
        invariant 0 <= j <= cntlen && |CountBytes(i)| == cntlen - j
        invariant CountBytes(n) == CountBytes(i) + dat[at + 1 + cntlen - j..at + 1 + cntlen]
        invariant forall k | 0 <= k < dat.Length && !(at + cntlen - j < k <= at + cntlen) :: dat[k] == old(dat[k])
      {
        dat[at + cntlen - j] := i % 256;
        i := i / 256;
        j := j + 1;
      }
    }

    /** How many bytes the count of a chunk needs. */
    static method CountLength(n: nat) returns (cntlen: nat)
      ensures cntlen == |CountBytes(n)|
    {
      var i := n;
      cntlen := 0;
      while i > 0
        invariant cntlen + |CountBytes(i)| == |CountBytes(n)|
      {
        i := i / 256;
        cntlen := cntlen + 1;
      }
    }

    /** The header of a chunk. */
    method WriteHeader(count: nat, cntlen: nat, ghost c: Chunk)
      requires ChunkOk(c) && chunktype == c.code && count == c.count
      requires cntlen == |CountBytes(count)| <= 4 && chunkstart + cntlen < dat.Length
      modifies dat
      ensures dat[chunkstart..chunkstart + 1 + cntlen] == Header(c)
      ensures forall k | 0 <= k < dat.Length && !(chunkstart <= k <= chunkstart + cntlen) :: dat[k] == old(dat[k])
    {
      dat[chunkstart] := chunktype + 32 * cntlen;
      PutCount(chunkstart, count, cntlen);
    }

    /** Makes room for a header before n bytes of payload, and writes it. */
    method PutHeader(count: nat, n: nat, ghost c: Chunk) returns (cntlen: nat)
      requires ChunkOk(c) && chunktype == c.code && count == c.count && chunkstart + n + 5 <= dat.Length
      requires dat[chunkstart..chunkstart + n] == Pack(c.bits)
      modifies dat
      ensures cntlen <= 4 && 1 + cntlen + n == |ChunkBytes(c)|
      ensures dat[..chunkstart] == old(dat[..chunkstart])
      ensures dat[chunkstart..chunkstart + 1 + cntlen + n] == ChunkBytes(c)
      ensures forall k | chunkstart + 1 + cntlen + n <= k < dat.Length :: dat[k] == old(dat[k])
    {
      hide Pack, Header, ChunkBytes, CountBytes;
      cntlen := CountLength(count);
      CountFits(count);
      assert n == CeilBytes(|c.bits|);
      MoveUp(chunkstart + 1 + cntlen, chunkstart, n);
      ghost var moved := dat[..];
      WriteHeader(count, cntlen, c);
      HeadAndPayload(moved, dat[..], chunkstart, cntlen, c);
    }

    /** The end of the payload in whole bytes; none is kept of a flaky chunk. */
    method SettlePayload()
      requires chunkstart <= len && bits < 8 && model.open.count == 8 * (len - chunkstart) + bits
      requires OpenOk(model.open) && chunktype == model.open.code
      modifies this`len, this`bits
      ensures bits == 0 && len == chunkstart + CeilBytes(|model.open.bits|) <= old(len) + 1
    {
      if bits != 0 {
        len := len + 1;
        bits := 0;
      }
      if chunktype == CHK_FLAKY {
        len := chunkstart;
      }
    }

    /** The part of ipf_tbuf_finish_chunk that completes a chunk: its payload moves
        up and its header goes in before it. */
    method CloseChunk(count: nat)
      requires Valid() && count == model.open.count > 0 && len + 6 <= dat.Length
      modifies this, dat
      ensures Valid() && bits == 0 && len <= old(len) + 6 && chunkstart == len
      ensures var s := old(model);
              model == State(s.blocks, s.cur + [s.open], Chunk(CHK_END, 0, []), s.cells, s.syncs, s.gap)
    {
      hide Laid, Closed, Image, DescsOk, BlocksOk, ChunksOk, ChunkBytes, Header, Pack, PackByte;
      ghost var s, c := model, model.open;
      OpenIsChunk(c);
      SettlePayload();
      LaidIsPack(dat[..], chunkstart, c.bits);
      var n := PutHeader(count, len - chunkstart, c);
      len := len + 1 + n;
      NothingLaid(dat[..], len);
      Joined(dat[..], 0, chunkstart, len);
      model := State(s.blocks, s.cur + [s.open], Chunk(CHK_END, 0, []), s.cells, s.syncs, s.gap);
      ChunkAdded(s, model);
      chunkstart, chunktype := len, CHK_END;
    }

    /** The part that ends a block. */
    method EndBlock()
      requires Valid() && len == chunkstart && model.open.count == 0 && model.open.code == CHK_END && len < dat.Length
      modifies this, dat
      ensures Valid() && bits == 0 && len == old(len) + 1 == chunkstart
      ensures model == AfterBlock(old(model))
    {
      hide Laid, Closed, Image, DescsOk, BlocksOk, ChunksOk, PackByte;
      ghost var s := model;
      LaidIsPack(dat[..], chunkstart, s.open.bits);
      BlockAdded(s, blks);
      blks := blks + [Desc(decodedBits, gapbits, blockstart)];
      gapbits := 0;
      dat[len] := 0;
      len := len + 1;
      decodedBits := 0;
      blockstart, chunkstart := len, len;
      NothingLaid(dat[..], len);
      assert dat[..len] == dat[..len - 1] + [0];
      model := AfterBlock(s);
    }

    /** ipf_tbuf_finish_chunk. */
    method FinishChunk(next: nat)
      requires Valid() && len + 7 <= dat.Length
      requires next == CHK_END || next == CHK_SYNC || next == CHK_DATA || next == CHK_FLAKY
      modifies this, dat
      ensures Valid() && model == Finish(old(model), next, nosplit)
      ensures bits == 0 && len <= old(len) + 7
    {
      hide Laid, Closed, Image, DescsOk, BlocksOk, ChunksOk, PackByte;
      ghost var s := model;
      var count := 8 * (len - chunkstart) + bits;
      if count != 0 {
        CloseChunk(count);
        var ends := next == CHK_END;
        if next == CHK_SYNC {
          ends := nrSync > 0 && !nosplit;
          nrSync := nrSync + 1;
          ghost var t := model;
          model := model.(syncs := nrSync);
          SameClosed(model, t);
        }
        if ends {
          EndBlock();
        }
      }
      chunktype := next;
      ghost var t := model;
      model := model.(open := Chunk(next, 0, []));
      SameClosed(model, t);
    }

    /** ipf_tbuf_bit. */
    method TbufBit(raw: bool, b: bool)
      requires Valid() && len + 8 <= dat.Length
      modifies this, dat
      ensures Valid() && model == Next(old(model), Cell(raw, b), nosplit)
      ensures len <= old(len) + 8
    {
      hide Laid, Closed, Image, DescsOk, BlocksOk, ChunksOk, PackByte, OrBit, Finish;
      var kind := KindOf(raw);
      ghost var first := model;
      if kind != chunktype {
        FinishChunk(kind);
        FinishOpens(first, kind, nosplit);
      }
      AddBit(raw, b);
    }

    /** The cell itself, once a chunk of its kind is open. */
    method AddBit(raw: bool, b: bool)
      requires Valid() && len < dat.Length && chunktype == KindOf(raw)
      modifies this, dat
      ensures Valid() && len <= old(len) + 1
      ensures model == AfterCell(old(model), Cell(raw, b))
    {
      hide Laid, Closed, Image, DescsOk, BlocksOk, ChunksOk, PackByte, OrBit;
      ghost var s := model;
      ghost var before := dat[..];
      dat[len] := OrBit(dat[len], bits, b);
      decodedBits := decodedBits + (if raw then 1 else 2);
      bits := bits + 1;
      if bits == 8 {
        bits := 0;
        len := len + 1;
      }
      model := AfterCell(s, Cell(raw, b));
      LaidMore(before, dat[..], chunkstart, s.open.bits, b);
      SameClosed(model, s);
      assert dat[..chunkstart] == before[..chunkstart];
    }

    /** ipf_tbuf_gap. */
    method TbufGap(n: nat)
      requires Valid() && len + 7 <= dat.Length
      modifies this, dat
      ensures Valid() && model == Next(old(model), Gap(n), nosplit)
      ensures len <= old(len) + 7
    {
      hide Laid, Closed, Image, DescsOk, BlocksOk, ChunksOk, PackByte, Finish;
      ghost var s := model;
      gapbits := n * 2;
      nrSync := 0;
      model := s.(gap := 2 * n, syncs := 0);
      SameClosed(model, s);
      FinishChunk(CHK_END);
    }

    /** ipf_tbuf_weak. */
    method TbufWeak(n: nat)
      requires Valid() && len + 7 + n / 8 <= dat.Length
      modifies this, dat
      ensures Valid() && model == Next(old(model), Weak(n), nosplit)
      ensures len <= old(len) + 7 + n / 8
    {
      hide Laid, Closed, Image, DescsOk, BlocksOk, ChunksOk, PackByte, Finish;
      FinishChunk(CHK_FLAKY);
      FinishOpens(old(model), CHK_FLAKY, nosplit);
      ghost var s := model;
      decodedBits := decodedBits + 2 * n;
      len := len + n / 8;
      bits := n % 8;
      model := s.(open := Chunk(CHK_FLAKY, n, []), cells := s.cells + CellsOf(Weak(n)));
      SameClosed(model, s);
    }

    /** The end of a track. */
    method EndTrack()
      requires Valid() && len + 7 <= dat.Length
      modifies this, dat
      ensures Valid() && model == Next(old(model), TrackEnd, nosplit)
    {
      hide Laid, Closed, Image, DescsOk, BlocksOk, ChunksOk, PackByte, Finish;
      FinishChunk(CHK_END);
    }

    /** Whatever calls have been made, in any order: the buffer reads back block by
        block, and what it holds are exactly the runs emitted, if and only if the calls
        are ended. */
    lemma BufferReadsBack(es: seq<Event>)
      requires Valid() && model == Written(es, nosplit)
      ensures ImageHolds(dat[..], blks, model.blocks)
      ensures Chunks(model.blocks) == RunsOf(es).list <==> Ended(es)
      ensures Ended(es) ==> BlockCells(model.blocks) == CellSum(es)
    {
      hide *;
      BlocksExact(es, nosplit);
      Readable();
    }

    lemma Readable()
      requires Valid()
      ensures ImageHolds(dat[..], blks, model.blocks)
    {
      hide Laid, Closed, Image, DescsOk, BlocksOk, ChunksOk, ImageHolds;
      assert dat[..][..chunkstart] == dat[..chunkstart];
      BlocksReadBack(dat[..], model, blks);
    }
  }

  /** Reading each block from the offset recorded for it gives back its chunks, and
      what is recorded of its size is right. */
  ghost predicate ImageHolds(d: seq<byte>, ds: seq<Desc>, bs: seq<Block>)
  {
    && |ds| == |bs|
    && forall i | 0 <= i < |bs| ::
         && ds[i].dataoffset <= |d| && Parse(d[ds[i].dataoffset..]).Parsed?
         && Parse(d[ds[i].dataoffset..]).chunks == bs[i].chunks
         && ds[i].blockbits == bs[i].cells && ds[i].gapbits == bs[i].gap
  }

  /** A cell joins the open chunk. */
  ghost function AfterCell(s: State, e: Event): State
    requires e.Cell?
  {
    s.(open := Chunk(s.open.code, s.open.count + 1, s.open.bits + [e.b]), cells := s.cells + CellsOf(e))
  }

  lemma FinishOpens(s: State, next: nat, nosplit: bool)
    ensures Finish(s, next, nosplit).open == Chunk(next, 0, [])
  {
  }

  lemma LaidMore(before: seq<byte>, after: seq<byte>, at: nat, bits: seq<bool>, b: bool)
    requires Laid(before, at, bits) && at + |bits| / 8 < |before| == |after|
    requires after == before[at + |bits| / 8 := OrBit(before[at + |bits| / 8], |bits| % 8, b)]
    ensures Laid(after, at, bits + [b])
  {
    hide PackByte, OrBit;
    forall k | at <= k < |after| ensures after[k] == PackByte(bits + [b], k - at) {
      PackMore(bits, b, k - at);
    }
  }

  // ----- reading the image

  ghost predicate StartsWith(d: seq<byte>, front: seq<byte>)
  {
    |front| <= |d| && d[..|front|] == front
  }

  lemma {:induction false} ImagePrefix(bs: seq<Block>, i: nat)
    requires BlocksOk(bs) && i < |bs|
    ensures BlocksOk(bs[..i]) && |Image(bs[..i])| <= |Image(bs)|
    ensures StartsWith(Image(bs), Image(bs[..i]) + BlockBytes(bs[i].chunks))
  {
    hide BlockBytes;
    var n := |bs| - 1;
    if i < n {
      ImagePrefix(bs[..n], i);
      assert bs[..n][..i] == bs[..i];
    }
  }

  lemma {:induction false} DescAt(ds: seq<Desc>, bs: seq<Block>, i: nat)
    requires DescsOk(ds, bs) && i < |bs|
    ensures ds[i] == Desc(bs[i].cells, bs[i].gap, |Image(bs[..i])|)
  {
    hide Image;
    var n := |bs| - 1;
    if i < n {
      DescAt(ds[..n], bs[..n], i);
      assert bs[..n][..i] == bs[..i];
    }
  }

  /** Every block of the image, read from the offset recorded for it, gives back
      exactly its chunks. */
  lemma BlockReadsBack(d: seq<byte>, bs: seq<Block>, ds: seq<Desc>, i: nat)
    requires DescsOk(ds, bs) && i < |bs| && StartsWith(d, Image(bs))
    ensures ds[i].dataoffset <= |d|
    ensures Parse(d[ds[i].dataoffset..]).Parsed? && Parse(d[ds[i].dataoffset..]).chunks == bs[i].chunks
    ensures ds[i].blockbits == bs[i].cells && ds[i].gapbits == bs[i].gap
  {
    hide Image, BlockBytes, Parse, DescsOk;
    Covered(ds, bs);
    ImagePrefix(bs, i);
    DescAt(ds, bs, i);
    var at, b := |Image(bs[..i])|, BlockBytes(bs[i].chunks);
    Inside(d, Image(bs), Image(bs[..i]), b);
    BlockBack(bs[i].chunks, d[at + |b|..]);
  }

  lemma Covered(ds: seq<Desc>, bs: seq<Block>)
    requires DescsOk(ds, bs)
    ensures |ds| == |bs| && BlocksOk(bs) && forall i | 0 <= i < |bs| :: ChunksOk(bs[i].chunks)
  {
  }

  lemma Inside(d: seq<byte>, image: seq<byte>, before: seq<byte>, b: seq<byte>)
    requires StartsWith(d, image) && StartsWith(image, before + b)
    ensures |before| + |b| <= |d| && d[|before|..] == b + d[|before| + |b|..]
  {
    assert d[..|before + b|] == before + b;
  }

  lemma BlocksReadBack(d: seq<byte>, s: State, ds: seq<Desc>)
    requires BlocksOk(s.blocks) && ChunksOk(s.cur) && DescsOk(ds, s.blocks) && StartsWith(d, Closed(s))
    ensures ImageHolds(d, ds, s.blocks)
  {
    hide Image, Parse, BlocksOk, ChunksOk, ChunksBytes, DescsOk;
    Covered(ds, s.blocks);
    assert StartsWith(d, Image(s.blocks));
    forall i | 0 <= i < |ds|
      ensures ds[i].dataoffset <= |d| && Parse(d[ds[i].dataoffset..]).Parsed?
      ensures Parse(d[ds[i].dataoffset..]).chunks == s.blocks[i].chunks
      ensures ds[i].blockbits == s.blocks[i].cells && ds[i].gapbits == s.blocks[i].gap
    {
      BlockReadsBack(d, s.blocks, ds, i);
    }
  }

  /** A block has ended behind the current chunks. */
  ghost function AfterBlock(s: State): State
  {
    State(s.blocks + [Block(s.cur, s.cells, s.gap)], [], s.open, 0, s.syncs, 0)
  }

  lemma OpenIsChunk(c: Chunk)
    requires OpenOk(c) && 0 < c.count < 0x1_0000_0000
    ensures ChunkOk(c)
  {
  }

  lemma ChunkAdded(s: State, t: State)
    requires BlocksOk(s.blocks) && ChunksOk(s.cur) && ChunkOk(s.open)
    requires t.blocks == s.blocks && t.cur == s.cur + [s.open]
    ensures ChunksOk(t.cur) && Closed(t) == Closed(s) + ChunkBytes(s.open)
  {
    hide ChunkBytes, Image;
    assert t.cur[..|t.cur| - 1] == s.cur;
  }

  lemma BlockAdded(s: State, ds: seq<Desc>)
    requires BlocksOk(s.blocks) && ChunksOk(s.cur) && DescsOk(ds, s.blocks)
    ensures var t := AfterBlock(s);
            && BlocksOk(t.blocks) && ChunksOk(t.cur)
            && Closed(t) == Closed(s) + [0] && |Image(t.blocks)| == |Closed(s)| + 1
            && DescsOk(ds + [Desc(s.cells, s.gap, |Image(s.blocks)|)], t.blocks)
  {
    hide ChunksBytes;
    var t := AfterBlock(s);
    var n := |s.blocks|;
    assert t.blocks[..n] == s.blocks;
    assert ChunksBytes([]) == [] by {
      NoChunks();
    }
    forall i | 0 <= i < n ensures t.blocks[..i] == s.blocks[..i] { }
  }

  lemma NoChunks()
    ensures ChunksBytes([]) == []
  {
  }

  lemma NothingLaid(d: seq<byte>, at: nat)
    requires forall k | at <= k < |d| :: d[k] == 0
    ensures Laid(d, at, [])
  {
    hide PackByte;
    forall k | at <= k < |d| ensures d[k] == PackByte([], k - at) {
      PackEmpty(k - at);
    }
  }

  /** What is closed does not depend on the open chunk and the counters. */
  lemma SameClosed(s: State, t: State)
    requires s.blocks == t.blocks && s.cur == t.cur && BlocksOk(s.blocks) && ChunksOk(s.cur)
    ensures Closed(s) == Closed(t)
  {
  }

  lemma HeadAndPayload(moved: seq<byte>, d: seq<byte>, at: nat, cntlen: nat, c: Chunk)
    requires ChunkOk(c) && cntlen == |CountBytes(c.count)| && at + 1 + cntlen + CeilBytes(|c.bits|) <= |d| == |moved|
    requires d[at..at + 1 + cntlen] == Header(c)
    requires moved[at + 1 + cntlen..at + 1 + cntlen + CeilBytes(|c.bits|)] == Pack(c.bits)
    requires d[at + 1 + cntlen..] == moved[at + 1 + cntlen..]
    ensures d[at..at + 1 + cntlen + CeilBytes(|c.bits|)] == ChunkBytes(c)
    ensures 1 + cntlen + CeilBytes(|c.bits|) == |ChunkBytes(c)|
  {
    hide Pack, Header, CountBytes;
    var b, n := at + 1 + cntlen, CeilBytes(|c.bits|);
    assert d[b..b + n] == d[b..][..n] == moved[b..][..n] == moved[b..b + n];
    assert d[at..b + n] == d[at..b] + d[b..b + n];
  }

  lemma Joined(d: seq<byte>, i: nat, j: nat, k: nat)
    requires i <= j <= k <= |d|
    ensures d[i..k] == d[i..j] + d[j..k]
    ensures d[0..k] == d[..k]
  {
  }
}
