/** The bit clock of the emulated drive: data_cb shifts the cells of the track
    into the data word and moves whole words to memory once it is in sync. */
module DiskDma {
  import opened Bits
  import opened TrackBuffer
  import opened Speed

  /** A loaded track: cells in bytes, a speed for every cell, the average time. */
  datatype Trk = Trk(bits: seq<byte>, speed: seq<nat>, bitlen: nat, avNs: nat)

  /** The custom registers that stay as they are while no one writes them. */
  datatype Regs = Regs(wordSync: bool, dskSync: seq<bool>, dmaOn: bool)

  type Random = nat -> byte

  datatype Write = Write(addr: nat, word: seq<bool>)

  /** The drive's data path.  dma is 0 when idle, 1 when armed, 2 when running. */
  datatype Disk = Disk(last: nat, ns: nat, pos: nat, input: seq<bool>, word: seq<bool>, bitpos: nat,
                       dskbytr: seq<bool>, dma: nat, dsklen: nat, dskpt: nat, written: seq<Write>,
                       blockDone: bool, syncFound: bool, indexes: nat, drawn: nat)

  function CellNs(t: Trk, i: nat): nat
    requires i < |t.speed|
  {
    if t.speed[i] == SPEED_WEAK then t.avNs else t.avNs * t.speed[i] / SPEED_AVG
  }

  /** A cell never takes no time at all. */
  ghost predicate TrkOk(t: Trk)
  {
    && 0 < t.bitlen <= 8 * |t.bits| && t.bitlen <= |t.speed|
    && forall i | 0 <= i < t.bitlen :: CellNs(t, i) > 0
  }

  ghost predicate DiskOk(t: Trk, r: Regs, d: Disk)
  {
    TrkOk(t) && d.pos < t.bitlen && d.ns > 0 && |r.dskSync| == 16 && Widths(d)
  }

  /** The registers have the widths they have. */
  predicate Widths(d: Disk)
  {
    |d.input| == 8 && |d.word| == 16 && |d.dskbytr| == 16 && d.dsklen < 0x10000 && d.dskpt < 0x1_0000_0000
  }

  /** track_load_byte; a weak cell brings a random byte. */
  function LoadByte(t: Trk, rnd: Random, d: Disk): (e: Disk)
    requires TrkOk(t) && d.pos < t.bitlen && Widths(d)
    ensures Widths(e) && e.ns > 0 && e.pos == d.pos && e.last == d.last
  {
    if t.speed[d.pos] == SPEED_WEAK then
      d.(ns := CellNs(t, d.pos), input := ByteBits(rnd(d.drawn)), drawn := d.drawn + 1)
    else d.(ns := CellNs(t, d.pos), input := ByteBits(t.bits[d.pos / 8]))
  }

  function Count(d: Disk): nat
  {
    d.dsklen % 0x4000
  }

  /** disk_dma_word. */
  function DmaWord(d: Disk, w: seq<bool>): (e: Disk)
    requires Widths(d)
    ensures Widths(e) && e.ns == d.ns && e.pos == d.pos && e.last == d.last
  {
    var e := if Count(d) == 0 then d
             else d.(written := d.written + [Write(d.dskpt, w)], dskpt := (d.dskpt + 2) % 0x1_0000_0000,
                     dsklen := if d.dsklen > 0 then d.dsklen - 1 else 0);
    if Count(e) == 0 then e.(dma := 0, blockDone := true) else e
  }

  /** The next cell enters the data word ... */
  function WordShifted(d: Disk): (e: Disk)
    requires d.ns > 0 && Widths(d)
    ensures Widths(e) && e.ns == d.ns && e.pos == d.pos && e.last == d.last + d.ns
  {
    d.(last := d.last + d.ns, word := d.word[1..] + [d.input[0]], input := d.input[1..] + [false],
       bitpos := d.bitpos + 1, dskbytr := d.dskbytr[3 := false])
  }

  /** ... the head moves on, round the ring ... */
  function HeadMoved(t: Trk, d: Disk): Disk
  {
    var wraps := d.pos + 1 == t.bitlen;
    d.(pos := if wraps then 0 else d.pos + 1, indexes := if wraps then d.indexes + 1 else d.indexes)
  }

  function Entered(t: Trk, d: Disk): (e: Disk)
    requires TrkOk(t) && d.pos < t.bitlen && d.ns > 0 && Widths(d)
    ensures Widths(e) && e.ns > 0 && e.pos < t.bitlen && e.last == d.last + d.ns
  {
    HeadMoved(t, WordShifted(d))
  }

  /** ... and every eighth one is followed by a new byte. */
  function Shift(t: Trk, rnd: Random, d: Disk): (e: Disk)
    requires TrkOk(t) && d.pos < t.bitlen && d.ns > 0 && Widths(d)
    ensures Widths(e) && e.ns > 0 && e.pos < t.bitlen && e.last == d.last + d.ns
  {
    var e := Entered(t, d);
    if e.pos % 8 == 0 then LoadByte(t, rnd, e) else e
  }

  /** Every eight cells the byte register is filled, every sixteen a word is due. */
  function ByteDue(d: Disk): (e: Disk)
    requires Widths(d)
    ensures Widths(e) && e.ns == d.ns && e.pos == d.pos && e.last == d.last
  {
    if d.bitpos % 8 != 0 then d
    else
      var e := d.(dskbytr := [true] + d.dskbytr[1..8] + d.word[8..]);
      if d.dma == 2 && d.bitpos % 16 == 0 then DmaWord(e, d.word) else e
  }

  function SyncCheck(r: Regs, d: Disk): (e: Disk)
    requires Widths(d)
    ensures Widths(e) && e.ns == d.ns && e.pos == d.pos && e.last == d.last
  {
    if r.wordSync && d.word == r.dskSync then
      d.(syncFound := true, dskbytr := d.dskbytr[3 := true], bitpos := 0, dma := if r.dmaOn && d.dma == 1 then 2 else d.dma)
    else d
  }

  /** One pass of the loop of data_cb. */
  function Cell(t: Trk, r: Regs, rnd: Random, d: Disk): (e: Disk)
    requires DiskOk(t, r, d)
    ensures DiskOk(t, r, e) && e.last == d.last + d.ns
  {
    SyncCheck(r, ByteDue(Shift(t, rnd, d)))
  }

  /** data_cb at time now. */
  function Run(t: Trk, r: Regs, rnd: Random, d: Disk, now: nat): (e: Disk)
    requires DiskOk(t, r, d)
    ensures DiskOk(t, r, e) && e.last + e.ns > now
    ensures d.last <= now ==> e.last <= now
    decreases now + 1 - d.last
  {
    if d.last + d.ns <= now then Run(t, r, rnd, Cell(t, r, rnd, d), now) else d
  }

  /** The bit clock does not depend on how time is sliced: running to one moment
      and then to a later one is running to the later one. */
  lemma {:induction false} TimeSlicing(t: Trk, r: Regs, rnd: Random, d: Disk, now1: nat, now2: nat)
    requires DiskOk(t, r, d) && now1 <= now2
    ensures Run(t, r, rnd, Run(t, r, rnd, d, now1), now2) == Run(t, r, rnd, d, now2)
    decreases now1 + 1 - d.last
  {
    hide Cell;
    if d.last + d.ns <= now1 {
      TimeSlicing(t, r, rnd, Cell(t, r, rnd, d), now1, now2);
    }
  }

  /** Any number of calls at ascending times. */
  function Calls(t: Trk, r: Regs, rnd: Random, d: Disk, nows: seq<nat>): (e: Disk)
    requires DiskOk(t, r, d)
    ensures DiskOk(t, r, e)
  {
    if nows == [] then d else Run(t, r, rnd, Calls(t, r, rnd, d, nows[..|nows| - 1]), nows[|nows| - 1])
  }

  lemma {:induction false} OnlyTheLastCounts(t: Trk, r: Regs, rnd: Random, d: Disk, nows: seq<nat>)
    requires DiskOk(t, r, d) && nows != [] && forall i, j | 0 <= i < j < |nows| :: nows[i] <= nows[j]
    ensures Calls(t, r, rnd, d, nows) == Run(t, r, rnd, d, nows[|nows| - 1])
  {
    hide Run, DiskOk;
    var n := |nows| - 1;
    if n == 0 {
      assert nows[..0] == [];
    } else {
      OnlyTheLastCounts(t, r, rnd, d, nows[..n]);
      TimeSlicing(t, r, rnd, d, nows[n - 1], nows[n]);
    }
  }

  // ----- which words reach memory

  /** k passes of the loop. */
  function Cells(t: Trk, r: Regs, rnd: Random, d: Disk, k: nat): (e: Disk)
    requires DiskOk(t, r, d)
    ensures DiskOk(t, r, e)
  {
    if k == 0 then d else Cell(t, r, rnd, Cells(t, r, rnd, d, k - 1))
  }

  /** The words of a bit stream as one would cut them by hand: groups of sixteen
      bits, beginning anew behind every sync word.  The window holds the last
      sixteen bits, the pending bits are those since the last cut. */
  datatype Cut = Cut(groups: seq<seq<bool>>, pending: seq<bool>, window: seq<bool>)

  function CutBit(c: Cut, x: bool, r: Regs): Cut
    requires |c.window| == 16
  {
    var w, p := c.window[1..] + [x], c.pending + [x];
    Cut(if |p| == 16 then c.groups + [p] else c.groups,
        if |p| == 16 || (r.wordSync && w == r.dskSync) then [] else p, w)
  }

  /** The bits of k cells cut by hand, beginning with those already in the word. */
  function CutCells(t: Trk, r: Regs, rnd: Random, d: Disk, k: nat): (c: Cut)
    requires DiskOk(t, r, d)
    ensures |c.window| == 16
  {
    if k == 0 then Cut([], d.word[16 - d.bitpos % 16..], d.word)
    else CutBit(CutCells(t, r, rnd, d, k - 1), Cells(t, r, rnd, d, k - 1).input[0], r)
  }

  /** The shift register and its counter hold exactly the bits since the last cut. */
  ghost predicate InStep(e: Disk, c: Cut)
    requires |e.word| == 16
  {
    c.window == e.word && c.pending == e.word[16 - e.bitpos % 16..]
  }

  lemma ByteKeepsWord(d: Disk)
    requires Widths(d)
    ensures ByteDue(d).word == d.word && ByteDue(d).bitpos == d.bitpos
  {
  }

  lemma CellWord(t: Trk, r: Regs, rnd: Random, e: Disk)
    requires DiskOk(t, r, e)
    ensures var f, w := Cell(t, r, rnd, e), e.word[1..] + [e.input[0]];
            f.word == w && f.bitpos == if r.wordSync && w == r.dskSync then 0 else e.bitpos + 1
  {
    hide Shift, ByteDue;
    ShiftTransfer(t, rnd, e);
    ByteKeepsWord(Shift(t, rnd, e));
  }

  lemma CellKeepsStep(t: Trk, r: Regs, rnd: Random, e: Disk, c: Cut)
    requires DiskOk(t, r, e) && |c.window| == 16 && InStep(e, c)
    ensures InStep(Cell(t, r, rnd, e), CutBit(c, e.input[0], r))
  {
    hide *;
    WidthsOf(t, r, e);
    var x := e.input[0];
    CellWord(t, r, rnd, e);
    CutIs(e, c, x, r);
    var f := Cell(t, r, rnd, e);
    StepIs(f, CutBit(c, x, r));
    PendingNext(e.word, e.bitpos, x, r.wordSync && f.word == r.dskSync, f.bitpos);
  }

  lemma PendingNext(w: seq<bool>, b: nat, x: bool, cut: bool, next: nat)
    requires |w| == 16 && next == if cut then 0 else b + 1
    ensures |w[16 - b % 16..]| == b % 16
    ensures (w[1..] + [x])[16 - next % 16..] == if b % 16 == 15 || cut then [] else w[16 - b % 16..] + [x]
  {
    PendingGrows(w, b, x);
    NextBitpos(b);
  }

  lemma WidthsOf(t: Trk, r: Regs, d: Disk)
    requires DiskOk(t, r, d)
    ensures Widths(d) && |d.input| == 8 && |d.word| == 16 && |d.dskbytr| == 16
    ensures TrkOk(t) && d.pos < t.bitlen && d.ns > 0
  {
  }

  lemma StepIs(e: Disk, c: Cut)
    requires |e.word| == 16
    ensures InStep(e, c) <==> c.window == e.word && c.pending == e.word[16 - e.bitpos % 16..]
    ensures e.bitpos == 0 ==> e.word[16 - e.bitpos % 16..] == []
  {
  }

  lemma CutIs(e: Disk, c: Cut, x: bool, r: Regs)
    requires |e.word| == 16 && |c.window| == 16 && InStep(e, c)
    ensures c.window == e.word && c.pending == e.word[16 - e.bitpos % 16..]
    ensures var w, p, d := e.word[1..] + [x], c.pending + [x], CutBit(c, x, r);
            && d.window == w && |p| == e.bitpos % 16 + 1 && (|p| == 16 ==> p == w)
            && d.pending == (if |p| == 16 || (r.wordSync && w == r.dskSync) then [] else p)
            && d.groups == (if |p| == 16 then c.groups + [p] else c.groups)
  {
    PendingGrows(e.word, e.bitpos, x);
  }

  lemma PendingGrows(w: seq<bool>, b: nat, x: bool)
    requires |w| == 16
    ensures w[16 - b % 16..] + [x] == (w[1..] + [x])[15 - b % 16..]
    ensures (b + 1) % 16 == if b % 16 == 15 then 0 else b % 16 + 1
    ensures (w[1..] + [x])[16..] == [] && (w[1..] + [x])[0..] == w[1..] + [x]
  {
    Pushed(w, x, 15 - b % 16);
    NextBitpos(b);
  }

  lemma Pushed(w: seq<bool>, x: bool, i: nat)
    requires |w| == 16 && i < 16
    ensures w[i + 1..] + [x] == (w[1..] + [x])[i..]
  {
  }

  lemma NextBitpos(b: nat)
    ensures (b + 1) % 16 == if b % 16 == 15 then 0 else b % 16 + 1
  {
  }

  lemma {:induction false} AlwaysInStep(t: Trk, r: Regs, rnd: Random, d: Disk, k: nat)
    requires DiskOk(t, r, d)
    ensures InStep(Cells(t, r, rnd, d, k), CutCells(t, r, rnd, d, k))
  {
    hide Cell, CutBit;
    if k > 0 {
      AlwaysInStep(t, r, rnd, d, k - 1);
      CellKeepsStep(t, r, rnd, Cells(t, r, rnd, d, k - 1), CutCells(t, r, rnd, d, k - 1));
    }
  }

  /** Words to consecutive addresses from a on. */
  function Placed(a: nat, ws: seq<seq<bool>>): (l: seq<Write>)
    ensures |l| == |ws|
  {
    seq(|ws|, i requires 0 <= i < |ws| => Write((a + 2 * i) % 0x1_0000_0000, ws[i]))
  }

  /** What leaves the transfer as it is. */
  ghost predicate SameTransfer(e: Disk, f: Disk)
  {
    f.dma == e.dma && f.written == e.written && f.dskpt == e.dskpt && f.dsklen == e.dsklen && f.blockDone == e.blockDone
  }

  lemma ShiftTransfer(t: Trk, rnd: Random, e: Disk)
    requires TrkOk(t) && e.pos < t.bitlen && e.ns > 0 && Widths(e)
    ensures var f := Shift(t, rnd, e);
            SameTransfer(e, f) && f.word == e.word[1..] + [e.input[0]] && f.bitpos == e.bitpos + 1
  {
  }

  lemma SyncTransfer(r: Regs, e: Disk)
    requires Widths(e) && e.dma != 1
    ensures SameTransfer(e, SyncCheck(r, e))
  {
  }

  /** What one word does to a running transfer. */
  ghost predicate OneWord(e: Disk, f: Disk, w: seq<bool>)
    requires Count(e) > 0
  {
    && f.written == e.written + [Write(e.dskpt, w)]
    && f.dskpt == (e.dskpt + 2) % 0x1_0000_0000 && f.dsklen == e.dsklen - 1
    && f.dma == (if Count(e) == 1 then 0 else 2)
    && f.blockDone == (e.blockDone || Count(e) == 1)
  }

  lemma WordMoves(d: Disk, w: seq<bool>)
    requires Widths(d) && d.dma == 2 && Count(d) > 0
    ensures OneWord(d, DmaWord(d, w), w)
  {
    CountLeft(d.dsklen, 1 % Count(d));
    CountLeft(d.dsklen, 0);
  }

  lemma ByteTransfer(d: Disk)
    requires Widths(d) && d.dma == 2 && Count(d) > 0
    ensures if d.bitpos % 16 == 0 then OneWord(d, ByteDue(d), d.word) else SameTransfer(d, ByteDue(d))
  {
    hide DmaWord, OneWord;
    var e := d.(dskbytr := [true] + d.dskbytr[1..8] + d.word[8..]);
    SixteenthIsEighth(d.bitpos);
    if d.bitpos % 16 == 0 {
      WordMoves(e, d.word);
      OneWordOf(d, e, DmaWord(e, d.word), d.word);
    }
  }

  lemma SixteenthIsEighth(b: nat)
    ensures b % 16 == 0 ==> b % 8 == 0
  {
  }

  lemma OneWordOf(d: Disk, e: Disk, f: Disk, w: seq<bool>)
    requires SameTransfer(d, e) && Count(d) > 0 && Count(e) > 0 && OneWord(e, f, w)
    ensures OneWord(d, f, w)
  {
  }

  /** What one cell does to a running transfer. */
  lemma CellTransfers(t: Trk, r: Regs, rnd: Random, e: Disk)
    requires DiskOk(t, r, e) && e.dma == 2 && Count(e) > 0
    ensures var f := Cell(t, r, rnd, e);
            if e.bitpos % 16 == 15 then OneWord(e, f, e.word[1..] + [e.input[0]]) else SameTransfer(e, f)
  {
    hide *;
    CellIs(t, r, rnd, e);
    ShiftTransfer(t, rnd, e);
    var f := Shift(t, rnd, e);
    SameCount(e, f);
    ByteTransfer(f);
    SyncTransfer(r, ByteDue(f));
    LastOfSixteen(e.bitpos);
    if e.bitpos % 16 == 15 {
      OneWordOf(e, f, ByteDue(f), f.word);
      OneWordStays(e, ByteDue(f), SyncCheck(r, ByteDue(f)), f.word);
    } else {
      SameTwice(e, f, ByteDue(f));
      SameTwice(e, ByteDue(f), SyncCheck(r, ByteDue(f)));
    }
  }

  lemma CellIs(t: Trk, r: Regs, rnd: Random, e: Disk)
    requires DiskOk(t, r, e) && e.dma == 2 && Count(e) > 0
    ensures TrkOk(t) && e.pos < t.bitlen && e.ns > 0 && Widths(e) && |r.dskSync| == 16
    ensures var f := Shift(t, rnd, e);
            Widths(f) && Widths(ByteDue(f)) && Cell(t, r, rnd, e) == SyncCheck(r, ByteDue(f))
    ensures ByteDue(Shift(t, rnd, e)).dma != 1
  {
    ShiftTransfer(t, rnd, e);
    ByteTransfer(Shift(t, rnd, e));
  }

  lemma SameCount(e: Disk, f: Disk)
    requires SameTransfer(e, f)
    ensures f.dma == e.dma && Count(f) == Count(e)
  {
  }

  lemma LastOfSixteen(b: nat)
    ensures b % 16 == 15 <==> (b + 1) % 16 == 0
  {
  }

  lemma OneWordStays(d: Disk, e: Disk, f: Disk, w: seq<bool>)
    requires Count(d) > 0 && OneWord(d, e, w) && SameTransfer(e, f)
    ensures OneWord(d, f, w)
  {
  }

  lemma SameTwice(d: Disk, e: Disk, f: Disk)
    requires SameTransfer(d, e) && SameTransfer(e, f)
    ensures SameTransfer(d, f)
  {
  }

  lemma CellIdle(t: Trk, r: Regs, rnd: Random, e: Disk)
    requires DiskOk(t, r, e) && e.dma == 0
    ensures SameTransfer(e, Cell(t, r, rnd, e))
  {
  }

  /** The transfer state that follows from the words cut so far. */
  ghost predicate Moved(d: Disk, e: Disk, groups: seq<seq<bool>>)
    requires Count(d) > 0
  {
    var n := Count(d);
    if |groups| < n then
      && e.dma == 2 && e.dsklen == d.dsklen - |groups| && e.blockDone == d.blockDone
      && e.dskpt == (d.dskpt + 2 * |groups|) % 0x1_0000_0000
      && e.written == d.written + Placed(d.dskpt, groups)
    else
      && e.dma == 0 && e.dsklen == d.dsklen - n && e.blockDone
      && e.written == d.written + Placed(d.dskpt, groups[..n])
  }

  lemma CellMoves(t: Trk, r: Regs, rnd: Random, d: Disk, e: Disk, c: Cut)
    requires DiskOk(t, r, d) && DiskOk(t, r, e) && |c.window| == 16 && Count(d) > 0
    requires InStep(e, c) && Moved(d, e, c.groups)
    ensures Moved(d, Cell(t, r, rnd, e), CutBit(c, e.input[0], r).groups)
  {
    hide Cell;
    CutIs(e, c, e.input[0], r);
    var gs, n := c.groups, Count(d);
    if |gs| < n {
      CountLeft(d.dsklen, |gs|);
      CellTransfers(t, r, rnd, e);
      if |c.pending| == 15 {
        var p := c.pending + [e.input[0]];
        PlacedMore(d.dskpt, gs, p);
        assert (gs + [p])[..|gs| + 1] == gs + [p];
      }
    } else {
      CellIdle(t, r, rnd, e);
      if |c.pending| == 15 {
        assert (gs + [c.pending + [e.input[0]]])[..n] == gs[..n];
      }
    }
  }

  lemma CountLeft(len: nat, k: nat)
    requires k < len % 0x4000
    ensures (len - k) % 0x4000 == len % 0x4000 - k
  {
  }

  lemma PlacedMore(a: nat, ws: seq<seq<bool>>, w: seq<bool>)
    ensures Placed(a, ws + [w]) == Placed(a, ws) + [Write((a + 2 * |ws|) % 0x1_0000_0000, w)]
    ensures ((a + 2 * |ws|) % 0x1_0000_0000 + 2) % 0x1_0000_0000 == (a + 2 * (|ws| + 1)) % 0x1_0000_0000
  {
  }

  /** Once a transfer of n words is running, exactly the first n sixteen-bit groups
      behind the sync go to consecutive addresses; then, and not before, the
      block is done. */
  lemma {:induction false} DmaExact(t: Trk, r: Regs, rnd: Random, d: Disk, k: nat)
    requires DiskOk(t, r, d) && d.dma == 2 && Count(d) > 0 && d.dskpt < 0x1_0000_0000
    ensures Moved(d, Cells(t, r, rnd, d, k), CutCells(t, r, rnd, d, k).groups)
  {
    hide Cell, CutBit;
    if k == 0 {
      assert Placed(d.dskpt, []) == [];
    } else {
      DmaExact(t, r, rnd, d, k - 1);
      AlwaysInStep(t, r, rnd, d, k - 1);
      CellMoves(t, r, rnd, d, Cells(t, r, rnd, d, k - 1), CutCells(t, r, rnd, d, k - 1));
    }
  }

  /** One cell of an armed transfer. */
  lemma ArmedCell(t: Trk, r: Regs, rnd: Random, e: Disk)
    requires DiskOk(t, r, e) && e.dma == 1
    ensures var f := Cell(t, r, rnd, e);
            && f.written == e.written && f.dskpt == e.dskpt && f.dsklen == e.dsklen && f.blockDone == e.blockDone
            && (f.dma == 2 <==> r.wordSync && r.dmaOn && f.word == r.dskSync)
            && (f.dma == 2 ==> f.bitpos == 0) && (f.dma == 1 || f.dma == 2)
  {
  }

  /** Cell j completes a sync word that the controller looks for. */
  ghost predicate SyncsAt(t: Trk, r: Regs, rnd: Random, d: Disk, j: nat)
    requires DiskOk(t, r, d)
  {
    j > 0 && r.wordSync && r.dmaOn && Cells(t, r, rnd, d, j).word == r.dskSync
  }

  /** Until the first sync word an armed transfer stays armed and nothing moves; with
      that word, and not before, it runs, beginning anew with the cell behind it. */
  lemma {:induction false} ArmedUntilSync(t: Trk, r: Regs, rnd: Random, d: Disk, k: nat)
    requires DiskOk(t, r, d) && d.dma == 1
    requires forall j | 0 <= j < k :: !SyncsAt(t, r, rnd, d, j)
    ensures var e := Cells(t, r, rnd, d, k);
            && e.written == d.written && e.dskpt == d.dskpt && e.dsklen == d.dsklen && e.blockDone == d.blockDone
            && (e.dma == 2 <==> SyncsAt(t, r, rnd, d, k)) && (e.dma == 1 || e.dma == 2) && (e.dma == 2 ==> e.bitpos == 0)
  {
    hide Cell;
    if k > 0 {
      ArmedUntilSync(t, r, rnd, d, k - 1);
      ArmedCell(t, r, rnd, Cells(t, r, rnd, d, k - 1));
    }
  }

  lemma {:induction false} CellsSplit(t: Trk, r: Regs, rnd: Random, d: Disk, j: nat, k: nat)
    requires DiskOk(t, r, d)
    ensures Cells(t, r, rnd, d, j + k) == Cells(t, r, rnd, Cells(t, r, rnd, d, j), k)
  {
    hide Cell;
    if k > 0 {
      CellsSplit(t, r, rnd, d, j, k - 1);
    }
  }

  /** A whole transfer: armed for n words, the first sync word completed by cell j.
      After j + k cells what has moved are exactly the groups of sixteen bits behind
      that sync, the first n of them, to consecutive addresses; and the block is done
      exactly if there have been that many. */
  lemma ArmedTransfer(t: Trk, r: Regs, rnd: Random, d: Disk, j: nat, k: nat)
    requires DiskOk(t, r, d) && d.dma == 1 && Count(d) > 0
    requires SyncsAt(t, r, rnd, d, j) && forall i | 0 <= i < j :: !SyncsAt(t, r, rnd, d, i)
    ensures var e := Cells(t, r, rnd, d, j);
            && CutCells(t, r, rnd, e, 0) == Cut([], [], r.dskSync)
            && Moved(d, Cells(t, r, rnd, d, j + k), CutCells(t, r, rnd, e, k).groups)
  {
    hide Cell, CutBit, Cells;
    var e := Cells(t, r, rnd, d, j);
    ArmedUntilSync(t, r, rnd, d, j);
    CellsSplit(t, r, rnd, d, j, k);
    DmaExact(t, r, rnd, e, k);
  }

  // ----- what the head reads

  function TrackBit(t: Trk, i: nat): bool
    requires i / 8 < |t.bits|
  {
    ByteBits(t.bits[i / 8])[i % 8]
  }

  /** No weak cells. */
  ghost predicate Steady(t: Trk)
  {
    TrkOk(t) && forall i | 0 <= i < t.bitlen :: t.speed[i] != SPEED_WEAK
  }

  /** The byte register holds the rest of the byte under the head. */
  ghost predicate Showing(t: Trk, d: Disk)
  {
    && TrkOk(t) && d.pos < t.bitlen && |d.input| == 8
    && forall j | 0 <= j < 8 - d.pos % 8 :: d.input[j] == ByteBits(t.bits[d.pos / 8])[d.pos % 8 + j]
  }

  lemma CellShows(t: Trk, r: Regs, rnd: Random, d: Disk)
    requires DiskOk(t, r, d) && Steady(t) && Showing(t, d)
    ensures var e := Cell(t, r, rnd, d); Showing(t, e) && e.pos == Next(d.pos, t.bitlen)
  {
    hide ByteBits, ByteDue, SyncCheck;
    var e := Shift(t, rnd, d);
    ByteKeepsInput(e);
    SyncKeepsInput(r, ByteDue(e));
    ShiftShows(t, rnd, d);
  }

  lemma ByteKeepsInput(d: Disk)
    requires Widths(d)
    ensures ByteDue(d).input == d.input && ByteDue(d).pos == d.pos
  {
  }

  lemma SyncKeepsInput(r: Regs, d: Disk)
    requires Widths(d)
    ensures SyncCheck(r, d).input == d.input && SyncCheck(r, d).pos == d.pos
  {
  }

  lemma ShiftShows(t: Trk, rnd: Random, d: Disk)
    requires Steady(t) && Showing(t, d) && d.ns > 0 && Widths(d)
    ensures var e := Shift(t, rnd, d); Showing(t, e) && e.pos == Next(d.pos, t.bitlen)
  {
    hide ByteBits;
    var e := Shift(t, rnd, d);
    if e.pos % 8 != 0 {
      assert e.pos == d.pos + 1 && e.pos / 8 == d.pos / 8 && e.pos % 8 == d.pos % 8 + 1;
      forall j | 0 <= j < 8 - e.pos % 8 ensures e.input[j] == ByteBits(t.bits[e.pos / 8])[e.pos % 8 + j] {
        assert e.input[j] == d.input[j + 1];
      }
    }
  }

  /** On a track without weak cells the bits that enter the data word are the
      cells of the ring, one after the other. */
  lemma {:induction false} ReadsTheRing(t: Trk, r: Regs, rnd: Random, d: Disk, k: nat)
    requires DiskOk(t, r, d) && Steady(t) && Showing(t, d)
    ensures var e := Cells(t, r, rnd, d, k);
            && Showing(t, e) && e.pos == Advance(d.pos, k, t.bitlen) < t.bitlen
            && e.input[0] == TrackBit(t, Advance(d.pos, k, t.bitlen))
  {
    hide Cell, Showing, DiskOk, Steady, TrackBit;
    if k > 0 {
      ReadsTheRing(t, r, rnd, d, k - 1);
      CellShows(t, r, rnd, Cells(t, r, rnd, d, k - 1));
    }
    FirstShown(t, Cells(t, r, rnd, d, k));
  }

  lemma FirstShown(t: Trk, d: Disk)
    requires Showing(t, d)
    ensures d.pos < t.bitlen && d.pos / 8 < |t.bits| && |d.input| == 8 && d.input[0] == TrackBit(t, d.pos)
  {
    hide ByteBits;
  }

  // ----- index pulses and the byte register

  lemma CellTurns(t: Trk, r: Regs, rnd: Random, d: Disk)
    requires DiskOk(t, r, d)
    ensures var e := Cell(t, r, rnd, d);
            if d.pos + 1 == t.bitlen then e.pos == 0 && e.indexes == d.indexes + 1
            else e.pos == d.pos + 1 && e.indexes == d.indexes
  {
    hide ByteBits;
  }

  /** Every full turn of the ring gives one index pulse. */
  lemma {:induction false} OnePulseATurn(t: Trk, r: Regs, rnd: Random, d: Disk, k: nat)
    requires DiskOk(t, r, d)
    ensures var e := Cells(t, r, rnd, d, k);
            && e.indexes >= d.indexes && e.pos + t.bitlen * (e.indexes - d.indexes) == d.pos + k
  {
    hide Cell;
    if k == 0 {
      assert t.bitlen * 0 == 0;
    } else {
      OnePulseATurn(t, r, rnd, d, k - 1);
      var e := Cells(t, r, rnd, d, k - 1);
      CellTurns(t, r, rnd, e);
      var turns := e.indexes - d.indexes;
      assert t.bitlen * (turns + 1) == t.bitlen * turns + t.bitlen;
    }
  }

  /** The flag that tells a sync word is up for the one cell that completes it; the byte
      and the flag that it is there change with every eighth cell alone. */
  lemma CellByte(t: Trk, r: Regs, rnd: Random, d: Disk)
    requires DiskOk(t, r, d)
    ensures var e := Cell(t, r, rnd, d);
            && (e.dskbytr[3] <==> r.wordSync && e.word == r.dskSync)
            && (e.syncFound <==> d.syncFound || (r.wordSync && e.word == r.dskSync))
            && (if (d.bitpos + 1) % 8 == 0 then e.dskbytr[0] && e.dskbytr[8..] == e.word[8..]
                else e.dskbytr[0] == d.dskbytr[0] && e.dskbytr[8..] == d.dskbytr[8..])
  {
    hide DmaWord, ByteBits;
    ShiftByte(t, rnd, d);
    DmaByte(Shift(t, rnd, d));
  }

  lemma ShiftByte(t: Trk, rnd: Random, d: Disk)
    requires TrkOk(t) && d.pos < t.bitlen && d.ns > 0 && Widths(d)
    ensures Shift(t, rnd, d).dskbytr == d.dskbytr[3 := false] && Shift(t, rnd, d).bitpos == d.bitpos + 1
    ensures Shift(t, rnd, d).syncFound == d.syncFound
  {
  }

  lemma DmaByte(d: Disk)
    requires Widths(d)
    ensures var e := ByteDue(d);
            && e.word == d.word && e.syncFound == d.syncFound
            && e.dskbytr == if d.bitpos % 8 == 0 then [true] + d.dskbytr[1..8] + d.word[8..] else d.dskbytr
  {
  }

  /** Half a word behind a boundary the byte register holds its first eight bits, and
      keeps them until the next. */
  lemma {:induction false} ByteShown(t: Trk, r: Regs, rnd: Random, d: Disk, k: nat)
    requires DiskOk(t, r, d) && d.bitpos % 16 < 8
    ensures |Cells(t, r, rnd, d, k).dskbytr| == 16
    ensures var e, c := Cells(t, r, rnd, d, k), CutCells(t, r, rnd, d, k);
            |c.pending| >= 8 ==> e.dskbytr[0] && e.dskbytr[8..] == c.pending[..8]
  {
    hide *;
    OneCellMore(t, r, rnd, d, if k > 0 then k - 1 else 0);
    if k > 0 {
      ByteShown(t, r, rnd, d, k - 1);
      AlwaysInStep(t, r, rnd, d, k - 1);
      var e, c := Cells(t, r, rnd, d, k - 1), CutCells(t, r, rnd, d, k - 1);
      CellByte(t, r, rnd, e);
      CellWord(t, r, rnd, e);
      WidthsOf(t, r, e);
      WidthsOf(t, r, Cell(t, r, rnd, e));
      ByteNext(e, c, e.input[0], r, Cell(t, r, rnd, e).dskbytr);
    } else {
      NoneYet(t, r, rnd, d);
      WidthsOf(t, r, d);
    }
  }

  lemma NoneYet(t: Trk, r: Regs, rnd: Random, d: Disk)
    requires DiskOk(t, r, d)
    ensures Cells(t, r, rnd, d, 0) == d && CutCells(t, r, rnd, d, 0) == Cut([], d.word[16 - d.bitpos % 16..], d.word)
  {
  }

  lemma ByteNext(e: Disk, c: Cut, x: bool, r: Regs, next: seq<bool>)
    requires |e.word| == |c.window| == |e.dskbytr| == |next| == 16 && InStep(e, c)
    requires if (e.bitpos + 1) % 8 == 0 then next[0] && next[8..] == (e.word[1..] + [x])[8..]
             else next[0] == e.dskbytr[0] && next[8..] == e.dskbytr[8..]
    requires |c.pending| >= 8 ==> e.dskbytr[0] && e.dskbytr[8..] == c.pending[..8]
    ensures var p := CutBit(c, x, r).pending; |p| >= 8 ==> next[0] && next[8..] == p[..8]
  {
    hide *;
    CutIs(e, c, x, r);
    EighthCell(e.bitpos);
    ByteStep(e.word, e.bitpos % 16, x, e.dskbytr, next);
  }

  lemma OneCellMore(t: Trk, r: Regs, rnd: Random, d: Disk, k: nat)
    requires DiskOk(t, r, d)
    ensures Cells(t, r, rnd, d, k + 1) == Cell(t, r, rnd, Cells(t, r, rnd, d, k))
    ensures DiskOk(t, r, Cells(t, r, rnd, d, k)) && |Cells(t, r, rnd, d, k).input| == 8
    ensures CutCells(t, r, rnd, d, k + 1) == CutBit(CutCells(t, r, rnd, d, k), Cells(t, r, rnd, d, k).input[0], r)
  {
    hide Cell, CutBit;
  }

  lemma EighthCell(b: nat)
    ensures (b + 1) % 8 == 0 <==> b % 16 == 7 || b % 16 == 15
  {
    var q, m := b / 16, b % 16;
    assert b + 1 == 8 * (2 * q) + (m + 1);
    if m < 7 {
      assert (b + 1) / 8 == 2 * q;
    } else if m < 15 {
      assert (b + 1) / 8 == 2 * q + 1;
    } else {
      assert (b + 1) / 8 == 2 * q + 2;
    }
  }

  /** n bits are pending; the byte register follows them. */
  lemma ByteStep(w: seq<bool>, n: nat, x: bool, reg: seq<bool>, next: seq<bool>)
    requires n < 16 == |w| == |reg| == |next|
    requires if n == 7 || n == 15 then next[0] && next[8..] == (w[1..] + [x])[8..]
             else next[0] == reg[0] && next[8..] == reg[8..]
    requires n >= 8 ==> reg[0] && reg[8..] == w[16 - n..][..8]
    ensures 7 <= n < 15 ==> next[0] && next[8..] == (w[16 - n..] + [x])[..8]
  {
    if n == 7 {
      assert (w[1..] + [x])[8..] == w[9..] + [x] == (w[9..] + [x])[..8];
    } else if n >= 8 {
      assert (w[16 - n..] + [x])[..8] == w[16 - n..][..8];
    }
  }

  /** The byte under the head where a byte begins: a weak one is drawn afresh, and no
      other draws. */
  lemma WeakDraws(t: Trk, r: Regs, rnd: Random, d: Disk)
    requires DiskOk(t, r, d)
    ensures var e := Cell(t, r, rnd, d);
            if e.pos % 8 == 0 && t.speed[e.pos] == 0xfffe then e.input == ByteBits(rnd(d.drawn)) && e.drawn == d.drawn + 1
            else e.drawn == d.drawn && (e.pos % 8 == 0 ==> e.input == ByteBits(t.bits[e.pos / 8]))
  {
    hide ByteBits;
  }

  /** A transfer of no words is done with the first one, which goes nowhere. */
  lemma NoWords(d: Disk, w: seq<bool>)
    requires Widths(d) && d.dsklen % 0x4000 == 0
    ensures DmaWord(d, w) == d.(dma := 0, blockDone := true)
  {
  }

  // ----- when the cells enter

  /** A cell lasts as long as the first cell of its byte: the average time, scaled by
      its speed in thousandths unless it is weak. */
  function Lasts(t: Trk, p: nat): nat
    requires p < |t.speed|
  {
    var speed := t.speed[p / 8 * 8];
    if speed == 0xfffe then t.avNs else t.avNs * speed / 1000
  }

  /** The time of k cells, from position p on round the ring. */
  function Elapsed(t: Trk, p: nat, k: nat): nat
    requires p < t.bitlen <= |t.speed|
  {
    if k == 0 then 0
    else
      AdvanceInRange(p, k - 1, t.bitlen);
      Elapsed(t, p, k - 1) + Lasts(t, Advance(p, k - 1, t.bitlen))
  }

  lemma CellTakes(t: Trk, r: Regs, rnd: Random, d: Disk)
    requires DiskOk(t, r, d) && d.ns == Lasts(t, d.pos)
    ensures var e := Cell(t, r, rnd, d);
            && e.pos == Next(d.pos, t.bitlen) && e.last == d.last + Lasts(t, d.pos)
            && e.ns == Lasts(t, e.pos)
  {
    hide ByteDue, SyncCheck;
    ShiftTakes(t, rnd, d);
  }

  lemma ShiftTakes(t: Trk, rnd: Random, d: Disk)
    requires TrkOk(t) && d.pos < t.bitlen && d.ns > 0 && Widths(d) && d.ns == Lasts(t, d.pos)
    ensures var e := Shift(t, rnd, d);
            e.pos == Next(d.pos, t.bitlen) && e.ns == Lasts(t, e.pos)
  {
    hide ByteBits;
    SameByte(d.pos);
  }

  lemma SameByte(p: nat)
    ensures if (p + 1) % 8 == 0 then (p + 1) / 8 * 8 == p + 1 else (p + 1) / 8 == p / 8
  {
  }

  /** Every cell takes its own time: after k cells the clock stands at the sum of the
      times of those cells, and the next one is due when the cell under the head has
      lasted. */
  lemma {:induction false} CellTimes(t: Trk, r: Regs, rnd: Random, d: Disk, k: nat)
    requires DiskOk(t, r, d) && d.ns == Lasts(t, d.pos)
    ensures var e := Cells(t, r, rnd, d, k);
            && e.pos == Advance(d.pos, k, t.bitlen) && e.last == d.last + Elapsed(t, d.pos, k)
            && e.ns == Lasts(t, e.pos)
  {
    hide Cell, Lasts;
    if k > 0 {
      CellTimes(t, r, rnd, d, k - 1);
      CellTakes(t, r, rnd, Cells(t, r, rnd, d, k - 1));
    }
  }

  // ----- arming

  /** disk_dsklen_changed. */
  function DsklenChanged(d: Disk, len: nat): Disk
  {
    var dma := if d.dsklen >= 0x8000 && len >= 0x8000 && d.dma == 0 then 1
               else if len < 0x8000 && d.dma != 0 then 0 else d.dma;
    d.(dma := dma, dsklen := len)
  }

  /** The length is written, one value after the other. */
  function LengthsWritten(d: Disk, lens: seq<nat>): Disk
  {
    if lens == [] then d else DsklenChanged(LengthsWritten(d, lens[..|lens| - 1]), lens[|lens| - 1])
  }

  /** A disk without a transfer, whatever is left in its length register: after any
      writes to that register a transfer is armed if and only if the last two values
      it held have their top bit set.  So one write is enough behind a finished
      transfer, which leaves the bit set, and two in a row are needed otherwise. */
  lemma {:induction false} ArmedTwice(d: Disk, lens: seq<nat>)
    requires d.dma == 0 && lens != []
    ensures var n, e := |lens|, LengthsWritten(d, lens);
            var before := if n == 1 then d.dsklen else lens[n - 2];
            && e.dsklen == lens[n - 1]
            && e.dma == if before >= 0x8000 && lens[n - 1] >= 0x8000 then 1 else 0
  {
    var front := lens[..|lens| - 1];
    if front == [] {
      assert LengthsWritten(d, front) == d;
    } else {
      ArmedTwice(d, front);
    }
  }

  /** A transfer that is armed or running is called off by a length with its top bit
      clear, and no other write disturbs it. */
  lemma CalledOff(d: Disk, len: nat)
    requires d.dma != 0
    ensures DsklenChanged(d, len).dma == if len < 0x8000 then 0 else d.dma
  {
  }

  /** The last word of a transfer leaves the top bit of the length as it was. */
  lemma BitStaysSet(d: Disk, w: seq<bool>)
    requires Widths(d) && d.dma == 2 && Count(d) > 0 && |w| == 16
    ensures DmaWord(d, w).dsklen >= 0x8000 <==> d.dsklen >= 0x8000
  {
    OneLess(d.dsklen);
  }

  lemma OneLess(len: nat)
    requires len % 0x4000 > 0
    ensures len > 0 && (len - 1 >= 0x8000 <==> len >= 0x8000)
  {
  }

  // ----- the code

  class DataPath {
    const t: Trk
    const r: Regs
    const rnd: Random
    var last: nat
    var ns: nat
    var pos: nat
    var input: seq<bool>
    var word: seq<bool>
    var bitpos: nat
    var dskbytr: seq<bool>
    var dma: nat
    var dsklen: nat
    var dskpt: nat
    var written: seq<Write>
    var blockDone: bool
    var syncFound: bool
    var indexes: nat
    var drawn: nat

    ghost function View(): Disk
      reads this
    {
      Disk(last, ns, pos, input, word, bitpos, dskbytr, dma, dsklen, dskpt, written, blockDone, syncFound, indexes, drawn)
    }

    ghost predicate Valid()
      reads this
    {
      DiskOk(t, r, View())
    }

    /** track_load on a machine whose registers are clear. */
    constructor (t: Trk, r: Regs, rnd: Random, now: nat)
      requires TrkOk(t) && |r.dskSync| == 16
      ensures Valid() && this.t == t && this.r == r && this.rnd == rnd
      ensures last == now && pos == 0 && bitpos == 0 && dma == 0 && written == []
    {
      this.t, this.r, this.rnd := t, r, rnd;
      last, pos, word, bitpos, dskbytr := now, 0, Zeros(16), 0, Zeros(16);
      dma, dsklen, dskpt, written, blockDone, syncFound, indexes := 0, 0, 0, [], false, false, 0;
      ns, input, drawn := 1, Zeros(8), 0;
      new;
      TrackLoadByte();
    }

    /** track_load_byte. */
    method TrackLoadByte()
      requires TrkOk(t) && pos < t.bitlen && Widths(View())
      modifies this`ns, this`input, this`drawn
      ensures View() == LoadByte(t, rnd, old(View()))
    {
      var speed := t.speed[pos];
      ns := CellNs(t, pos);
      if speed == SPEED_WEAK {
        input := ByteBits(rnd(drawn));
        drawn := drawn + 1;
      } else {
        input := ByteBits(t.bits[pos / 8]);
      }
    }

    /** disk_dma_word. */
    method DiskDmaWord(w: seq<bool>)
      requires Widths(View())
      modifies this`written, this`dskpt, this`dsklen, this`dma, this`blockDone
      ensures View() == DmaWord(old(View()), w)
    {
      if dsklen % 0x4000 != 0 {
        written := written + [Write(dskpt, w)];
        dskpt := (dskpt + 2) % 0x1_0000_0000;
        dsklen := dsklen - 1;
      }
      if dsklen % 0x4000 == 0 {
        dma := 0;
        blockDone := true;
      }
    }

    /** The loop of data_cb up to the counters. */
    method ShiftIn()
      requires Valid()
      modifies this
      ensures View() == Shift(t, rnd, old(View()))
    {
      WidthsOf(t, r, View());
      hide LoadByte, Entered, View;
      EnterCell();
      ViewPos();
      if pos % 8 == 0 {
        TrackLoadByte();
      }
    }

    lemma ViewPos()
      ensures View().pos == pos
    {
    }

    method EnterCell()
      requires TrkOk(t) && pos < t.bitlen && ns > 0 && Widths(View())
      modifies this`last, this`word, this`input, this`pos, this`indexes, this`bitpos, this`dskbytr
      ensures View() == Entered(t, old(View()))
    {
      ShiftWord();
      MoveHead();
    }

    method ShiftWord()
      requires ns > 0 && Widths(View())
      modifies this`last, this`word, this`input, this`bitpos, this`dskbytr
      ensures View() == WordShifted(old(View()))
    {
      last := last + ns;
      word := word[1..] + [input[0]];
      input := input[1..] + [false];
      bitpos := bitpos + 1;
      dskbytr := dskbytr[3 := false];
    }

    method MoveHead()
      modifies this`pos, this`indexes
      ensures View() == HeadMoved(t, old(View()))
    {
      pos := pos + 1;
      if pos == t.bitlen {
        indexes := indexes + 1;
        pos := 0;
      }
    }

    /** The byte register, and a word for the transfer. */
    method ByteReady()
      requires Widths(View())
      modifies this`dskbytr, this`written, this`dskpt, this`dsklen, this`dma, this`blockDone
      ensures View() == ByteDue(old(View()))
    {
      hide DmaWord;
      if bitpos % 8 == 0 {
        dskbytr := [true] + dskbytr[1..8] + word[8..];
        if dma == 2 && bitpos % 16 == 0 {
          DiskDmaWord(word);
        }
      }
    }

    method CheckSync()
      requires Widths(View())
      modifies this`syncFound, this`dskbytr, this`bitpos, this`dma
      ensures View() == SyncCheck(r, old(View()))
    {
      if r.wordSync && word == r.dskSync {
        syncFound := true;
        dskbytr := dskbytr[3 := true];
        bitpos := 0;
        if r.dmaOn && dma == 1 {
          dma := 2;
        }
      }
    }

    /** data_cb; next is the time for which it asks to be called again. */
    method DataCb(now: nat) returns (next: nat)
      requires Valid()
      modifies this
      ensures Valid() && View() == Run(t, r, rnd, old(View()), now)
      ensures next == last + ns > now
    {
      hide Shift, ByteDue, SyncCheck;
      ghost var result := Run(t, r, rnd, View(), now);
      while last + ns <= now
        invariant Valid() && Run(t, r, rnd, View(), now) == result
        decreases now - last
      {
        ghost var d := View();
        ShiftIn();
        ByteReady();
        CheckSync();
        assert View() == Cell(t, r, rnd, d);
      }
      next := last + ns;
    }
  }
}
