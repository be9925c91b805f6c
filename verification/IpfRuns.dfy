/** What a format handler emits into an IPF image, run by run and block by block. */
module IpfRuns {
  import opened Bits
  import opened IpfFormat

  /** The calls a handler makes: one cell pair or raw cell, weak cells, a gap, and
      the end of the track. */
  datatype Event = Cell(raw: bool, b: bool) | Weak(n: nat) | Gap(n: nat) | TrackEnd

  // ----- runs, by themselves

  function KindOf(raw: bool): nat
  {
    if raw then CHK_SYNC else CHK_DATA
  }

  /** The runs so far, and whether the last one may still grow. */
  datatype Runs = Runs(list: seq<Chunk>, growing: bool)

  function AddEvent(r: Runs, e: Event): Runs
  {
    match e
    case Cell(raw, b) =>
      if r.growing && r.list != [] && r.list[|r.list| - 1].code == KindOf(raw) then
        var last := r.list[|r.list| - 1];
        Runs(r.list[..|r.list| - 1] + [Chunk(last.code, last.count + 1, last.bits + [b])], true)
      else Runs(r.list + [Chunk(KindOf(raw), 1, [b])], true)
    case Weak(n) => Runs(if n > 0 then r.list + [Chunk(CHK_FLAKY, n, [])] else r.list, false)
    case Gap(_) => Runs(r.list, false)
    case TrackEnd => Runs(r.list, false)
  }

  /** The maximal runs of sync and data cells and the weak stretches, in order. */
  function RunsOf(es: seq<Event>): Runs
  {
    if es == [] then Runs([], false) else AddEvent(RunsOf(es[..|es| - 1]), es[|es| - 1])
  }

  /** How many cells an event stands for. */
  function CellsOf(e: Event): nat
  {
    match e
    case Cell(raw, _) => if raw then 1 else 2
    case Weak(n) => 2 * n
    case Gap(_) => 0
    case TrackEnd => 0
  }

  function CellSum(es: seq<Event>): nat
  {
    if es == [] then 0 else CellSum(es[..|es| - 1]) + CellsOf(es[|es| - 1])
  }

  // ----- what the writer keeps

  datatype Block = Block(chunks: seq<Chunk>, cells: nat, gap: nat)

  /** Closed blocks; the closed chunks of the current block; the open chunk; the
      cells of the current block; sync marks since the last gap; the gap noted
      for the current block. */
  datatype State = State(blocks: seq<Block>, cur: seq<Chunk>, open: Chunk, cells: nat, syncs: nat, gap: nat)

  function Initial(): State
  {
    State([], [], Chunk(CHK_GAP, 0, []), 0, 0, 0)
  }

  /** ipf_tbuf_finish_chunk.  An empty chunk leaves no trace, and no block ends
      behind it. */
  function Finish(s: State, next: nat, nosplit: bool): State
  {
    var open := Chunk(next, 0, []);
    if s.open.count == 0 then s.(open := open)
    else
      var cur := s.cur + [s.open];
      var ends := next == CHK_END || (next == CHK_SYNC && s.syncs > 0 && !nosplit);
      var syncs := if next == CHK_SYNC then s.syncs + 1 else s.syncs;
      if ends then State(s.blocks + [Block(cur, s.cells, s.gap)], [], open, 0, syncs, 0)
      else State(s.blocks, cur, open, s.cells, syncs, s.gap)
  }

  function Next(s: State, e: Event, nosplit: bool): State
  {
    match e
    case Cell(raw, b) =>
      var t := if s.open.code != KindOf(raw) then Finish(s, KindOf(raw), nosplit) else s;
      t.(open := Chunk(t.open.code, t.open.count + 1, t.open.bits + [b]), cells := t.cells + CellsOf(e))
    case Weak(n) =>
      var t := Finish(s, CHK_FLAKY, nosplit);
      t.(open := Chunk(CHK_FLAKY, n, []), cells := t.cells + CellsOf(e))
    case Gap(n) => Finish(s.(gap := 2 * n, syncs := 0), CHK_END, nosplit)
    case TrackEnd => Finish(s, CHK_END, nosplit)
  }

  function Written(es: seq<Event>, nosplit: bool): State
  {
    if es == [] then Initial() else Next(Written(es[..|es| - 1], nosplit), es[|es| - 1], nosplit)
  }

  // ----- the blocks hold exactly the runs

  function Chunks(bs: seq<Block>): seq<Chunk>
  {
    if bs == [] then [] else Chunks(bs[..|bs| - 1]) + bs[|bs| - 1].chunks
  }

  function BlockCells(bs: seq<Block>): nat
  {
    if bs == [] then 0 else BlockCells(bs[..|bs| - 1]) + bs[|bs| - 1].cells
  }

  /** All chunks so far, the open one too unless it is empty. */
  function AllChunks(s: State): seq<Chunk>
  {
    Chunks(s.blocks) + s.cur + (if s.open.count > 0 then [s.open] else [])
  }

  predicate OpenOk(c: Chunk)
  {
    && (c.code == CHK_SYNC || c.code == CHK_DATA || c.code == CHK_FLAKY || (c.count == 0 && (c.code == CHK_GAP || c.code == CHK_END)))
    && |c.bits| == if c.code == CHK_FLAKY then 0 else c.count
  }

  /** The writer has recorded the runs so far, and knows whether the last one may
      still grow: its open chunk is that run. */
  ghost predicate Records(s: State, r: Runs)
  {
    && OpenOk(s.open)
    && AllChunks(s) == r.list
    && (r.growing <==> s.open.count > 0 && s.open.code != CHK_FLAKY)
    && (s.open.count == 0 ==> s.open.code != CHK_SYNC && s.open.code != CHK_DATA)
  }

  lemma FinishKeepsChunks(s: State, next: nat, nosplit: bool)
    ensures AllChunks(Finish(s, next, nosplit)) == AllChunks(s)
    ensures BlockCells(Finish(s, next, nosplit).blocks) + Finish(s, next, nosplit).cells == BlockCells(s.blocks) + s.cells
  {
    var t := Finish(s, next, nosplit);
    if |t.blocks| > |s.blocks| {
      assert t.blocks[..|t.blocks| - 1] == s.blocks;
    }
  }

  lemma {:induction false} WritesRuns(es: seq<Event>, nosplit: bool)
    ensures Records(Written(es, nosplit), RunsOf(es))
    ensures BlockCells(Written(es, nosplit).blocks) + Written(es, nosplit).cells == CellSum(es)
  {
    if es != [] {
      var front, e := es[..|es| - 1], es[|es| - 1];
      WritesRuns(front, nosplit);
      NextRecords(Written(front, nosplit), RunsOf(front), e, nosplit);
    }
  }

  lemma NextRecords(s: State, r: Runs, e: Event, nosplit: bool)
    requires Records(s, r)
    ensures Records(Next(s, e, nosplit), AddEvent(r, e))
    ensures BlockCells(Next(s, e, nosplit).blocks) + Next(s, e, nosplit).cells
         == BlockCells(s.blocks) + s.cells + CellsOf(e)
  {
    hide Chunks;
    match e {
      case Cell(raw, b) =>
        if s.open.code != KindOf(raw) {
          NewRun(s, r, raw, b, nosplit);
        } else {
          GrowRun(s, r, raw, b, nosplit);
        }
      case Weak(n) => FinishKeepsChunks(s, CHK_FLAKY, nosplit);
      case Gap(n) => FinishKeepsChunks(s.(gap := 2 * n, syncs := 0), CHK_END, nosplit);
      case TrackEnd => FinishKeepsChunks(s, CHK_END, nosplit);
    }
  }

  lemma NewRun(s: State, r: Runs, raw: bool, b: bool, nosplit: bool)
    requires Records(s, r) && s.open.code != KindOf(raw)
    ensures var e := Cell(raw, b);
            && Records(Next(s, e, nosplit), AddEvent(r, e))
            && BlockCells(Next(s, e, nosplit).blocks) + Next(s, e, nosplit).cells
               == BlockCells(s.blocks) + s.cells + CellsOf(e)
  {
    hide Chunks, BlockCells;
    var t := Finish(s, KindOf(raw), nosplit);
    FinishKeepsChunks(s, KindOf(raw), nosplit);
    assert t.open == Chunk(KindOf(raw), 0, []);
    assert AllChunks(t) == Chunks(t.blocks) + t.cur + [];
    assert r.list == Chunks(t.blocks) + t.cur;
    if r.growing {
      assert r.list[|r.list| - 1] == s.open by {
        assert AllChunks(s) == Chunks(s.blocks) + s.cur + [s.open];
      }
    }
    var u := Next(s, Cell(raw, b), nosplit);
    assert u == t.(open := Chunk(t.open.code, t.open.count + 1, t.open.bits + [b]), cells := t.cells + CellsOf(Cell(raw, b)));
    assert t.open.bits + [b] == [b];
    assert AllChunks(u) == r.list + [Chunk(KindOf(raw), 1, [b])];
  }

  lemma GrowRun(s: State, r: Runs, raw: bool, b: bool, nosplit: bool)
    requires Records(s, r) && s.open.code == KindOf(raw)
    ensures var e := Cell(raw, b);
            && Records(Next(s, e, nosplit), AddEvent(r, e))
            && BlockCells(Next(s, e, nosplit).blocks) + Next(s, e, nosplit).cells
               == BlockCells(s.blocks) + s.cells + CellsOf(e)
  {
    hide Chunks, BlockCells;
    var before := Chunks(s.blocks) + s.cur;
    assert r.list == before + [s.open] && r.list[..|r.list| - 1] == before;
    assert r.list[|r.list| - 1] == s.open;
  }

  // ----- when the blocks hold everything

  /** An event that leaves cells behind. */
  predicate Content(e: Event)
  {
    e.Cell? || (e.Weak? && e.n > 0)
  }

  /** Everything is followed by a gap or an end: directly behind the last content comes
      a gap or the end of the track, whatever empty events follow. */
  predicate Ended(es: seq<Event>)
  {
    if es == [] then true
    else
      var front, e := es[..|es| - 1], es[|es| - 1];
      !Content(e) && (Ended(front) || ((e.Gap? || e.TrackEnd?) && front != [] && Content(front[|front| - 1])))
  }

  /** Nothing is open, in the chunk or in the block. */
  predicate AllClosed(s: State)
  {
    s.cur == [] && s.open.count == 0
  }

  lemma {:induction false} ClosedIffEnded(es: seq<Event>, nosplit: bool)
    ensures var s := Written(es, nosplit);
            && (AllClosed(s) <==> Ended(es)) && (AllClosed(s) ==> s.cells == 0)
            && (s.open.count > 0 <==> es != [] && Content(es[|es| - 1]))
  {
    if es != [] {
      var front, e := es[..|es| - 1], es[|es| - 1];
      ClosedIffEnded(front, nosplit);
      assert Written(es, nosplit) == Next(Written(front, nosplit), e, nosplit);
    }
  }

  /** The closing of a block by the end of the track: it happens exactly if the event
      before it left cells behind, and otherwise nothing changes. */
  lemma EndClosesBlock(es: seq<Event>, nosplit: bool)
    ensures var s, t := Written(es, nosplit), Written(es + [TrackEnd], nosplit);
            && (|t.blocks| == |s.blocks| + 1 <==> es != [] && Content(es[|es| - 1]))
            && (t.blocks == s.blocks <==> es == [] || !Content(es[|es| - 1]))
  {
    hide Written;
    ClosedIffEnded(es, nosplit);
    Appended(es, TrackEnd, nosplit);
  }

  /** The blocks together hold exactly the runs, no more and no less, if and only if
      the events are ended; and then their sizes add up to the cells emitted. */
  lemma BlocksExact(es: seq<Event>, nosplit: bool)
    ensures var s := Written(es, nosplit);
            && (Chunks(s.blocks) == RunsOf(es).list <==> Ended(es))
            && (Ended(es) ==> BlockCells(s.blocks) == CellSum(es))
  {
    hide Written, Chunks, RunsOf, CellSum, BlockCells, Ended;
    WritesRuns(es, nosplit);
    ClosedIffEnded(es, nosplit);
    var s := Written(es, nosplit);
    var tail := s.cur + (if s.open.count > 0 then [s.open] else []);
    assert AllChunks(s) == Chunks(s.blocks) + tail;
    assert tail == [] ==> Chunks(s.blocks) + tail == Chunks(s.blocks);
  }

  /** The interface does not rule out an empty weak stretch: before the end of the
      track it loses the last block, whose chunks are written with no block ending
      behind them. */
  lemma EmptyWeakLosesBlock(raw: bool, b: bool, nosplit: bool)
    ensures var es := [Cell(raw, b), Weak(0), TrackEnd];
            && !Ended(es)
            && Written(es, nosplit).blocks == [] && Written(es, nosplit).cur == [Chunk(KindOf(raw), 1, [b])]
  {
    var e1, e2, e3 := Cell(raw, b), Weak(0), TrackEnd;
    var c, n := Chunk(KindOf(raw), 1, [b]), CellsOf(e1);
    assert Written([], nosplit) == Initial();
    Appended([], e1, nosplit);
    Appended([e1], e2, nosplit);
    Appended([e1, e2], e3, nosplit);
    assert [] + [e1] == [e1] && [e1] + [e2] == [e1, e2] && [e1, e2] + [e3] == [e1, e2, e3];
    hide Written;
    assert Written([e1], nosplit) == State([], [], c, n, 0, 0) by {
      assert Chunk(KindOf(raw), 0, []).bits + [b] == [b];
    }
    assert Written([e1, e2], nosplit) == State([], [] + [c], Chunk(CHK_FLAKY, 0, []), n, 0, 0);
    assert [] + [c] == [c];
    ClosedIffEnded([e1, e2, e3], nosplit);
  }

  /** A whole track: content, directly behind its last event a gap or the end, and then
      any events that leave nothing behind. */
  lemma {:induction false} WholeTrack(es: seq<Event>, closers: seq<Event>, nosplit: bool)
    requires es == [] || Content(es[|es| - 1])
    requires closers != [] && (closers[0].Gap? || closers[0].TrackEnd?)
    requires forall i | 0 <= i < |closers| :: !Content(closers[i])
    ensures Ended(es + closers)
    ensures var s := Written(es + closers, nosplit);
            Chunks(s.blocks) == RunsOf(es + closers).list && BlockCells(s.blocks) == CellSum(es + closers)
  {
    hide Written, Chunks, RunsOf, CellSum, BlockCells;
    var all, n := es + closers, |closers| - 1;
    assert all[..|all| - 1] == es + closers[..n];
    if n == 0 {
      assert es + closers[..0] == es;
      assert es == [] ==> Ended(es);
    } else {
      WholeTrack(es, closers[..n], nosplit);
    }
    BlocksExact(all, nosplit);
  }

  lemma Appended(es: seq<Event>, e: Event, nosplit: bool)
    ensures Written(es + [e], nosplit) == Next(Written(es, nosplit), e, nosplit)
  {
    assert (es + [e])[..|es|] == es;
  }
}
