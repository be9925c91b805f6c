/** Where the blocks of an IPF track end, and what each of them holds. */
module IpfBlocks {
  import opened Bits
  import opened IpfFormat
  import opened IpfRuns

  /** The last event begins a run of sync cells directly behind other content. */
  predicate SyncStart(es: seq<Event>)
  {
    var n := |es|;
    n >= 2 && es[n - 1].Cell? && es[n - 1].raw && Content(es[n - 2]) && !(es[n - 2].Cell? && es[n - 2].raw)
  }

  /** How many sync runs have begun that way since the last gap. */
  function SyncsSinceGap(es: seq<Event>): nat
  {
    if es == [] then 0
    else if es[|es| - 1].Gap? then 0
    else SyncsSinceGap(es[..|es| - 1]) + (if SyncStart(es) then 1 else 0)
  }

  /** The last event ends a block: a gap or the end of the track directly behind
      content, or the start of a sync run that is not the first since the last gap. */
  predicate Ends(es: seq<Event>, nosplit: bool)
  {
    var n := |es|;
    && n >= 2 && Content(es[n - 2])
    && (es[n - 1].Gap? || es[n - 1].TrackEnd? || (SyncStart(es) && SyncsSinceGap(es[..n - 1]) > 0 && !nosplit))
  }

  /** What the writer knows of the last event. */
  ghost predicate Knows(s: State, es: seq<Event>)
  {
    && s.syncs == SyncsSinceGap(es)
    && (s.open.count > 0 <==> es != [] && Content(es[|es| - 1]))
    && (s.open.code == CHK_SYNC <==> es != [] && es[|es| - 1].Cell? && es[|es| - 1].raw)
  }

  lemma {:induction false} KnowsLast(es: seq<Event>, nosplit: bool)
    ensures Knows(Written(es, nosplit), es)
  {
    if es != [] {
      var front, e := es[..|es| - 1], es[|es| - 1];
      KnowsLast(front, nosplit);
      ClosedIffEnded(es, nosplit);
      assert front != [] ==> front[|front| - 1] == es[|es| - 2];
    }
  }

  /** The events that belong to the current block; one that begins a sync run belongs
      to the block behind the one it ends. */
  function Current(es: seq<Event>, nosplit: bool): seq<Event>
  {
    if es == [] then []
    else
      var e := es[|es| - 1];
      if !Ends(es, nosplit) then Current(es[..|es| - 1], nosplit) + [e]
      else if e.Cell? then [e]
      else []
  }

  /** The last gap among the events, in cells. */
  function GapNoted(es: seq<Event>): nat
  {
    if es == [] then 0
    else if es[|es| - 1].Gap? then es[|es| - 1].n + es[|es| - 1].n
    else GapNoted(es[..|es| - 1])
  }

  /** What the writer keeps of the current block. */
  function Alone(s: State): State
  {
    s.(blocks := [])
  }

  /** Whether a block is closed does not depend on those before it. */
  lemma NextAlone(s: State, e: Event, nosplit: bool)
    ensures |Next(s, e, nosplit).blocks| >= |s.blocks| && Next(s, e, nosplit).blocks[..|s.blocks|] == s.blocks
    ensures Next(s, e, nosplit).blocks == s.blocks ==> Alone(Next(s, e, nosplit)) == Next(Alone(s), e, nosplit)
  {
    assert Next(s, e, nosplit).blocks[..|s.blocks|] == s.blocks;
  }

  /** An event closes a block exactly if it ends one. */
  lemma ClosesIffEnds(es: seq<Event>, nosplit: bool)
    requires es != []
    ensures var s, t := Written(es[..|es| - 1], nosplit), Written(es, nosplit);
            var e := es[|es| - 1];
            if Ends(es, nosplit) then
              && t.blocks == s.blocks + [Block(s.cur + [s.open], s.cells, if e.Gap? then 2 * e.n else s.gap)]
              && t.cur == [] && t.gap == 0 && t.cells == (if e.Cell? then 1 else 0)
              && (if e.Cell? then t.open == Chunk(CHK_SYNC, 1, [e.b]) else t.open == Chunk(CHK_END, 0, []))
            else t.blocks == s.blocks
  {
    KnowsLast(es[..|es| - 1], nosplit);
  }

  /** The current block holds the runs of its own events, their cells and their gap. */
  lemma {:induction false} CurrentHolds(es: seq<Event>, nosplit: bool)
    ensures var s, own := Written(es, nosplit), Current(es, nosplit);
            Records(Alone(s), RunsOf(own)) && s.cells == CellSum(own) && s.gap == GapNoted(own)
  {
    if es == [] {
      assert Written([], nosplit) == Initial();
    } else {
      hide Next, Records, Ends, RunsOf, CellSum, GapNoted, Alone;
      var front, e := es[..|es| - 1], es[|es| - 1];
      CurrentHolds(front, nosplit);
      ClosesIffEnds(es, nosplit);
      var s, own := Written(front, nosplit), Current(front, nosplit);
      if Ends(es, nosplit) {
        EndsCell(es, nosplit);
        Afresh(Written(es, nosplit), e);
      } else {
        NextAlone(s, e, nosplit);
        NextRecords(Alone(s), RunsOf(own), e, nosplit);
        OwnMore(own, e);
        GapKept(s, e, nosplit);
      }
    }
  }

  lemma EndsCell(es: seq<Event>, nosplit: bool)
    requires Ends(es, nosplit)
    ensures var e := es[|es| - 1]; !e.Weak? && (e.Cell? ==> e.raw)
  {
  }

  lemma OwnMore(own: seq<Event>, e: Event)
    ensures RunsOf(own + [e]) == AddEvent(RunsOf(own), e) && CellSum(own + [e]) == CellSum(own) + CellsOf(e)
    ensures GapNoted(own + [e]) == if e.Gap? then 2 * e.n else GapNoted(own)
  {
    hide AddEvent;
    assert (own + [e])[..|own|] == own;
  }

  lemma GapKept(s: State, e: Event, nosplit: bool)
    requires Next(s, e, nosplit).blocks == s.blocks
    ensures Next(s, e, nosplit).gap == if e.Gap? then 2 * e.n else s.gap
    ensures Next(s, e, nosplit).cells == s.cells + CellsOf(e)
  {
  }

  /** The state behind the end of a block. */
  lemma Afresh(t: State, e: Event)
    requires t.cur == [] && t.gap == 0 && !e.Weak?
    requires t.cells == (if e.Cell? then 1 else 0) && (e.Cell? ==> e.raw)
    requires if e.Cell? then t.open == Chunk(CHK_SYNC, 1, [e.b]) else t.open == Chunk(CHK_END, 0, [])
    ensures var own := if e.Cell? then [e] else [];
            Records(Alone(t), RunsOf(own)) && t.cells == CellSum(own) && t.gap == GapNoted(own)
  {
    if e.Cell? {
      assert [e][..0] == [];
      assert RunsOf([]) == Runs([], false);
    }
  }

  /** Where the blocks end and what they hold.  A block is closed exactly by the events
      that end one, and holds the runs of the events since the block before, all their
      cells, and twice the gap in data bits. */
  lemma BlockHolds(es: seq<Event>, nosplit: bool)
    requires es != []
    ensures var s, t := Written(es[..|es| - 1], nosplit), Written(es, nosplit);
            var own, e := Current(es[..|es| - 1], nosplit), es[|es| - 1];
            if Ends(es, nosplit) then
              var gap := if e.Gap? then e.n + e.n else GapNoted(own);
              t.blocks == s.blocks + [Block(RunsOf(own).list, CellSum(own), gap)]
            else t.blocks == s.blocks
  {
    hide RunsOf, CellSum, GapNoted, Written;
    var front := es[..|es| - 1];
    ClosesIffEnds(es, nosplit);
    CurrentHolds(front, nosplit);
    KnowsLast(front, nosplit);
    var s := Written(front, nosplit);
    if Ends(es, nosplit) {
      assert front[|front| - 1] == es[|es| - 2];
      assert AllChunks(Alone(s)) == s.cur + [s.open];
    }
  }

  /** Sync cells are emitted as they are; a data bit, weak or not, takes two. */
  function ListCells(cs: seq<Chunk>): nat
  {
    if cs == [] then 0
    else
      var c := cs[|cs| - 1];
      ListCells(cs[..|cs| - 1]) + (if c.code == CHK_SYNC then c.count else 2 * c.count)
  }

  lemma ListCellsMore(cs: seq<Chunk>, c: Chunk)
    ensures ListCells(cs + [c]) == ListCells(cs) + (if c.code == CHK_SYNC then c.count else 2 * c.count)
  {
    assert (cs + [c])[..|cs|] == cs;
  }

  lemma {:induction false} RunsCells(es: seq<Event>)
    ensures ListCells(RunsOf(es).list) == CellSum(es)
  {
    hide ListCells;
    if es == [] {
      NoCells();
    } else {
      var r, e := RunsOf(es[..|es| - 1]), es[|es| - 1];
      RunsCells(es[..|es| - 1]);
      match e {
        case Cell(raw, b) =>
          if r.growing && r.list != [] && r.list[|r.list| - 1].code == KindOf(raw) {
            var front, last := r.list[..|r.list| - 1], r.list[|r.list| - 1];
            assert r.list == front + [last];
            ListCellsMore(front, last);
            ListCellsMore(front, Chunk(last.code, last.count + 1, last.bits + [b]));
          } else {
            ListCellsMore(r.list, Chunk(KindOf(raw), 1, [b]));
          }
        case Weak(n) => ListCellsMore(r.list, Chunk(CHK_FLAKY, n, []));
        case Gap(_) =>
        case TrackEnd =>
      }
    }
  }

  lemma NoCells()
    ensures ListCells([]) == 0
  {
  }

  /** The size of every block is that of its chunks. */
  lemma {:induction false} BlocksSized(es: seq<Event>, nosplit: bool)
    ensures forall i | 0 <= i < |Written(es, nosplit).blocks| ::
              Written(es, nosplit).blocks[i].cells == ListCells(Written(es, nosplit).blocks[i].chunks)
  {
    if es == [] {
      assert Written(es, nosplit) == Initial();
    } else {
      hide *;
      BlocksSized(es[..|es| - 1], nosplit);
      BlockHolds(es, nosplit);
      RunsCells(Current(es[..|es| - 1], nosplit));
    }
  }

  /** A sync run at the very start of a track is not counted: the next one does not
      begin a block of its own, and the block holds both. */
  lemma LeadingSyncStays(a: bool, b: bool, c: bool)
    ensures var es := [Cell(true, a), Cell(false, b), Cell(true, c)];
            !Ends(es, false) && Written(es, false).blocks == []
            && RunsOf(Current(es, false)).list
               == [Chunk(CHK_SYNC, 1, [a]), Chunk(CHK_DATA, 1, [b]), Chunk(CHK_SYNC, 1, [c])]
  {
    var e1, e2, e3 := Cell(true, a), Cell(false, b), Cell(true, c);
    NothingEnds(e1, e2, e3);
    ThreeRuns(a, b, c);
    hide *;
    Fronts(e1, e2, e3);
    NoBlocks();
    BlockHolds([e1], false);
    BlockHolds([e1, e2], false);
    BlockHolds([e1, e2, e3], false);
  }

  lemma Fronts(e1: Event, e2: Event, e3: Event)
    ensures [e1, e2, e3][..2] == [e1, e2] && [e1, e2][..1] == [e1] && [e1][..0] == []
  {
  }

  lemma NoBlocks()
    ensures Written([], false).blocks == []
  {
  }

  lemma NothingEnds(e1: Event, e2: Event, e3: Event)
    requires e1.Cell? && e1.raw && e2.Cell? && !e2.raw && e3.Cell? && e3.raw
    ensures !Ends([e1], false) && !Ends([e1, e2], false) && !Ends([e1, e2, e3], false)
    ensures Current([e1, e2, e3], false) == [e1, e2, e3]
  {
    Fronts(e1, e2, e3);
    assert SyncsSinceGap([]) == 0;
    assert !SyncStart([e1]) && SyncsSinceGap([e1]) == 0;
    assert !SyncStart([e1, e2]) && SyncsSinceGap([e1, e2]) == 0;
    assert Current([], false) == [] && Current([e1], false) == [] + [e1] == [e1];
    assert Current([e1, e2], false) == [e1] + [e2] == [e1, e2];
    assert Current([e1, e2, e3], false) == [e1, e2] + [e3] == [e1, e2, e3];
  }

  lemma ThreeRuns(a: bool, b: bool, c: bool)
    ensures RunsOf([Cell(true, a), Cell(false, b), Cell(true, c)]).list
         == [Chunk(CHK_SYNC, 1, [a]), Chunk(CHK_DATA, 1, [b]), Chunk(CHK_SYNC, 1, [c])]
  {
    var e1, e2, e3 := Cell(true, a), Cell(false, b), Cell(true, c);
    Fronts(e1, e2, e3);
    assert RunsOf([]) == Runs([], false);
    assert RunsOf([e1]).list == [Chunk(CHK_SYNC, 1, [a])];
    assert RunsOf([e1, e2]).list == [Chunk(CHK_SYNC, 1, [a]), Chunk(CHK_DATA, 1, [b])];
  }
}
