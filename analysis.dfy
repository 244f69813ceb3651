/** One decision of the auto-player (`analyze_and_select_move`,
    game_logic.py:243-279): find the removable groups, pick the largest and
    plan the drag that traces it. */
module Analysis {
  import opened Config
  import opened Board
  import opened GroupFinder
  import opened MoveSelector
  import opened PathPlanner

  /** The pair `analyze_and_select_move` returns: `(None, None)` when nothing
      can be removed, otherwise the chosen group and its drag path. */
  datatype Decision = NoMove | Move(group: seq<Cell>, path: seq<Cell>)

  /** No connected group of the board reaches the removal threshold. */
  ghost predicate NothingRemovable(board: Grid)
    requires WellFormed(board)
  {
    forall h :: IsComponent(board, h) ==> |h| < MinGroupSize
  }

  /** `g` is a whole connected group, removable, and no group of the board is larger. */
  ghost predicate LargestRemovable(board: Grid, g: seq<Cell>)
    requires WellFormed(board)
  {
    IsComponent(board, g) && |g| >= MinGroupSize && forall h :: IsComponent(board, h) ==> |h| <= |g|
  }

  /** `p` is the drag path planned for `g`: it starts at the group's start
      point, stays inside the group, repeats no cell and passes the path check. */
  ghost predicate PlannedFor(g: seq<Cell>, p: seq<Cell>) {
    && |g| > 0 && p == DragPath(g)
    && |p| > 0 && p[0] == StartPoint(g)
    && (forall i :: 0 <= i < |p| ==> p[i] in g)
    && Distinct(p) && ValidPath(p)
  }

  /** The largest listed group is at least as large as every component of
      the board: a component too small to be listed is smaller than any listed
      group, and a listed one has its own size. */
  lemma LargestOverAll(board: Grid, cs: seq<seq<Cell>>, i: int, h: seq<Cell>)
    requires WellFormed(board) && Partition(board, cs) && InScanOrder(cs)
    requires 0 <= i < |Eligible(cs)|
    requires forall j :: 0 <= j < |Eligible(cs)| ==> |Eligible(cs)[j]| <= |Eligible(cs)[i]|
    requires IsComponent(board, h)
    ensures |h| <= |Eligible(cs)[i]|
  {
    GroupsAreComponents(board, cs);
    if |h| >= MinGroupSize {
      GroupsComplete(board, cs, h);
      var k :| 0 <= k < |Eligible(cs)| && Elems(Eligible(cs)[k]) == Elems(h);
      DistinctCard(h);
      DistinctCard(Eligible(cs)[k]);
    }
  }

  /** Selection over the listed groups of a scan: nothing is listed exactly
      when nothing is removable, and otherwise the selected group is a largest
      removable group of the whole board. */
  lemma SelectionOverBoard(board: Grid, cs: seq<seq<Cell>>)
    requires WellFormed(board) && Partition(board, cs) && InScanOrder(cs)
    ensures Eligible(cs) == [] <==> NothingRemovable(board)
    ensures Eligible(cs) != [] ==> LargestRemovable(board, SelectBestMove(Eligible(cs)).value)
  {
    var gs := Eligible(cs);
    GroupsAreComponents(board, cs);
    if gs == [] {
      forall h | IsComponent(board, h) ensures |h| < MinGroupSize {
        if |h| >= MinGroupSize {
          GroupsComplete(board, cs, h);
        }
      }
    } else {
      var i := LongestIndex(gs);
      forall h | IsComponent(board, h) ensures |h| <= |gs[i]| {
        LargestOverAll(board, cs, i, h);
      }
      assert IsComponent(board, gs[0]) && |gs[0]| >= MinGroupSize;
    }
  }

  /** A group of more than one cell gets a drag path with the properties above. */
  lemma PlannedPath(g: seq<Cell>)
    requires |g| > 1
    ensures PlannedFor(g, DragPath(g))
  {
    DragPathProperties(g);
  }

  /** The decision as a function of the board alone: the scan's lists of at
      least `MinGroupSize` cells, the selection over them, and the drag path
      for the selected group. */
  ghost function Decide(board: Grid): (r: Decision)
    requires WellFormed(board)
    // no move exactly when the scan keeps no list
    ensures r.NoMove? <==> Eligible(ScanAll(board)) == []
    // otherwise a kept list no shorter than any other kept list, with its drag path
    ensures r.Move? ==>
              && r.group in Eligible(ScanAll(board)) && r.path == DragPath(r.group)
              && forall h :: h in Eligible(ScanAll(board)) ==> |h| <= |r.group|
  {
    match SelectBestMove(Eligible(ScanAll(board)))
    case None => NoMove
    case Some(g) => Move(g, DragPath(g))
  }

  /** `analyze_and_select_move`. There is no move exactly when no connected
      group reaches `MinGroupSize`; otherwise the move is the earliest (in scan
      order) of the largest listed groups, which is a largest removable group
      of the whole board, together with the drag path planned for it. Both
      are fixed by the board: the decision is `Decide(board)`. */
  method AnalyzeAndSelectMove(board: Grid) returns (r: Decision, ghost components: seq<seq<Cell>>)
    requires WellFormed(board)
    ensures Partition(board, components) && InScanOrder(components)
    ensures components == ScanAll(board) && r == Decide(board)
    ensures r.NoMove? <==> NothingRemovable(board)
    ensures r.Move? ==>
              && SelectBestMove(Eligible(components)) == Some(r.group)
              && LargestRemovable(board, r.group)
              && PlannedFor(r.group, r.path)
  {
    var groups;
    groups, components := FindAllGroups(board);
    SelectionOverBoard(board, components);
    if groups == [] {
      return NoMove, components;
    }
    var best := SelectBestMove(groups).value;
    var path := CalculateDragPath(best);
    PlannedPath(best);
    r := Move(best, path);
  }
}
