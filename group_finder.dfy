/** Group finding: breadth-first flood fill over the 8-neighbourhood and the
    row-major scan that collects every removable group (game_logic.py:31-132). */
module GroupFinder {
  import opened Config
  import opened Board

  /** All cells lie on the board and share one colour label. */
  ghost predicate Monochrome(board: Grid, g: seq<Cell>)
    requires WellFormed(board)
  {
    && (forall i :: 0 <= i < |g| ==> InBounds(g[i]))
    && (|g| > 0 ==>
          IsColour(At(board, g[0])) && forall i :: 0 <= i < |g| ==> At(board, g[i]) == At(board, g[0]))
  }

  /** Every cell after the first is 8-adjacent to an earlier one, so the whole
      list is reachable from its first cell by adjacent steps inside the list. */
  ghost predicate Connected(g: seq<Cell>) {
    forall i :: 0 < i < |g| ==> exists j :: 0 <= j < i && Adjacent(g[j], g[i])
  }

  /** No on-board neighbour of a cell of `g` with that cell's label lies outside `g`. */
  ghost predicate Closed(board: Grid, g: seq<Cell>)
    requires WellFormed(board)
  {
    forall i, d ::
      (0 <= i < |g| && 0 <= d < |Directions| && InBounds(g[i]) && InBounds(Step(g[i], d))
       && At(board, Step(g[i], d)) == At(board, g[i])) ==> Step(g[i], d) in g
  }

  /** A maximal 8-connected set of same-coloured cells, listed without repetition. */
  ghost predicate IsComponent(board: Grid, g: seq<Cell>)
    requires WellFormed(board)
  {
    |g| > 0 && Monochrome(board, g) && Distinct(g) && Connected(g) && Closed(board, g)
  }

  /** The neighbours of `cell` along the first `k` directions that
      `find_connected_group` queues, in direction order: on the board, not in
      `marked` and labelled `target`. */
  ghost function FreshUpTo(board: Grid, target: Label, cell: Cell, marked: set<Cell>, k: int): (r: seq<Cell>)
    requires WellFormed(board) && 0 <= k <= |Directions|
    ensures forall i :: 0 <= i < |r| ==> InBounds(r[i]) && At(board, r[i]) == target && r[i] !in marked
  {
    if k == 0 then []
    else
      var n := Step(cell, k - 1);
      FreshUpTo(board, target, cell, marked, k - 1)
        + (if InBounds(n) && n !in marked && At(board, n) == target then [n] else [])
  }

  /** The cells queued when `cell` is expanded with `marked` visited. */
  ghost function Fresh(board: Grid, target: Label, cell: Cell, marked: set<Cell>): seq<Cell>
    requires WellFormed(board)
  {
    FreshUpTo(board, target, cell, marked, |Directions|)
  }

  /** A direction not yet tried has not contributed its cell. */
  lemma {:induction false} FreshUpToAvoids(board: Grid, target: Label, cell: Cell, marked: set<Cell>, k: int, e: int)
    requires WellFormed(board) && 0 <= k <= e < |Directions|
    ensures Step(cell, e) !in FreshUpTo(board, target, cell, marked, k)
  {
    if k > 0 {
      FreshUpToAvoids(board, target, cell, marked, k - 1, e);
      if Step(cell, k - 1) == Step(cell, e) {
        StepInjective(cell, k - 1, e);
      }
    }
  }

  /** The `for dx, dy in DIRECTIONS` loop of `find_connected_group`: queues, in
      direction order, every on-board unvisited neighbour of `cell` labelled
      `target`, marking each visited as it is queued. `marked` is the set of
      visited cells on entry. */
  method QueueNeighbours(board: Grid, target: Label, cell: Cell, visited: array2<bool>,
                         ghost marked: set<Cell>)
    returns (added: seq<Cell>)
    requires WellFormed(board) && InBounds(cell)
    requires visited.Length0 == GridRows && visited.Length1 == GridCols
    requires forall r, c :: IsValidPosition(r, c) ==> (visited[r, c] <==> Cell(r, c) in marked)
    modifies visited
    // the cells queued, in direction order
    ensures added == Fresh(board, target, cell, marked)
    // exactly the queued cells become visited
    ensures forall r, c :: IsValidPosition(r, c) ==>
              (visited[r, c] <==> Cell(r, c) in marked + Elems(added))
  {
    added := [];
    // the cells visited now
    ghost var now := marked;
    for k := 0 to |Directions|
      invariant added == FreshUpTo(board, target, cell, marked, k)
      invariant now == marked + Elems(added)
      invariant Mirrors(visited, now)
    {
      var dir := Directions[k];
      var newRow, newCol := cell.row + dir.0, cell.col + dir.1;
      ghost var n := Cell(newRow, newCol);
      ghost var take := FreshStep(board, target, cell, marked, k, n);
      if IsValidPosition(newRow, newCol) && !visited[newRow, newCol] && board[newRow][newCol] == target {
        visited[newRow, newCol] := true;
        added := added + [Cell(newRow, newCol)];
        now := now + {n};
      } else {
        assert !take;
      }
    }
  }

  /** Proof step: one more direction adds its cell `n` to the queued cells
      exactly when `n` is on the board, unvisited and labelled `target`. */
  lemma FreshStep(board: Grid, target: Label, cell: Cell, marked: set<Cell>, k: int, n: Cell)
    returns (take: bool)
    requires WellFormed(board) && 0 <= k < |Directions| && n == Step(cell, k)
    ensures take == (InBounds(n) && n !in marked && At(board, n) == target)
    ensures FreshUpTo(board, target, cell, marked, k + 1)
              == FreshUpTo(board, target, cell, marked, k) + (if take then [n] else [])
    ensures n !in FreshUpTo(board, target, cell, marked, k)
    ensures Elems(FreshUpTo(board, target, cell, marked, k) + [n])
              == Elems(FreshUpTo(board, target, cell, marked, k)) + {n}
  {
    FreshUpToAvoids(board, target, cell, marked, k, k);
    take := InBounds(n) && n !in marked && At(board, n) == target;
  }

  /** The cells queued along the first `k` directions are distinct and
      adjacent to `cell`, and every on-board neighbour along those directions
      labelled `target` is queued or was already visited. */
  lemma FreshFacts(board: Grid, target: Label, cell: Cell, marked: set<Cell>, k: int)
    requires WellFormed(board) && 0 <= k <= |Directions|
    ensures var r := FreshUpTo(board, target, cell, marked, k);
      && Distinct(r)
      && (forall i :: 0 <= i < |r| ==> Adjacent(cell, r[i]))
      && (forall d :: (0 <= d < k && InBounds(Step(cell, d)) && At(board, Step(cell, d)) == target)
            ==> Step(cell, d) in marked + Elems(r))
  {
    FreshDistinct(board, target, cell, marked, k);
    FreshAdjacent(board, target, cell, marked, k);
    FreshCovers(board, target, cell, marked, k);
  }

  lemma {:induction false} FreshDistinct(board: Grid, target: Label, cell: Cell, marked: set<Cell>, k: int)
    requires WellFormed(board) && 0 <= k <= |Directions|
    ensures Distinct(FreshUpTo(board, target, cell, marked, k))
  {
    if k > 0 {
      FreshDistinct(board, target, cell, marked, k - 1);
      FreshUpToAvoids(board, target, cell, marked, k - 1, k - 1);
    }
  }

  lemma {:induction false} FreshAdjacent(board: Grid, target: Label, cell: Cell, marked: set<Cell>, k: int)
    requires WellFormed(board) && 0 <= k <= |Directions|
    ensures forall i :: 0 <= i < |FreshUpTo(board, target, cell, marked, k)| ==>
              Adjacent(cell, FreshUpTo(board, target, cell, marked, k)[i])
  {
    if k > 0 {
      FreshAdjacent(board, target, cell, marked, k - 1);
      StepIsAdjacent(cell, k - 1);
      var r', r := FreshUpTo(board, target, cell, marked, k - 1), FreshUpTo(board, target, cell, marked, k);
      var n := Step(cell, k - 1);
      assert r == r' + (if InBounds(n) && n !in marked && At(board, n) == target then [n] else []);
      forall i | 0 <= i < |r| ensures Adjacent(cell, r[i]) {
        if i < |r'| {
          assert r[i] == r'[i];
        } else {
          assert r[i] == Step(cell, k - 1);
        }
      }
    }
  }

  lemma {:induction false} FreshCovers(board: Grid, target: Label, cell: Cell, marked: set<Cell>, k: int)
    requires WellFormed(board) && 0 <= k <= |Directions|
    ensures forall d :: (0 <= d < k && InBounds(Step(cell, d)) && At(board, Step(cell, d)) == target)
              ==> Step(cell, d) in marked + Elems(FreshUpTo(board, target, cell, marked, k))
  {
    if k > 0 {
      FreshCovers(board, target, cell, marked, k - 1);
      var r' := FreshUpTo(board, target, cell, marked, k - 1);
      assert Elems(r') <= Elems(FreshUpTo(board, target, cell, marked, k));
    }
  }

  /** `k` copies of `v`. */
  function Fill(v: int, k: nat): (r: seq<int>)
    ensures |r| == k && forall i :: 0 <= i < k ==> r[i] == v
  {
    if k == 0 then [] else Fill(v, k - 1) + [v]
  }

  /** The state of the breadth-first search from `seed`: `all` lists every cell
      queued so far in queueing order, its first `n` cells have been dequeued
      (they form the group so far), `parent[i]` is the dequeued cell whose
      expansion queued cell `i`, `before` is the set of cells that were visited
      when the search started and `marked` the set of cells visited now. */
  ghost predicate SearchState(board: Grid, target: Label, seed: Cell, before: set<Cell>,
                              marked: set<Cell>, all: seq<Cell>, parent: seq<int>, n: int)
    requires WellFormed(board)
  {
    && |all| > 0 && all[0] == seed && 0 <= n <= |all|
    && (forall i :: 0 <= i < |all| ==>
          InBounds(all[i]) && At(board, all[i]) == target && all[i] !in before)
    && Distinct(all)
    && marked == before + Elems(all)
    && |parent| == |all|
    && (forall i {:trigger parent[i]} :: 0 < i < |all| ==>
          0 <= parent[i] < i && parent[i] < n && Adjacent(all[parent[i]], all[i]))
    // every same-coloured neighbour of a dequeued cell is queued or was visited before
    && (forall i, d {:trigger Step(all[i], d)} ::
          (0 <= i < n && 0 <= d < |Directions| && InBounds(Step(all[i], d))
           && At(board, Step(all[i], d)) == target) ==> Step(all[i], d) in marked)
  }

  /** Facts about `added` that `QueueNeighbours` establishes, in a state whose
      next cell to dequeue is `all[n]`. */
  ghost predicate FreshNeighbours(board: Grid, target: Label, marked: set<Cell>,
                                  all: seq<Cell>, n: int, added: seq<Cell>)
    requires WellFormed(board) && 0 <= n < |all|
  {
    && (forall i :: 0 <= i < |added| ==>
          InBounds(added[i]) && At(board, added[i]) == target
          && added[i] !in marked && Adjacent(all[n], added[i]))
    && Distinct(added)
    && (forall d :: (0 <= d < |Directions| && InBounds(Step(all[n], d))
          && At(board, Step(all[n], d)) == target) ==> Step(all[n], d) in marked + Elems(added))
  }

  lemma StepCells(board: Grid, target: Label, seed: Cell, before: set<Cell>, marked: set<Cell>,
                  all: seq<Cell>, parent: seq<int>, n: int, added: seq<Cell>)
    requires WellFormed(board)
    requires SearchState(board, target, seed, before, marked, all, parent, n) && n < |all|
    requires FreshNeighbours(board, target, marked, all, n, added)
    ensures forall i :: 0 <= i < |all + added| ==>
              InBounds((all + added)[i]) && At(board, (all + added)[i]) == target && (all + added)[i] !in before
    ensures Distinct(all + added)
    ensures marked + Elems(added) == before + Elems(all + added)
  {
    ElemsConcat(all, added);
    DistinctConcat(all, added);
  }

  lemma StepParents(all: seq<Cell>, parent: seq<int>, n: int, added: seq<Cell>)
    requires 0 <= n < |all| && |parent| == |all|
    requires forall i {:trigger parent[i]} :: 0 < i < |all| ==>
               0 <= parent[i] < i && parent[i] < n && Adjacent(all[parent[i]], all[i])
    requires forall i :: 0 <= i < |added| ==> Adjacent(all[n], added[i])
    ensures |parent + Fill(n, |added|)| == |all + added|
    ensures forall i {:trigger (parent + Fill(n, |added|))[i]} :: 0 < i < |all + added| ==>
              0 <= (parent + Fill(n, |added|))[i] < i && (parent + Fill(n, |added|))[i] < n + 1
              && Adjacent((all + added)[(parent + Fill(n, |added|))[i]], (all + added)[i])
  {
    var all', parent' := all + added, parent + Fill(n, |added|);
    forall i | 0 < i < |all'|
      ensures 0 <= parent'[i] < i && parent'[i] < n + 1 && Adjacent(all'[parent'[i]], all'[i])
    {
      if i >= |all| {
        assert parent'[i] == n && all'[n] == all[n] && all'[i] == added[i - |all|];
      } else {
        assert parent'[i] == parent[i] && all'[i] == all[i] && all'[parent[i]] == all[parent[i]];
      }
    }
  }

  lemma StepClosure(board: Grid, target: Label, marked: set<Cell>, all: seq<Cell>, n: int, added: seq<Cell>)
    requires WellFormed(board) && 0 <= n < |all|
    requires forall i, d {:trigger Step(all[i], d)} ::
               (0 <= i < n && 0 <= d < |Directions| && InBounds(Step(all[i], d))
                && At(board, Step(all[i], d)) == target) ==> Step(all[i], d) in marked
    requires forall d :: (0 <= d < |Directions| && InBounds(Step(all[n], d))
               && At(board, Step(all[n], d)) == target) ==> Step(all[n], d) in marked + Elems(added)
    ensures forall i, d {:trigger Step((all + added)[i], d)} ::
              (0 <= i < n + 1 && 0 <= d < |Directions| && InBounds(Step((all + added)[i], d))
               && At(board, Step((all + added)[i], d)) == target) ==> Step((all + added)[i], d) in marked + Elems(added)
  {
    forall i, d | 0 <= i < n + 1 && 0 <= d < |Directions| && InBounds(Step((all + added)[i], d))
                  && At(board, Step((all + added)[i], d)) == target
      ensures Step((all + added)[i], d) in marked + Elems(added)
    {
      assert (all + added)[i] == all[i];
    }
  }

  /** Dequeuing cell `n` and queueing its fresh same-coloured neighbours `added`
      keeps the search state, and either marks a new on-board cell or adds nothing. */
  lemma SearchStep(board: Grid, target: Label, seed: Cell, before: set<Cell>, marked: set<Cell>,
                   all: seq<Cell>, parent: seq<int>, n: int, added: seq<Cell>)
    requires WellFormed(board)
    requires SearchState(board, target, seed, before, marked, all, parent, n) && n < |all|
    requires FreshNeighbours(board, target, marked, all, n, added)
    ensures SearchState(board, target, seed, before, marked + Elems(added),
                        all + added, parent + Fill(n, |added|), n + 1)
    ensures added == [] ==> marked + Elems(added) == marked
    ensures added != [] ==> AllCells() - (marked + Elems(added)) < AllCells() - marked
  {
    StepCells(board, target, seed, before, marked, all, parent, n, added);
    StepParents(all, parent, n, added);
    StepClosure(board, target, marked, all, n, added);
    if added != [] {
      var x := added[0];
      assert x in AllCells() && x !in marked && x in marked + Elems(added);
    }
  }

  /** Proof helper that keeps the search loop cheap: moving the front of the
      queue to the end of the group keeps their concatenation. */
  lemma Dequeue(group: seq<Cell>, queue: seq<Cell>)
    requires queue != []
    ensures (group + [queue[0]]) + queue[1..] == group + queue
    ensures (group + queue)[|group|] == queue[0]
  {
  }

  /** Proof helper that keeps the search loop cheap: appending to the queue
      appends to the concatenation of group and queue. */
  lemma Enqueue(group: seq<Cell>, queue: seq<Cell>, added: seq<Cell>)
    ensures group + (queue + added) == (group + queue) + added
  {
  }

  /** The visited array records exactly the cells of `marked`. */
  ghost predicate Mirrors(visited: array2<bool>, marked: set<Cell>)
    requires visited.Length0 == GridRows && visited.Length1 == GridCols
    reads visited
  {
    forall r, c :: IsValidPosition(r, c) ==> (visited[r, c] <==> Cell(r, c) in marked)
  }

  /** The cells visited in `visited`. */
  ghost function Marks(visited: array2<bool>): set<Cell>
    requires visited.Length0 == GridRows && visited.Length1 == GridCols
    reads visited
  {
    set r, c | 0 <= r < GridRows && 0 <= c < GridCols && visited[r, c] :: Cell(r, c)
  }

  /** The breadth-first search of `find_connected_group` as a function: with
      `group` dequeued, `queue` waiting and `marked` visited, the group it
      ends with. Each round dequeues the front cell, appends it to the group
      and queues its fresh neighbours in direction order. */
  ghost function Bfs(board: Grid, target: Label, group: seq<Cell>, queue: seq<Cell>, marked: set<Cell>): (r: seq<Cell>)
    requires WellFormed(board)
    // the cells already dequeued stay in front, followed by the front of the queue
    ensures |group| <= |r| && r[..|group|] == group
    ensures queue != [] ==> |group| < |r| && r[|group|] == queue[0]
    decreases AllCells() - marked, |queue|
  {
    if queue == [] then group
    else
      var added := Fresh(board, target, queue[0], marked);
      assert added != [] ==> added[0] in AllCells() - marked;
      Bfs(board, target, group + [queue[0]], queue[1..] + added, marked + Elems(added))
  }

  /** What `find_connected_group` returns from `seed` when the cells in
      `before` are visited: nothing from a non-colour or visited seed,
      otherwise the breadth-first search from it. */
  ghost function FloodFill(board: Grid, seed: Cell, before: set<Cell>): (r: seq<Cell>)
    requires WellFormed(board) && InBounds(seed)
    ensures r == [] <==> !IsColour(At(board, seed)) || seed in before
    ensures r != [] ==> r[0] == seed
  {
    if !IsColour(At(board, seed)) || seed in before then []
    else Bfs(board, At(board, seed), [], [seed], before + {seed})
  }

  /** One round of the `while queue` loop of `find_connected_group`: dequeue the
      front cell, append it to the group and queue its fresh same-coloured
      neighbours. The search state is kept, and either a new cell is marked or
      the queue gets shorter. */
  method Expand(board: Grid, target: Label, visited: array2<bool>, queue: seq<Cell>, group: seq<Cell>,
                ghost seed: Cell, ghost before: set<Cell>, ghost marked: set<Cell>,
                ghost all: seq<Cell>, ghost parent: seq<int>)
    returns (queue': seq<Cell>, group': seq<Cell>, ghost marked': set<Cell>,
             ghost all': seq<Cell>, ghost parent': seq<int>)
    requires WellFormed(board) && visited.Length0 == GridRows && visited.Length1 == GridCols
    requires queue != [] && all == group + queue
    requires SearchState(board, target, seed, before, marked, all, parent, |group|)
    requires Mirrors(visited, marked)
    modifies visited
    // the front cell joins the group and its fresh neighbours join the queue
    ensures group' == group + [queue[0]]
    ensures queue' == queue[1..] + Fresh(board, target, queue[0], marked)
    ensures marked' == marked + Elems(Fresh(board, target, queue[0], marked))
    ensures Bfs(board, target, group', queue', marked') == Bfs(board, target, group, queue, marked)
    ensures all' == group' + queue'
    ensures SearchState(board, target, seed, before, marked', all', parent', |group'|)
    ensures Mirrors(visited, marked')
    ensures AllCells() - marked' < AllCells() - marked || (marked' == marked && |queue'| < |queue|)
  {
    var cell := queue[0];
    Dequeue(group, queue);
    queue' := queue[1..];
    group' := group + [cell];
    var added := QueueNeighbours(board, target, cell, visited, marked);
    FreshFacts(board, target, cell, marked, |Directions|);
    assert FreshNeighbours(board, target, marked, all, |group|, added);
    SearchStep(board, target, seed, before, marked, all, parent, |group|, added);
    Enqueue(group', queue', added);
    queue' := queue' + added;
    parent' := parent + Fill(|group|, |added|);
    all' := all + added;
    marked' := marked + Elems(added);
  }

  /** `find_connected_group`: breadth-first search from the seed over unvisited
      cells of the seed's colour, marking them in `visited` as they are queued. */
  method FindConnectedGroup(board: Grid, startRow: int, startCol: int, visited: array2<bool>)
    returns (group: seq<Cell>)
    requires WellFormed(board) && IsValidPosition(startRow, startCol)
    requires visited.Length0 == GridRows && visited.Length1 == GridCols
    modifies visited
    // nothing is found from a non-colour seed or an already visited one
    ensures group == [] <==>
              !IsColour(board[startRow][startCol]) || old(visited[startRow, startCol])
    ensures group != [] ==> group[0] == Cell(startRow, startCol)
    // every cell found is on the board, has the seed's colour and was unvisited
    ensures forall i :: 0 <= i < |group| ==>
              InBounds(group[i]) && At(board, group[i]) == board[startRow][startCol]
              && !old(visited[group[i].row, group[i].col])
    ensures Distinct(group)
    ensures Connected(group)
    // the cells found, in the order the breadth-first search dequeues them
    ensures group == FloodFill(board, Cell(startRow, startCol), old(Marks(visited)))
    // exactly the cells found change from unvisited to visited
    ensures forall r, c :: IsValidPosition(r, c) ==>
              visited[r, c] == (old(visited[r, c]) || Cell(r, c) in group)
    // a same-coloured neighbour of a found cell is found too, unless it was visited before
    ensures forall i, d ::
              (0 <= i < |group| && 0 <= d < |Directions| && InBounds(Step(group[i], d))
               && At(board, Step(group[i], d)) == board[startRow][startCol]) ==>
              Step(group[i], d) in group || old(visited[Step(group[i], d).row, Step(group[i], d).col])
  {
    var target := board[startRow][startCol];
    if target == "UNKNOWN" || target == "EMPTY" {
      return [];
    }
    if visited[startRow, startCol] {
      return [];
    }
    ghost var before := Marks(visited);
    assert Mirrors(visited, before);
    ghost var marked, parent;
    group, marked, parent := Search(board, target, Cell(startRow, startCol), visited, before);
    SearchDone(board, target, Cell(startRow, startCol), before, marked, group, parent);
  }

  /** The `while queue` loop of `find_connected_group` from an unvisited seed
      labelled `target`, with the cells in `before` visited: it computes the
      breadth-first search and ends in a search state with an empty queue. */
  method Search(board: Grid, target: Label, seed: Cell, visited: array2<bool>, ghost before: set<Cell>)
    returns (group: seq<Cell>, ghost marked: set<Cell>, ghost parent: seq<int>)
    requires WellFormed(board) && InBounds(seed) && At(board, seed) == target && seed !in before
    requires visited.Length0 == GridRows && visited.Length1 == GridCols
    requires Mirrors(visited, before)
    modifies visited
    ensures group == Bfs(board, target, [], [seed], before + {seed})
    ensures SearchState(board, target, seed, before, marked, group, parent, |group|)
    ensures Mirrors(visited, marked)
  {
    var queue := [seed];
    group := [];
    visited[seed.row, seed.col] := true;
    // every cell ever queued, in queueing order; `group` is its dequeued prefix
    ghost var all := [seed];
    // index of the cell whose expansion queued each cell
    parent := [0];
    // the cells visited now
    marked := before + {seed};
    assert Elems(all) == {seed};
    while queue != []
      invariant all == group + queue
      invariant Bfs(board, target, group, queue, marked) == Bfs(board, target, [], [seed], before + {seed})
      invariant SearchState(board, target, seed, before, marked, all, parent, |group|)
      invariant Mirrors(visited, marked)
      decreases AllCells() - marked, |queue|
    {
      queue, group, marked, all, parent := Expand(board, target, visited, queue, group, seed, before, marked, all, parent);
    }
    assert all == group;
  }

  /** When the queue is empty the group found is the whole search. */
  lemma SearchDone(board: Grid, target: Label, seed: Cell, before: set<Cell>, marked: set<Cell>,
                   group: seq<Cell>, parent: seq<int>)
    requires WellFormed(board) && SearchState(board, target, seed, before, marked, group, parent, |group|)
    ensures marked == before + Elems(group)
    ensures forall i :: 0 <= i < |group| ==> group[i] in AllCells() - before
    ensures Distinct(group) && Connected(group)
    ensures forall i, d ::
              (0 <= i < |group| && 0 <= d < |Directions| && InBounds(Step(group[i], d))
               && At(board, Step(group[i], d)) == target) ==>
              Step(group[i], d) in group || Step(group[i], d) in before
  {
    forall i | 0 < i < |group|
      ensures exists j :: 0 <= j < i && Adjacent(group[j], group[i])
    {
      assert Adjacent(group[parent[i]], group[i]);
    }
  }

  /** No cell belongs to two of the lists. */
  ghost predicate Disjoint(gs: seq<seq<Cell>>) {
    forall k, l, i, j ::
      0 <= k < |gs| && 0 <= l < |gs| && k != l && 0 <= i < |gs[k]| && 0 <= j < |gs[l]| ==>
      gs[k][i] != gs[l][j]
  }

  ghost predicate AllComponents(board: Grid, gs: seq<seq<Cell>>)
    requires WellFormed(board)
  {
    forall k :: 0 <= k < |gs| ==> IsComponent(board, gs[k])
  }

  /** Each list starts with its row-major first cell, and the lists appear in
      row-major order of their first cells. */
  ghost predicate InScanOrder(gs: seq<seq<Cell>>) {
    && (forall k :: 0 <= k < |gs| ==> |gs[k]| > 0)
    && (forall k, l :: 0 <= k < l < |gs| ==> RowMajor(gs[k][0]) < RowMajor(gs[l][0]))
    && (forall k, i :: 0 <= k < |gs| && 0 <= i < |gs[k]| ==> RowMajor(gs[k][0]) <= RowMajor(gs[k][i]))
  }

  /** Every on-board colour cell lies in one of the lists. */
  ghost predicate Covers(board: Grid, gs: seq<seq<Cell>>)
    requires WellFormed(board)
  {
    forall c :: InBounds(c) && IsColour(At(board, c)) ==> exists k :: 0 <= k < |gs| && c in gs[k]
  }

  /** `gs` lists the connected components of the board's colour cells, each once. */
  ghost predicate Partition(board: Grid, gs: seq<seq<Cell>>)
    requires WellFormed(board)
  {
    AllComponents(board, gs) && Disjoint(gs) && Covers(board, gs)
  }

  /** The lists with at least `MinGroupSize` cells, in their original order
      (the size filter of `find_all_groups`). */
  function Eligible(cs: seq<seq<Cell>>): (r: seq<seq<Cell>>)
    ensures |r| <= |cs|
    ensures forall i :: 0 <= i < |r| ==> |r[i]| >= MinGroupSize
  {
    if cs == [] then []
    else
      var last := cs[|cs| - 1];
      Eligible(cs[..|cs| - 1]) + (if |last| >= MinGroupSize then [last] else [])
  }

  /** The cells of all the lists. */
  ghost function Covered(cs: seq<seq<Cell>>): set<Cell> {
    if cs == [] then {} else Covered(cs[..|cs| - 1]) + Elems(cs[|cs| - 1])
  }

  lemma {:induction false} CoveredMeaning(cs: seq<seq<Cell>>)
    ensures forall c :: c in Covered(cs) <==> exists k :: 0 <= k < |cs| && c in cs[k]
  {
    if cs != [] {
      var prev := cs[..|cs| - 1];
      CoveredMeaning(prev);
      forall c ensures c in Covered(cs) <==> exists k :: 0 <= k < |cs| && c in cs[k] {
        if c in Covered(prev) {
          var k :| 0 <= k < |prev| && c in prev[k];
          assert c in cs[k];
        }
        if exists k :: 0 <= k < |cs| && c in cs[k] {
          var k :| 0 <= k < |cs| && c in cs[k];
          if k < |prev| {
            assert c in prev[k];
          }
        }
      }
    }
  }

  /** The lists the flood fills of `find_all_groups` return non-empty before
      position (`row`, `col`) of the row-major scan, in the order it finds
      them; each fill runs with the cells of the earlier lists visited. */
  ghost function ScanTo(board: Grid, row: int, col: int): (r: seq<seq<Cell>>)
    requires WellFormed(board) && 0 <= row <= GridRows && 0 <= col <= GridCols
    requires row < GridRows || col == 0
    // every list is non-empty and starts at a cell the scan has passed
    ensures forall k :: 0 <= k < |r| ==> r[k] != [] && RowMajor(r[k][0]) < row * GridCols + col
    decreases row, col
  {
    if col == 0 then
      if row == 0 then [] else ScanTo(board, row - 1, GridCols)
    else
      var cs := ScanTo(board, row, col - 1);
      var g := FloodFill(board, Cell(row, col - 1), Covered(cs));
      cs + (if g == [] then [] else [g])
  }

  /** Every non-empty list the whole scan of `find_all_groups` finds, in order. */
  ghost function ScanAll(board: Grid): (r: seq<seq<Cell>>)
    requires WellFormed(board)
    ensures forall k :: 0 <= k < |r| ==> r[k] != []
    ensures forall k, l :: 0 <= k < l < |r| ==> RowMajor(r[k][0]) < RowMajor(r[l][0])
  {
    ScanToOrder(board, GridRows, 0);
    ScanTo(board, GridRows, 0)
  }

  /** The lists of the scan come in the order of their first cells. */
  lemma {:induction false} ScanToOrder(board: Grid, row: int, col: int)
    requires WellFormed(board) && 0 <= row <= GridRows && 0 <= col <= GridCols
    requires row < GridRows || col == 0
    ensures forall k, l :: 0 <= k < l < |ScanTo(board, row, col)| ==>
              RowMajor(ScanTo(board, row, col)[k][0]) < RowMajor(ScanTo(board, row, col)[l][0])
    decreases row, col
  {
    if col == 0 {
      if row > 0 {
        ScanToOrder(board, row - 1, GridCols);
      }
    } else {
      ScanToOrder(board, row, col - 1);
      var cs := ScanTo(board, row, col - 1);
      var g := FloodFill(board, Cell(row, col - 1), Covered(cs));
      var r := ScanTo(board, row, col);
      assert r == cs + (if g == [] then [] else [g]);
      forall k, l | 0 <= k < l < |r| ensures RowMajor(r[k][0]) < RowMajor(r[l][0]) {
        if l < |cs| {
          assert r[k] == cs[k] && r[l] == cs[l];
        } else {
          assert r[k] == cs[k] && r[l] == g && g[0] == Cell(row, col - 1);
        }
      }
    }
  }

  /** Proof step: `ScanTo` unfolded at the next column, with the visited
      cells named `marked` and the fill's result named `g`. */
  lemma ScanTracks(board: Grid, cs: seq<seq<Cell>>, marked: set<Cell>, row: int, col: int, g: seq<Cell>)
    requires WellFormed(board) && IsValidPosition(row, col)
    requires cs == ScanTo(board, row, col) && marked == Covered(cs)
    requires g == FloodFill(board, Cell(row, col), marked)
    ensures ScanTo(board, row, col + 1) == cs + (if g == [] then [] else [g])
  {
  }

  /** In a scan state the visited cells are those of the lists found. */
  lemma OwnerKeys(board: Grid, cs: seq<seq<Cell>>, owner: map<Cell, int>, pos: int)
    requires WellFormed(board) && ScanState(board, cs, owner, pos)
    ensures owner.Keys == Covered(cs)
  {
    CoveredMeaning(cs);
    forall c | c in Covered(cs) ensures c in owner {
      var k :| 0 <= k < |cs| && c in cs[k];
      var i :| 0 <= i < |cs[k]| && cs[k][i] == c;
    }
  }

  /** The cells visited by the scan are on the board. */
  lemma OwnedOnBoard(board: Grid, cs: seq<seq<Cell>>, owner: map<Cell, int>, pos: int)
    requires WellFormed(board) && ScanState(board, cs, owner, pos)
    ensures forall c :: c in owner ==> InBounds(c)
  {
    forall c | c in owner ensures InBounds(c) {
      var k := owner[c];
      assert IsComponent(board, cs[k]);
      var i :| 0 <= i < |cs[k]| && cs[k][i] == c;
    }
  }

  /** A visited array that mirrors a set of cells on the board marks exactly them. */
  lemma MarksOf(visited: array2<bool>, m: set<Cell>)
    requires visited.Length0 == GridRows && visited.Length1 == GridCols
    requires Mirrors(visited, m) && forall c :: c in m ==> InBounds(c)
    ensures Marks(visited) == m
  {
  }

  /** The state of the row-major scan of `find_all_groups` before position
      `pos`: `cs` are the groups found so far (as components, in scan order),
      and `owner` maps each visited cell to the index of its component. Every
      colour cell already passed by the scan has been visited. */
  ghost predicate ScanState(board: Grid, cs: seq<seq<Cell>>, owner: map<Cell, int>, pos: int)
    requires WellFormed(board)
  {
    && AllComponents(board, cs) && InScanOrder(cs)
    && (forall k, i :: 0 <= k < |cs| && 0 <= i < |cs[k]| ==> cs[k][i] in owner && owner[cs[k][i]] == k)
    && (forall c :: c in owner ==> 0 <= owner[c] < |cs| && c in cs[owner[c]])
    && (forall k :: 0 <= k < |cs| ==> RowMajor(cs[k][0]) < pos)
    && (forall c :: InBounds(c) && IsColour(At(board, c)) && RowMajor(c) < pos ==> c in owner)
  }

  /** What `FindConnectedGroup` promises about the list `g` it returns from
      `seed`, with the cells visited before the call being the keys of `owner`. */
  ghost predicate FoundFrom(board: Grid, seed: Cell, owner: map<Cell, int>, g: seq<Cell>)
    requires WellFormed(board) && InBounds(seed)
  {
    && (g == [] <==> !IsColour(At(board, seed)) || seed in owner)
    && (g != [] ==> g[0] == seed)
    && (forall i :: 0 <= i < |g| ==>
          InBounds(g[i]) && At(board, g[i]) == At(board, seed) && g[i] !in owner)
    && Distinct(g) && Connected(g)
    && (forall i, d ::
          (0 <= i < |g| && 0 <= d < |Directions| && InBounds(Step(g[i], d))
           && At(board, Step(g[i], d)) == At(board, seed)) ==>
          Step(g[i], d) in g || Step(g[i], d) in owner)
  }

  /** `owner` extended so that the cells of `g` belong to component `k`. */
  function Own(owner: map<Cell, int>, g: seq<Cell>, k: int): (o: map<Cell, int>)
    ensures forall c :: c in o <==> c in owner || c in g
    ensures forall c :: c in o ==> o[c] == if c in g then k else owner[c]
  {
    owner + map c | c in g :: k
  }

  /** A cell of the board is identified by its row-major position. */
  lemma RowMajorInjective(a: Cell, b: Cell)
    requires InBounds(a) && InBounds(b) && RowMajor(a) == RowMajor(b)
    ensures a == b
  {
  }

  /** A non-empty list found by the flood fill is a whole component: a
      same-coloured neighbour of one of its cells that had been visited would
      put that cell into an earlier component. */
  lemma FoundIsComponent(board: Grid, cs: seq<seq<Cell>>, owner: map<Cell, int>, pos: int,
                         seed: Cell, g: seq<Cell>)
    requires WellFormed(board) && InBounds(seed)
    requires ScanState(board, cs, owner, pos) && FoundFrom(board, seed, owner, g) && g != []
    ensures IsComponent(board, g)
  {
    forall i, d | (0 <= i < |g| && 0 <= d < |Directions| && InBounds(g[i]) && InBounds(Step(g[i], d))
                   && At(board, Step(g[i], d)) == At(board, g[i]))
      ensures Step(g[i], d) in g
    {
      StepBack(g[i], d);
      if Step(g[i], d) !in g {
        assert false;
      }
    }
  }

  /** A colour cell the scan reaches unvisited starts a new component. */
  lemma ScanAdd(board: Grid, cs: seq<seq<Cell>>, owner: map<Cell, int>, pos: int,
                seed: Cell, g: seq<Cell>)
    requires WellFormed(board) && InBounds(seed) && RowMajor(seed) == pos
    requires ScanState(board, cs, owner, pos) && FoundFrom(board, seed, owner, g) && g != []
    ensures ScanState(board, cs + [g], Own(owner, g, |cs|), pos + 1)
  {
    FoundIsComponent(board, cs, owner, pos, seed, g);
    AddComponents(board, cs, g);
    AddOrder(board, cs, owner, pos, seed, g);
    AddOwner(cs, owner, g);
    AddCover(board, cs, owner, pos, seed, g);
  }

  lemma AddComponents(board: Grid, cs: seq<seq<Cell>>, g: seq<Cell>)
    requires WellFormed(board) && AllComponents(board, cs) && IsComponent(board, g)
    ensures AllComponents(board, cs + [g])
  {
    assert (cs + [g])[|cs|] == g;
  }

  lemma AddOrder(board: Grid, cs: seq<seq<Cell>>, owner: map<Cell, int>, pos: int,
                 seed: Cell, g: seq<Cell>)
    requires WellFormed(board) && InBounds(seed) && RowMajor(seed) == pos
    requires ScanState(board, cs, owner, pos) && FoundFrom(board, seed, owner, g) && g != []
    ensures InScanOrder(cs + [g])
    ensures forall k :: 0 <= k < |cs + [g]| ==> RowMajor((cs + [g])[k][0]) < pos + 1
  {
    assert (cs + [g])[|cs|] == g;
  }

  lemma AddOwner(cs: seq<seq<Cell>>, owner: map<Cell, int>, g: seq<Cell>)
    requires forall k, i :: 0 <= k < |cs| && 0 <= i < |cs[k]| ==> cs[k][i] in owner && owner[cs[k][i]] == k
    requires forall c :: c in owner ==> 0 <= owner[c] < |cs| && c in cs[owner[c]]
    requires forall i :: 0 <= i < |g| ==> g[i] !in owner
    ensures var cs', owner' := cs + [g], Own(owner, g, |cs|);
      && (forall k, i :: 0 <= k < |cs'| && 0 <= i < |cs'[k]| ==> cs'[k][i] in owner' && owner'[cs'[k][i]] == k)
      && (forall c :: c in owner' ==> 0 <= owner'[c] < |cs'| && c in cs'[owner'[c]])
  {
    var cs', owner' := cs + [g], Own(owner, g, |cs|);
    assert cs'[|cs|] == g;
    forall k, i | 0 <= k < |cs'| && 0 <= i < |cs'[k]|
      ensures cs'[k][i] in owner' && owner'[cs'[k][i]] == k
    {
      if k < |cs| {
        assert cs'[k] == cs[k];
        assert cs[k][i] !in g;
      }
    }
  }

  lemma AddCover(board: Grid, cs: seq<seq<Cell>>, owner: map<Cell, int>, pos: int,
                 seed: Cell, g: seq<Cell>)
    requires WellFormed(board) && InBounds(seed) && RowMajor(seed) == pos
    requires ScanState(board, cs, owner, pos) && FoundFrom(board, seed, owner, g) && g != []
    ensures forall c :: InBounds(c) && IsColour(At(board, c)) && RowMajor(c) < pos + 1 ==>
              c in Own(owner, g, |cs|)
  {
    forall c | InBounds(c) && IsColour(At(board, c)) && RowMajor(c) < pos + 1
      ensures c in Own(owner, g, |cs|)
    {
      if RowMajor(c) == pos {
        RowMajorInjective(c, seed);
      }
    }
  }

  /** A cell the scan reaches that is not a colour or already visited changes nothing. */
  lemma ScanSkip(board: Grid, cs: seq<seq<Cell>>, owner: map<Cell, int>, pos: int,
                 seed: Cell, g: seq<Cell>)
    requires WellFormed(board) && InBounds(seed) && RowMajor(seed) == pos
    requires ScanState(board, cs, owner, pos) && FoundFrom(board, seed, owner, g) && g == []
    ensures ScanState(board, cs, owner, pos + 1)
  {
    forall c | InBounds(c) && IsColour(At(board, c)) && RowMajor(c) < pos + 1
      ensures c in owner
    {
      if RowMajor(c) == pos {
        RowMajorInjective(c, seed);
      }
    }
  }

  /** Once the scan has passed every cell, the components it found partition
      the colour cells of the board. */
  lemma ScanDone(board: Grid, cs: seq<seq<Cell>>, owner: map<Cell, int>)
    requires WellFormed(board) && ScanState(board, cs, owner, GridRows * GridCols)
    ensures Partition(board, cs)
  {
    forall k, l, i, j | 0 <= k < |cs| && 0 <= l < |cs| && k != l && 0 <= i < |cs[k]| && 0 <= j < |cs[l]|
      ensures cs[k][i] != cs[l][j]
    {
      assert owner[cs[k][i]] == k && owner[cs[l][j]] == l;
    }
    forall c | InBounds(c) && IsColour(At(board, c)) ensures exists k :: 0 <= k < |cs| && c in cs[k] {
      assert c in owner;
      assert c in cs[owner[c]];
    }
  }

  /** `r` lists the entries of `cs` at the strictly increasing indices `idx`. */
  ghost predicate Selects(idx: seq<int>, r: seq<seq<Cell>>, cs: seq<seq<Cell>>) {
    && |idx| == |r|
    && (forall k :: 0 <= k < |idx| ==> 0 <= idx[k] < |cs| && r[k] == cs[idx[k]])
    && (forall k, l :: 0 <= k < l < |idx| ==> idx[k] < idx[l])
  }

  /** The indices of the lists the size filter keeps. */
  ghost function EligibleIndices(cs: seq<seq<Cell>>): seq<int> {
    if cs == [] then []
    else EligibleIndices(cs[..|cs| - 1]) + (if |cs[|cs| - 1]| >= MinGroupSize then [|cs| - 1] else [])
  }

  /** The kept indices are increasing, in range, and pick out the filtered lists. */
  lemma {:induction false} IndicesSelect(cs: seq<seq<Cell>>)
    ensures Selects(EligibleIndices(cs), Eligible(cs), cs)
  {
    if cs != [] {
      var init := cs[..|cs| - 1];
      IndicesSelect(init);
      assert forall m :: 0 <= m < |init| ==> init[m] == cs[m];
    }
  }

  /** Every kept index is that of a large enough list. */
  lemma {:induction false} IndicesLarge(cs: seq<seq<Cell>>)
    ensures forall k :: 0 <= k < |EligibleIndices(cs)| ==>
              0 <= EligibleIndices(cs)[k] < |cs| && |cs[EligibleIndices(cs)[k]]| >= MinGroupSize
  {
    if cs != [] {
      var init := cs[..|cs| - 1];
      IndicesLarge(init);
      assert forall m :: 0 <= m < |init| ==> init[m] == cs[m];
    }
  }

  /** Every large enough list has its index kept. */
  lemma {:induction false} IndicesComplete(cs: seq<seq<Cell>>)
    ensures forall m :: 0 <= m < |cs| && |cs[m]| >= MinGroupSize ==> m in EligibleIndices(cs)
  {
    if cs != [] {
      var init := cs[..|cs| - 1];
      IndicesComplete(init);
      forall m | 0 <= m < |cs| && |cs[m]| >= MinGroupSize ensures m in EligibleIndices(cs) {
        if m < |init| {
          assert init[m] == cs[m];
          assert m in EligibleIndices(init);
        }
      }
    }
  }

  /** The size filter keeps exactly the large enough lists, in their order. */
  lemma EligibleSelects(cs: seq<seq<Cell>>) returns (idx: seq<int>)
    ensures Selects(idx, Eligible(cs), cs)
    ensures forall k :: 0 <= k < |idx| ==> |cs[idx[k]]| >= MinGroupSize
    ensures forall m :: 0 <= m < |cs| && |cs[m]| >= MinGroupSize ==> m in idx
  {
    idx := EligibleIndices(cs);
    IndicesSelect(cs);
    IndicesLarge(cs);
    IndicesComplete(cs);
  }

  /** An entry of `cs` is kept by the size filter exactly when it is large enough. */
  lemma EligibleMembers(cs: seq<seq<Cell>>)
    ensures forall g :: g in Eligible(cs) <==> g in cs && |g| >= MinGroupSize
  {
    var idx := EligibleSelects(cs);
    forall g | g in cs && |g| >= MinGroupSize ensures g in Eligible(cs) {
      var m :| 0 <= m < |cs| && cs[m] == g;
      var k :| 0 <= k < |idx| && idx[k] == m;
      assert Eligible(cs)[k] == g;
    }
  }

  /** Filtering by size keeps the lists components, disjoint and in scan order. */
  lemma EligibleKeeps(board: Grid, cs: seq<seq<Cell>>)
    requires WellFormed(board) && AllComponents(board, cs) && Disjoint(cs) && InScanOrder(cs)
    ensures AllComponents(board, Eligible(cs)) && Disjoint(Eligible(cs)) && InScanOrder(Eligible(cs))
    ensures forall k :: 0 <= k < |Eligible(cs)| ==> |Eligible(cs)[k]| >= MinGroupSize
  {
    var idx := EligibleSelects(cs);
    var r := Eligible(cs);
    forall k, l, i, j | 0 <= k < |r| && 0 <= l < |r| && k != l && 0 <= i < |r[k]| && 0 <= j < |r[l]|
      ensures r[k][i] != r[l][j]
    {
      assert idx[k] != idx[l];
    }
  }

  /** The `find_all_groups` scan: flood fill from every cell in row-major
      order with one shared visited array, keeping the lists of at least
      `MinGroupSize` cells. `components` is every list the flood fill
      returned non-empty, whatever its size. */
  method FindAllGroups(board: Grid) returns (groups: seq<seq<Cell>>, ghost components: seq<seq<Cell>>)
    requires WellFormed(board)
    // the flood fills found every component of the board exactly once, in scan order
    ensures Partition(board, components) && InScanOrder(components)
    // the result keeps those of at least `MinGroupSize` cells (see `GroupsAreComponents`)
    ensures groups == Eligible(components)
    // and they are exactly what the scan finds, in its order
    ensures components == ScanAll(board)
  {
    var visited := new bool[GridRows, GridCols]((_, _) => false);
    ghost var owner;
    groups, components, owner := ScanRows(board, visited);
    ScanDone(board, components, owner);
  }

  /** The outer `for row` loop of `find_all_groups`. */
  method ScanRows(board: Grid, visited: array2<bool>)
    returns (groups: seq<seq<Cell>>, ghost components: seq<seq<Cell>>, ghost owner: map<Cell, int>)
    requires WellFormed(board)
    requires visited.Length0 == GridRows && visited.Length1 == GridCols
    requires forall r, c :: IsValidPosition(r, c) ==> !visited[r, c]
    modifies visited
    ensures ScanState(board, components, owner, GridRows * GridCols)
    ensures groups == Eligible(components) && components == ScanAll(board)
  {
    groups := [];
    components := [];
    owner := map[];
    for row := 0 to GridRows
      invariant ScanState(board, components, owner, row * GridCols)
      invariant forall r, c :: IsValidPosition(r, c) ==> (visited[r, c] <==> Cell(r, c) in owner)
      invariant groups == Eligible(components) && components == ScanTo(board, row, 0)
    {
      groups, components, owner := ScanRow(board, row, visited, groups, components, owner);
    }
  }

  /** The inner `for col` loop of `find_all_groups` over one row. */
  method ScanRow(board: Grid, row: int, visited: array2<bool>, groups: seq<seq<Cell>>,
                 ghost cs: seq<seq<Cell>>, ghost owner: map<Cell, int>)
    returns (groups': seq<seq<Cell>>, ghost cs': seq<seq<Cell>>, ghost owner': map<Cell, int>)
    requires WellFormed(board) && 0 <= row < GridRows
    requires visited.Length0 == GridRows && visited.Length1 == GridCols
    requires ScanState(board, cs, owner, row * GridCols)
    requires forall r, c :: IsValidPosition(r, c) ==> (visited[r, c] <==> Cell(r, c) in owner)
    requires groups == Eligible(cs) && cs == ScanTo(board, row, 0)
    modifies visited
    ensures ScanState(board, cs', owner', (row + 1) * GridCols)
    ensures forall r, c :: IsValidPosition(r, c) ==> (visited[r, c] <==> Cell(r, c) in owner')
    ensures groups' == Eligible(cs') && cs' == ScanTo(board, row + 1, 0)
  {
    groups', cs', owner' := groups, cs, owner;
    for col := 0 to GridCols
      invariant ScanState(board, cs', owner', row * GridCols + col)
      invariant forall r, c :: IsValidPosition(r, c) ==> (visited[r, c] <==> Cell(r, c) in owner')
      invariant groups' == Eligible(cs')
      invariant cs' == ScanTo(board, row, col)
    {
      groups', cs', owner' := ScanStep(board, row, col, visited, groups', cs', owner');
    }
  }

  /** Proof step: `ScanNext` with the list of lists kept equal to `ScanTo`. */
  lemma ScanTracked(board: Grid, row: int, col: int, cs: seq<seq<Cell>>, owner: map<Cell, int>, g: seq<Cell>)
    returns (cs': seq<seq<Cell>>, owner': map<Cell, int>)
    requires WellFormed(board) && IsValidPosition(row, col)
    requires ScanState(board, cs, owner, row * GridCols + col) && cs == ScanTo(board, row, col)
    requires g == FloodFill(board, Cell(row, col), owner.Keys) && FoundFrom(board, Cell(row, col), owner, g)
    ensures ScanState(board, cs', owner', row * GridCols + col + 1)
    ensures forall c :: c in owner' <==> c in owner || c in g
    ensures cs' == ScanTo(board, row, col + 1)
    ensures Eligible(cs') == Eligible(cs) + (if |g| >= MinGroupSize then [g] else [])
  {
    OwnerKeys(board, cs, owner, row * GridCols + col);
    ScanTracks(board, cs, owner.Keys, row, col, g);
    cs', owner' := ScanNext(board, cs, owner, row * GridCols + col, Cell(row, col), g);
  }

  /** One pass of the `for col` loop of `find_all_groups`: flood fill from
      (`row`, `col`) and keep the result if it has at least `MinGroupSize` cells. */
  method ScanStep(board: Grid, row: int, col: int, visited: array2<bool>, groups: seq<seq<Cell>>,
                  ghost cs: seq<seq<Cell>>, ghost owner: map<Cell, int>)
    returns (groups': seq<seq<Cell>>, ghost cs': seq<seq<Cell>>, ghost owner': map<Cell, int>)
    requires WellFormed(board) && IsValidPosition(row, col)
    requires visited.Length0 == GridRows && visited.Length1 == GridCols
    requires ScanState(board, cs, owner, row * GridCols + col)
    requires forall r, c :: IsValidPosition(r, c) ==> (visited[r, c] <==> Cell(r, c) in owner)
    requires groups == Eligible(cs) && cs == ScanTo(board, row, col)
    modifies visited
    ensures ScanState(board, cs', owner', row * GridCols + col + 1)
    ensures forall r, c :: IsValidPosition(r, c) ==> (visited[r, c] <==> Cell(r, c) in owner')
    ensures groups' == Eligible(cs') && cs' == ScanTo(board, row, col + 1)
  {
    OwnedOnBoard(board, cs, owner, row * GridCols + col);
    var group := ScanCell(board, row, col, visited, owner);
    cs', owner' := ScanTracked(board, row, col, cs, owner, group);
    groups' := groups;
    if |group| >= MinGroupSize {
      groups' := groups' + [group];
    }
  }

  /** The groups kept by the scan are disjoint components of at least
      `MinGroupSize` cells, in row-major order of their first cells, and a
      board without any colour cell has none. */
  lemma GroupsAreComponents(board: Grid, cs: seq<seq<Cell>>)
    requires WellFormed(board) && Partition(board, cs) && InScanOrder(cs)
    ensures forall k :: 0 <= k < |Eligible(cs)| ==>
              |Eligible(cs)[k]| >= MinGroupSize && IsComponent(board, Eligible(cs)[k])
    ensures Disjoint(Eligible(cs)) && InScanOrder(Eligible(cs))
    ensures (forall c :: InBounds(c) ==> !IsColour(At(board, c))) ==> Eligible(cs) == []
  {
    EligibleKeeps(board, cs);
    NoColourNoComponents(board, cs);
  }

  /** One call of the flood fill from the scan, with the cells visited before
      it being the keys of `owner`. */
  method ScanCell(board: Grid, row: int, col: int, visited: array2<bool>, ghost owner: map<Cell, int>)
    returns (group: seq<Cell>)
    requires WellFormed(board) && IsValidPosition(row, col)
    requires visited.Length0 == GridRows && visited.Length1 == GridCols
    requires forall r, c :: IsValidPosition(r, c) ==> (visited[r, c] <==> Cell(r, c) in owner)
    requires forall c :: c in owner ==> InBounds(c)
    modifies visited
    ensures group == FloodFill(board, Cell(row, col), owner.Keys)
    ensures FoundFrom(board, Cell(row, col), owner, group)
    ensures forall r, c :: IsValidPosition(r, c) ==> (visited[r, c] <==> Cell(r, c) in owner || Cell(r, c) in group)
  {
    MarksOf(visited, owner.Keys);
    group := FindConnectedGroup(board, row, col, visited);
  }

  /** The bookkeeping of one scan step: the list found from the cell at
      position `pos` becomes the next component unless it is empty. */
  lemma ScanNext(board: Grid, cs: seq<seq<Cell>>, owner: map<Cell, int>, pos: int, seed: Cell, g: seq<Cell>)
    returns (cs': seq<seq<Cell>>, owner': map<Cell, int>)
    requires WellFormed(board) && InBounds(seed) && RowMajor(seed) == pos
    requires ScanState(board, cs, owner, pos) && FoundFrom(board, seed, owner, g)
    ensures ScanState(board, cs', owner', pos + 1)
    ensures forall c :: c in owner' <==> c in owner || c in g
    ensures cs' == cs + (if g == [] then [] else [g])
    ensures Eligible(cs') == Eligible(cs) + (if |g| >= MinGroupSize then [g] else [])
  {
    if g == [] {
      ScanSkip(board, cs, owner, pos, seed, g);
      cs', owner' := cs, owner;
    } else {
      ScanAdd(board, cs, owner, pos, seed, g);
      EligibleSnoc(cs, g);
      cs', owner' := cs + [g], Own(owner, g, |cs|);
    }
  }

  /** Every component holds a colour cell, so a board without one has none. */
  lemma NoColourNoComponents(board: Grid, cs: seq<seq<Cell>>)
    requires WellFormed(board) && AllComponents(board, cs)
    ensures (forall c :: InBounds(c) ==> !IsColour(At(board, c))) ==> cs == [] && Eligible(cs) == []
  {
    if cs != [] {
      assert IsComponent(board, cs[0]);
    }
  }

  /** Proof step: `Eligible` unfolded at a list with one more entry. */
  lemma EligibleSnoc(cs: seq<seq<Cell>>, g: seq<Cell>)
    ensures Eligible(cs + [g]) == Eligible(cs) + (if |g| >= MinGroupSize then [g] else [])
  {
    assert (cs + [g])[..|cs|] == cs;
  }

  /** Walking back along the adjacency witnesses of component `g` from a cell
      that lies in the closed same-coloured list `h` stays inside `h` and reaches
      the first cell of `g`. */
  lemma {:induction false} ReachesFirst(board: Grid, g: seq<Cell>, h: seq<Cell>, i: int)
    requires WellFormed(board) && IsComponent(board, g) && Monochrome(board, h) && Closed(board, h)
    requires 0 <= i < |g| && g[i] in h
    ensures g[0] in h
    decreases i
  {
    if i > 0 {
      var j :| 0 <= j < i && Adjacent(g[j], g[i]);
      assert Adjacent(g[i], g[j]);
      AdjacentIsStep(g[i], g[j]);
      var d :| 0 <= d < |Directions| && g[j] == Step(g[i], d);
      var m :| 0 <= m < |h| && h[m] == g[i];
      assert Step(h[m], d) in h;
      ReachesFirst(board, g, h, j);
    }
  }

  /** Conversely, once the first cell of `g` lies in `h`, so does every cell of `g`. */
  lemma {:induction false} ReachesAll(board: Grid, g: seq<Cell>, h: seq<Cell>, i: int)
    requires WellFormed(board) && IsComponent(board, g) && Monochrome(board, h) && Closed(board, h)
    requires 0 <= i < |g| && g[0] in h
    ensures g[i] in h
    decreases i
  {
    if i > 0 {
      var j :| 0 <= j < i && Adjacent(g[j], g[i]);
      ReachesAll(board, g, h, j);
      AdjacentIsStep(g[j], g[i]);
      var d :| 0 <= d < |Directions| && g[i] == Step(g[j], d);
      var m :| 0 <= m < |h| && h[m] == g[j];
      assert Step(h[m], d) in h;
    }
  }

  /** Two components that share a cell hold the same cells. */
  lemma ComponentUnique(board: Grid, g: seq<Cell>, h: seq<Cell>, c: Cell)
    requires WellFormed(board) && IsComponent(board, g) && IsComponent(board, h)
    requires c in g && c in h
    ensures Elems(g) == Elems(h)
  {
    var i :| 0 <= i < |g| && g[i] == c;
    var j :| 0 <= j < |h| && h[j] == c;
    ReachesFirst(board, g, h, i);
    ReachesFirst(board, h, g, j);
    forall x | x in g ensures x in h {
      var k :| 0 <= k < |g| && g[k] == x;
      ReachesAll(board, g, h, k);
    }
    forall x | x in h ensures x in g {
      var k :| 0 <= k < |h| && h[k] == x;
      ReachesAll(board, h, g, k);
    }
  }

  /** No removable group is missed: every component of at least `MinGroupSize`
      cells is, as a set of cells, one of the groups the scan keeps. */
  lemma GroupsComplete(board: Grid, cs: seq<seq<Cell>>, g: seq<Cell>)
    requires WellFormed(board) && Partition(board, cs)
    requires IsComponent(board, g) && |g| >= MinGroupSize
    ensures exists k :: 0 <= k < |Eligible(cs)| && Elems(Eligible(cs)[k]) == Elems(g)
  {
    assert InBounds(g[0]) && IsColour(At(board, g[0]));
    var m :| 0 <= m < |cs| && g[0] in cs[m];
    assert IsComponent(board, cs[m]);
    ComponentUnique(board, g, cs[m], g[0]);
    DistinctCard(g);
    DistinctCard(cs[m]);
    EligibleMembers(cs);
    assert cs[m] in Eligible(cs);
    var k :| 0 <= k < |Eligible(cs)| && Eligible(cs)[k] == cs[m];
  }
}
