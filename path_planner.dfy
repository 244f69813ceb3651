/** Planning of the drag gesture over a chosen group: the start cell with the
    fewest neighbours in the group, a greedy walk over the 8-neighbourhood, and
    the adjacency check of a finished path (game_logic.py:158-239, 334-351). */
module PathPlanner {
  import opened Config
  import opened Board

  /** Every two consecutive cells of the path are 8-adjacent. */
  ghost predicate ValidPath(path: seq<Cell>) {
    forall i :: 0 <= i < |path| - 1 ==> Adjacent(path[i], path[i + 1])
  }

  /** `verify_path`: the loop over consecutive pairs, answering false at the
      first pair that is not 8-adjacent (a path of at most one cell is valid). */
  method VerifyPath(path: seq<Cell>) returns (ok: bool)
    ensures ok <==> ValidPath(path)
  {
    if |path| <= 1 {
      return true;
    }
    for i := 0 to |path| - 1
      invariant forall j :: 0 <= j < i ==> Adjacent(path[j], path[j + 1])
    {
      var current, next := path[i], path[i + 1];
      var dr, dc := Abs(current.row - next.row), Abs(current.col - next.col);
      if !(dr <= 1 && dc <= 1 && dr + dc > 0) {
        return false;
      }
    }
    return true;
  }

  /** Each step of the path moves by one entry of the direction table. */
  ghost predicate FollowsDirections(path: seq<Cell>) {
    forall i :: 0 <= i < |path| - 1 ==> IsStep(path[i], path[i + 1])
  }

  /** `b` is the neighbour of `a` along some entry of the direction table. */
  ghost predicate IsStep(a: Cell, b: Cell) {
    exists d :: 0 <= d < |Directions| && b == Step(a, d)
  }

  /** A path is valid exactly when each step moves by one entry of the direction table. */
  lemma ValidPathByDirections(path: seq<Cell>)
    ensures ValidPath(path) <==> FollowsDirections(path)
  {
    if ValidPath(path) {
      forall i | 0 <= i < |path| - 1 ensures IsStep(path[i], path[i + 1]) {
        AdjacentIsStep(path[i], path[i + 1]);
      }
    } else {
      var i :| 0 <= i < |path| - 1 && !Adjacent(path[i], path[i + 1]);
      AdjacentIffStep(path[i], path[i + 1]);
    }
  }

  /** The neighbours of `c` in `s` along the first `k` directions, in direction
      order (the `for dr, dc in DIRECTIONS` loops of both planners). */
  function NeighboursUpTo(c: Cell, s: set<Cell>, k: int): (r: seq<Cell>)
    requires 0 <= k <= |Directions|
    ensures forall i :: 0 <= i < |r| ==> r[i] in s
  {
    if k == 0 then []
    else NeighboursUpTo(c, s, k - 1) + (if Step(c, k - 1) in s then [Step(c, k - 1)] else [])
  }

  /** The list holds exactly the cells of `s` reached along the first `k` directions. */
  lemma {:induction false} NeighboursUpToMembers(c: Cell, s: set<Cell>, k: int)
    requires 0 <= k <= |Directions|
    ensures forall x :: x in NeighboursUpTo(c, s, k) <==>
              exists d :: 0 <= d < k && Step(c, d) in s && x == Step(c, d)
  {
    if k > 0 {
      NeighboursUpToMembers(c, s, k - 1);
    }
  }

  /** The number of neighbours of `c` in `s` along the first `k` directions
      (the `count += 1` loop of `find_best_start_point`). */
  function CountUpTo(c: Cell, s: set<Cell>, k: int): (n: nat)
    requires 0 <= k <= |Directions|
    ensures n <= k
  {
    if k == 0 then 0
    else CountUpTo(c, s, k - 1) + (if Step(c, k - 1) in s then 1 else 0)
  }

  /** The neighbours of `c` in `s`, in direction order. */
  function Neighbours(c: Cell, s: set<Cell>): seq<Cell> {
    NeighboursUpTo(c, s, |Directions|)
  }

  /** The neighbour count of `find_best_start_point`: at most one per direction. */
  function NeighbourCount(c: Cell, s: set<Cell>): (n: nat)
    ensures n <= |Directions|
  {
    CountUpTo(c, s, |Directions|)
  }

  /** The neighbour list holds no cell twice and as many cells as are counted. */
  lemma {:induction false} NeighboursUpToDistinct(c: Cell, s: set<Cell>, k: int)
    requires 0 <= k <= |Directions|
    ensures Distinct(NeighboursUpTo(c, s, k))
    ensures |NeighboursUpTo(c, s, k)| == CountUpTo(c, s, k)
  {
    if k > 0 {
      NeighboursUpToDistinct(c, s, k - 1);
      NeighboursUpToMembers(c, s, k - 1);
      var prev := NeighboursUpTo(c, s, k - 1);
      if Step(c, k - 1) in prev {
        var d :| 0 <= d < k - 1 && Step(c, d) in s && Step(c, k - 1) == Step(c, d);
        StepInjective(c, d, k - 1);
      }
    }
  }

  /** The neighbour list is, in direction order, exactly the cells of `s`
      8-adjacent to `c`; its first cell is the neighbour along the earliest
      direction that leads into `s`. */
  lemma NeighboursMeaning(c: Cell, s: set<Cell>)
    ensures Distinct(Neighbours(c, s))
    ensures forall x :: x in Neighbours(c, s) <==> x in s && Adjacent(c, x)
    ensures Neighbours(c, s) == [] <==> forall d :: 0 <= d < |Directions| ==> Step(c, d) !in s
    ensures Neighbours(c, s) != [] ==>
              exists d :: 0 <= d < |Directions| && Neighbours(c, s)[0] == Step(c, d) && Step(c, d) in s
                && forall e :: 0 <= e < d ==> Step(c, e) !in s
  {
    NeighboursUpToDistinct(c, s, |Directions|);
    NeighboursUpToMembers(c, s, |Directions|);
    forall x ensures x in Neighbours(c, s) <==> x in s && Adjacent(c, x) {
      AdjacentIffStep(c, x);
    }
    if Neighbours(c, s) != [] {
      FirstNeighbour(c, s, |Directions|);
    }
  }

  lemma {:induction false} FirstNeighbour(c: Cell, s: set<Cell>, k: int)
    requires 0 <= k <= |Directions| && NeighboursUpTo(c, s, k) != []
    ensures exists d :: 0 <= d < k && NeighboursUpTo(c, s, k)[0] == Step(c, d) && Step(c, d) in s
              && forall e :: 0 <= e < d ==> Step(c, e) !in s
  {
    var prev := NeighboursUpTo(c, s, k - 1);
    if prev != [] {
      FirstNeighbour(c, s, k - 1);
    } else {
      NeighboursUpToMembers(c, s, k - 1);
      forall e | 0 <= e < k - 1 ensures Step(c, e) !in s {
        assert Step(c, e) !in prev;
      }
    }
  }

  /** The neighbour count of `c` is the number of cells of `s` 8-adjacent to it. */
  lemma NeighbourCountMeaning(c: Cell, s: set<Cell>)
    ensures NeighbourCount(c, s) == |set x | x in s && Adjacent(c, x)|
  {
    NeighboursMeaning(c, s);
    NeighboursUpToDistinct(c, s, |Directions|);
    assert Elems(Neighbours(c, s)) == set x | x in s && Adjacent(c, x);
    DistinctCard(Neighbours(c, s));
  }

  /** Index of the cell of `g` with the fewest neighbours in `s`, the first one on
      ties, as Python's `min(..., key=...)` picks it. */
  function FirstMinIndex(g: seq<Cell>, s: set<Cell>): (i: int)
    requires |g| > 0
    ensures 0 <= i < |g|
    ensures forall j :: 0 <= j < |g| ==> NeighbourCount(g[i], s) <= NeighbourCount(g[j], s)
    ensures forall j :: 0 <= j < i ==> NeighbourCount(g[j], s) > NeighbourCount(g[i], s)
  {
    if |g| == 1 then 0
    else
      var i := FirstMinIndex(g[..|g| - 1], s);
      if NeighbourCount(g[|g| - 1], s) < NeighbourCount(g[i], s) then |g| - 1 else i
  }

  /** The start of the drag: a cell of the group with the fewest neighbours in it. */
  function StartPoint(g: seq<Cell>): (start: Cell)
    requires |g| > 0
    ensures start in g
    ensures forall j :: 0 <= j < |g| ==> NeighbourCount(start, Elems(g)) <= NeighbourCount(g[j], Elems(g))
  {
    g[FirstMinIndex(g, Elems(g))]
  }

  /** The keys of a dictionary filled from `s` in order: each cell once, at its
      first occurrence. */
  function Dedup(s: seq<Cell>): (r: seq<Cell>)
    ensures Distinct(r) && Elems(r) == Elems(s)
  {
    if s == [] then []
    else
      var d, x := Dedup(s[..|s| - 1]), s[|s| - 1];
      ElemsConcat(s[..|s| - 1], [x]);
      assert s == s[..|s| - 1] + [x];
      if x in d then d else d + [x]
  }

  /** Taking the first minimum over the dictionary's keys finds the same cell as
      taking it over the list with repetitions. */
  lemma {:induction false} DedupFirstMin(g: seq<Cell>, s: set<Cell>)
    requires |g| > 0
    ensures |Dedup(g)| > 0
    ensures Dedup(g)[FirstMinIndex(Dedup(g), s)] == g[FirstMinIndex(g, s)]
  {
    assert g[0] in Elems(Dedup(g));
    if |g| > 1 {
      var init := g[..|g| - 1];
      DedupFirstMin(init, s);
      if g[|g| - 1] in Dedup(init) {
        DedupFirstMinSeen(g, s);
      } else {
        DedupFirstMinNew(g, s);
      }
    }
  }

  /** The step of `DedupFirstMin` when the last cell already occurred: it adds
      no key and, not being below the earlier minimum, does not move it. */
  lemma DedupFirstMinSeen(g: seq<Cell>, s: set<Cell>)
    requires |g| > 1
    requires var init := g[..|g| - 1];
      && |Dedup(init)| > 0 && g[|g| - 1] in Dedup(init)
      && Dedup(init)[FirstMinIndex(Dedup(init), s)] == init[FirstMinIndex(init, s)]
    ensures |Dedup(g)| > 0
    ensures Dedup(g)[FirstMinIndex(Dedup(g), s)] == g[FirstMinIndex(g, s)]
  {
    var init, x := g[..|g| - 1], g[|g| - 1];
    var i := FirstMinIndex(init, s);
    assert init[i] == g[i];
    assert x in Elems(Dedup(init));
    assert x in Elems(init);
    var j :| 0 <= j < |init| && init[j] == x;
    assert NeighbourCount(init[i], s) <= NeighbourCount(init[j], s);
  }

  /** The step of `DedupFirstMin` when the last cell is new: it becomes the last
      key, and both minima move to it under the same comparison. */
  lemma DedupFirstMinNew(g: seq<Cell>, s: set<Cell>)
    requires |g| > 1
    requires var init := g[..|g| - 1];
      && |Dedup(init)| > 0 && g[|g| - 1] !in Dedup(init)
      && Dedup(init)[FirstMinIndex(Dedup(init), s)] == init[FirstMinIndex(init, s)]
    ensures |Dedup(g)| > 0
    ensures Dedup(g)[FirstMinIndex(Dedup(g), s)] == g[FirstMinIndex(g, s)]
  {
    var init, x := g[..|g| - 1], g[|g| - 1];
    var d := Dedup(init);
    var i := FirstMinIndex(init, s);
    assert init[i] == g[i];
    var d' := d + [x];
    assert Dedup(g) == d';
    assert d'[..|d'| - 1] == d;
  }

  lemma DedupSnoc(s: seq<Cell>, n: int)
    requires 0 <= n < |s|
    ensures Dedup(s[..n + 1]) ==
              if s[n] in Dedup(s[..n]) then Dedup(s[..n]) else Dedup(s[..n]) + [s[n]]
  {
    assert s[..n + 1][..n] == s[..n];
  }

  lemma FirstMinSnoc(keys: seq<Cell>, a: int, s: set<Cell>)
    requires 0 < a < |keys|
    ensures FirstMinIndex(keys[..a + 1], s) ==
              var i := FirstMinIndex(keys[..a], s);
              if NeighbourCount(keys[a], s) < NeighbourCount(keys[i], s) then a else i
  {
    assert keys[..a + 1][..a] == keys[..a];
  }

  /** The inner loop of `find_best_start_point`: how many of the eight
      neighbours of `ball` lie in the group. */
  method CountNeighbours(ball: Cell, groupSet: set<Cell>) returns (count: nat)
    ensures count == NeighbourCount(ball, groupSet)
  {
    count := 0;
    for k := 0 to |Directions|
      invariant count == CountUpTo(ball, groupSet, k)
    {
      var neighbour := Cell(ball.row + Directions[k].0, ball.col + Directions[k].1);
      if neighbour in groupSet {
        count := count + 1;
      }
    }
  }

  /** The first loop of `find_best_start_point`: the dictionary from each cell
      of the group to its neighbour count, kept as its keys in insertion order
      and a map. */
  method CountAll(group: seq<Cell>, groupSet: set<Cell>) returns (keys: seq<Cell>, counts: map<Cell, nat>)
    ensures keys == Dedup(group)
    ensures forall c :: c in counts <==> c in keys
    ensures forall c :: c in counts ==> counts[c] == NeighbourCount(c, groupSet)
  {
    keys, counts := [], map[];
    for n := 0 to |group|
      invariant keys == Dedup(group[..n])
      invariant forall c :: c in counts <==> c in keys
      invariant forall c :: c in counts ==> counts[c] == NeighbourCount(c, groupSet)
    {
      var ball := group[n];
      var count := CountNeighbours(ball, groupSet);
      DedupSnoc(group, n);
      if ball !in counts {
        keys := keys + [ball];
      }
      counts := counts[ball := count];
    }
    assert group[..|group|] == group;
  }

  /** `find_best_start_point`: counts, for each cell of the group, its
      neighbours in the group into a dictionary, then takes the first entry of
      least count. */
  method FindBestStartPoint(group: seq<Cell>) returns (best: Cell)
    requires |group| > 0
    ensures best == StartPoint(group)
    // the start is a cell of the group with the fewest neighbours in the group,
    // and every cell before its first occurrence has more
    ensures exists i :: 0 <= i < |group| && group[i] == best
              && (forall j :: 0 <= j < |group| ==>
                    NeighbourCount(best, Elems(group)) <= NeighbourCount(group[j], Elems(group)))
              && (forall j :: 0 <= j < i ==>
                    NeighbourCount(group[j], Elems(group)) > NeighbourCount(best, Elems(group)))
  {
    var groupSet := Elems(group);
    var keys, counts := CountAll(group, groupSet);
    DedupFirstMin(group, groupSet);
    var bi := MinEntry(keys, counts, groupSet);
    best := keys[bi];
  }

  /** `min(neighbor_counts.items(), key=lambda x: x[1])`: the position of the
      first entry of least count, a later entry replacing the current choice
      only when strictly smaller. */
  method MinEntry(keys: seq<Cell>, counts: map<Cell, nat>, s: set<Cell>) returns (bi: int)
    requires |keys| > 0
    requires forall c :: c in keys ==> c in counts && counts[c] == NeighbourCount(c, s)
    ensures bi == FirstMinIndex(keys, s)
  {
    bi := 0;
    for a := 1 to |keys|
      invariant bi == FirstMinIndex(keys[..a], s)
    {
      FirstMinSnoc(keys, a, s);
      if counts[keys[a]] < counts[keys[bi]] {
        bi := a;
      }
    }
    assert keys[..|keys|] == keys;
  }

  /** The greedy walk of `calculate_drag_path` from `current` over the cells
      still `remaining`: step to the first neighbour in direction order that is
      still remaining, and stop when there is none. */
  function Walk(current: Cell, remaining: set<Cell>): (w: seq<Cell>)
    ensures w != [] ==> w[0] in remaining
    decreases |remaining|
  {
    if remaining == {} then []
    else
      var ns := Neighbours(current, remaining);
      if ns == [] then []
      else
        assert ns[0] in remaining;
        [ns[0]] + Walk(ns[0], remaining - {ns[0]})
  }

  /** Proof step: one step of the walk, as the loop of `calculate_drag_path`
      takes it, unfolded from `Walk`. */
  lemma WalkStep(path: seq<Cell>, current: Cell, remaining: set<Cell>)
    requires remaining != {} && Neighbours(current, remaining) != []
    ensures var next := Neighbours(current, remaining)[0];
      && next in remaining && |remaining - {next}| < |remaining|
      && path + Walk(current, remaining) == (path + [next]) + Walk(next, remaining - {next})
  {
    var next := Neighbours(current, remaining)[0];
    assert next in remaining;
  }

  /** The `for dr, dc in DIRECTIONS` loop of `calculate_drag_path`: the
      remaining neighbours of `current`, in direction order. */
  method NeighboursOf(current: Cell, remaining: set<Cell>) returns (neighbours: seq<Cell>)
    ensures neighbours == Neighbours(current, remaining)
  {
    neighbours := [];
    for k := 0 to |Directions|
      invariant neighbours == NeighboursUpTo(current, remaining, k)
    {
      var neighbour := Cell(current.row + Directions[k].0, current.col + Directions[k].1);
      if neighbour in remaining {
        neighbours := neighbours + [neighbour];
      }
    }
  }

  /** The path `calculate_drag_path` returns for a group. */
  function DragPath(g: seq<Cell>): (p: seq<Cell>)
    ensures p == [] <==> g == []
    ensures p != [] ==> p[0] in g
  {
    if g == [] then []
    else if |g| == 1 then g
    else
      var start := StartPoint(g);
      [start] + Walk(start, Elems(g) - {start})
  }

  /** `calculate_drag_path`: the greedy walk from the start point, written as
      the source's loop. */
  method CalculateDragPath(group: seq<Cell>) returns (path: seq<Cell>)
    ensures path == DragPath(group)
  {
    if |group| == 0 {
      return [];
    }
    if |group| == 1 {
      return group;
    }
    var start := FindBestStartPoint(group);
    var remaining := Elems(group);
    var current := start;
    path := [current];
    remaining := remaining - {current};
    while remaining != {}
      invariant path + Walk(current, remaining) == DragPath(group)
      decreases |remaining|
    {
      var neighbours := NeighboursOf(current, remaining);
      if neighbours == [] {
        assert Walk(current, remaining) == [];
        break;
      }
      var next := neighbours[0];
      WalkStep(path, current, remaining);
      path := path + [next];
      remaining := remaining - {next};
      current := next;
    }
  }

  /** The walk only visits remaining cells, each at most once. */
  lemma {:induction false} WalkInside(c: Cell, r: set<Cell>)
    ensures forall i :: 0 <= i < |Walk(c, r)| ==> Walk(c, r)[i] in r
    ensures Distinct(Walk(c, r))
    ensures |Walk(c, r)| <= |r|
    decreases |r|
  {
    if r != {} && Neighbours(c, r) != [] {
      var n := Neighbours(c, r)[0];
      assert n in r;
      var w := Walk(n, r - {n});
      WalkInside(n, r - {n});
      assert Walk(c, r) == [n] + w;
      DistinctConcat([n], w);
    }
  }

  /** Each step of the walk goes to an 8-adjacent cell. */
  lemma {:induction false} WalkAdjacent(c: Cell, r: set<Cell>)
    ensures ValidPath([c] + Walk(c, r))
    decreases |r|
  {
    if r != {} && Neighbours(c, r) != [] {
      var n := Neighbours(c, r)[0];
      NeighboursMeaning(c, r);
      assert n in r && Adjacent(c, n);
      var w := Walk(n, r - {n});
      WalkAdjacent(n, r - {n});
      var p := [c] + ([n] + w);
      assert Walk(c, r) == [n] + w;
      forall i | 0 <= i < |p| - 1 ensures Adjacent(p[i], p[i + 1]) {
        if i > 0 {
          assert p[i] == ([n] + w)[i - 1] && p[i + 1] == ([n] + w)[i];
        }
      }
    }
  }

  /** The walk takes the first direction that leads to a remaining cell, and it
      is empty only when no direction does. */
  lemma WalkGreedy(c: Cell, r: set<Cell>)
    ensures Walk(c, r) == [] <==> forall d :: 0 <= d < |Directions| ==> Step(c, d) !in r
    ensures Walk(c, r) != [] ==>
              exists d :: 0 <= d < |Directions| && Walk(c, r)[0] == Step(c, d) && Step(c, d) in r
                && forall e :: 0 <= e < d ==> Step(c, e) !in r
  {
    NeighboursMeaning(c, r);
    if r == {} {
      assert Neighbours(c, r) == [];
    }
  }

  /** The walk ends only where no remaining cell is a neighbour of its last cell. */
  lemma {:induction false} WalkStuck(c: Cell, r: set<Cell>)
    ensures var w := Walk(c, r);
      Neighbours(if w == [] then c else w[|w| - 1], r - Elems(w)) == []
    decreases |r|
  {
    var w := Walk(c, r);
    if r == {} {
      NeighboursMeaning(c, r);
      assert r - Elems(w) == r;
    } else if Neighbours(c, r) == [] {
      assert Elems(w) == {};
      assert r - Elems(w) == r;
    } else {
      var n := Neighbours(c, r)[0];
      assert n in r;
      var w' := Walk(n, r - {n});
      WalkStuck(n, r - {n});
      assert w == [n] + w';
      ElemsConcat([n], w');
      assert r - Elems(w) == (r - {n}) - Elems(w');
      if w' != [] {
        assert w[|w| - 1] == w'[|w'| - 1];
      }
    }
  }

  /** Proof step: `StartPoint`'s first ensures, as a lemma to call. */
  lemma StartInGroup(g: seq<Cell>)
    requires |g| > 0
    ensures StartPoint(g) in g
  {
  }

  /** Proof step: the path of a group of several cells, unfolded from
      `DragPath`, with the facts its callers need to unfold `Walk` in turn. */
  lemma DragPathSplit(g: seq<Cell>)
    requires |g| > 1
    ensures StartPoint(g) in Elems(g)
    ensures |Elems(g) - {StartPoint(g)}| < |g|
    ensures DragPath(g) == [StartPoint(g)] + Walk(StartPoint(g), Elems(g) - {StartPoint(g)})
  {
    ElemsCard(g);
  }

  /** The path holds distinct cells of the group and is no longer than it. */
  lemma DragPathInside(g: seq<Cell>)
    ensures forall i :: 0 <= i < |DragPath(g)| ==> DragPath(g)[i] in g
    ensures Distinct(DragPath(g))
    ensures |DragPath(g)| <= |g|
  {
    if |g| > 1 {
      DragPathSplit(g);
      var start := StartPoint(g);
      var r := Elems(g) - {start};
      var w := Walk(start, r);
      WalkInside(start, r);
      DistinctConcat([start], w);
      var p := [start] + w;
      forall i | 0 <= i < |p| ensures p[i] in g {
        if i > 0 {
          assert p[i] == w[i - 1];
          assert p[i] in Elems(g);
        }
      }
    }
  }

  /** The path passes `verify_path`. */
  lemma DragPathValid(g: seq<Cell>)
    ensures ValidPath(DragPath(g))
  {
    if |g| > 1 {
      DragPathSplit(g);
      WalkAdjacent(StartPoint(g), Elems(g) - {StartPoint(g)});
    }
  }

  /** The path of a group of several cells ends where no unvisited cell of the
      group is adjacent. */
  lemma DragPathEnds(g: seq<Cell>)
    requires |g| > 1
    ensures var p := DragPath(g);
      |p| > 0 && Neighbours(p[|p| - 1], Elems(g) - Elems(p)) == []
  {
    DragPathSplit(g);
    var start := StartPoint(g);
    var r := Elems(g) - {start};
    var w := Walk(start, r);
    WalkStuck(start, r);
    var p := [start] + w;
    ElemsConcat([start], w);
    assert Elems(g) - Elems(p) == r - Elems(w);
    if w != [] {
      assert p[|p| - 1] == w[|w| - 1];
    }
  }

  /** What `calculate_drag_path` promises: an empty group gives an empty path and
      a single cell gives itself; otherwise the path starts at the start point, and
      in every case it holds distinct cells of the group, is no longer than the
      group, passes `verify_path`, and ends where no unvisited cell of the group
      is adjacent. */
  lemma DragPathProperties(g: seq<Cell>)
    ensures g == [] ==> DragPath(g) == []
    ensures |g| == 1 ==> DragPath(g) == g
    ensures |g| > 1 ==> DragPath(g)[0] == StartPoint(g) && StartPoint(g) in g
    ensures forall i :: 0 <= i < |DragPath(g)| ==> DragPath(g)[i] in g
    ensures Distinct(DragPath(g))
    ensures |DragPath(g)| <= |g|
    ensures ValidPath(DragPath(g))
    ensures |g| > 1 ==>
              var p := DragPath(g);
              Neighbours(p[|p| - 1], Elems(g) - Elems(p)) == []
  {
    DragPathInside(g);
    DragPathValid(g);
    if |g| > 1 {
      DragPathSplit(g);
      StartInGroup(g);
      DragPathEnds(g);
    }
  }

  /** The direction table applied to a cell, entry by entry. */
  lemma StepTable(c: Cell)
    ensures Step(c, 0) == Cell(c.row - 1, c.col) && Step(c, 1) == Cell(c.row + 1, c.col)
    ensures Step(c, 2) == Cell(c.row, c.col - 1) && Step(c, 3) == Cell(c.row, c.col + 1)
    ensures Step(c, 4) == Cell(c.row - 1, c.col - 1) && Step(c, 5) == Cell(c.row - 1, c.col + 1)
    ensures Step(c, 6) == Cell(c.row + 1, c.col - 1) && Step(c, 7) == Cell(c.row + 1, c.col + 1)
  {
  }

  /** The count along the first four directions (up, down, left, right). */
  lemma CountStraight(c: Cell, s: set<Cell>)
    ensures CountUpTo(c, s, 4) ==
      (if Cell(c.row - 1, c.col) in s then 1 else 0) + (if Cell(c.row + 1, c.col) in s then 1 else 0)
      + (if Cell(c.row, c.col - 1) in s then 1 else 0) + (if Cell(c.row, c.col + 1) in s then 1 else 0)
  {
    StepTable(c);
    assert CountUpTo(c, s, 1) == (if Step(c, 0) in s then 1 else 0);
    assert CountUpTo(c, s, 2) == CountUpTo(c, s, 1) + (if Step(c, 1) in s then 1 else 0);
    assert CountUpTo(c, s, 3) == CountUpTo(c, s, 2) + (if Step(c, 2) in s then 1 else 0);
  }

  /** The count along the four diagonal directions, added to the straight ones. */
  lemma CountDiagonal(c: Cell, s: set<Cell>)
    ensures NeighbourCount(c, s) == CountUpTo(c, s, 4)
      + (if Cell(c.row - 1, c.col - 1) in s then 1 else 0) + (if Cell(c.row - 1, c.col + 1) in s then 1 else 0)
      + (if Cell(c.row + 1, c.col - 1) in s then 1 else 0) + (if Cell(c.row + 1, c.col + 1) in s then 1 else 0)
  {
    StepTable(c);
    assert CountUpTo(c, s, 5) == CountUpTo(c, s, 4) + (if Step(c, 4) in s then 1 else 0);
    assert CountUpTo(c, s, 6) == CountUpTo(c, s, 5) + (if Step(c, 5) in s then 1 else 0);
    assert CountUpTo(c, s, 7) == CountUpTo(c, s, 6) + (if Step(c, 6) in s then 1 else 0);
  }

  /** The first minimum is the only index that is minimal with every earlier
      count strictly larger. */
  lemma FirstMinUnique(g: seq<Cell>, s: set<Cell>, i: int)
    requires 0 <= i < |g|
    requires forall j :: 0 <= j < |g| ==> NeighbourCount(g[i], s) <= NeighbourCount(g[j], s)
    requires forall j :: 0 <= j < i ==> NeighbourCount(g[j], s) > NeighbourCount(g[i], s)
    ensures FirstMinIndex(g, s) == i
  {
  }

  /** A walk step to `n`, the neighbour along direction `d`, the first
      direction that leads into `r`. */
  lemma WalkTakes(c: Cell, r: set<Cell>, d: int, n: Cell)
    requires 0 <= d < |Directions| && n == Step(c, d) && n in r
    requires (0 < d ==> Cell(c.row - 1, c.col) !in r) && (1 < d ==> Cell(c.row + 1, c.col) !in r)
    requires (2 < d ==> Cell(c.row, c.col - 1) !in r) && (3 < d ==> Cell(c.row, c.col + 1) !in r)
    requires (4 < d ==> Cell(c.row - 1, c.col - 1) !in r) && (5 < d ==> Cell(c.row - 1, c.col + 1) !in r)
    requires 6 < d ==> Cell(c.row + 1, c.col - 1) !in r
    ensures Walk(c, r) == [n] + Walk(n, r - {n})
  {
    StepTable(c);
    WalkGreedy(c, r);
    var d' :| 0 <= d' < |Directions| && Walk(c, r)[0] == Step(c, d') && Step(c, d') in r
                && forall e :: 0 <= e < d' ==> Step(c, e) !in r;
    assert d' <= d;
    if d' < d {
      if d' == 0 {} else if d' == 1 {} else if d' == 2 {} else if d' == 3 {}
      else if d' == 4 {} else if d' == 5 {} else {}
    }
    assert Walk(c, r)[0] == n;
  }

  /** The walk stops where no direction leads into `r`. */
  lemma WalkEnds(c: Cell, r: set<Cell>)
    requires Cell(c.row - 1, c.col) !in r && Cell(c.row + 1, c.col) !in r
    requires Cell(c.row, c.col - 1) !in r && Cell(c.row, c.col + 1) !in r
    requires Cell(c.row - 1, c.col - 1) !in r && Cell(c.row - 1, c.col + 1) !in r
    requires Cell(c.row + 1, c.col - 1) !in r && Cell(c.row + 1, c.col + 1) !in r
    ensures Walk(c, r) == []
  {
    StepTable(c);
    forall d | 0 <= d < |Directions| ensures Step(c, d) !in r {
      if d == 0 {} else if d == 1 {} else if d == 2 {} else if d == 3 {}
      else if d == 4 {} else if d == 5 {} else if d == 6 {} else {}
    }
    WalkGreedy(c, r);
  }

  /** Proof helpers for the test shapes, which keep their proofs cheap:
      `PrependN` puts a cell in front of a list of N cells, `ElemsOfN` gives
      the cells of a list of N cells. */
  lemma Prepend0(a: Cell)
    ensures [a] + [] == [a]
  {
  }

  lemma Prepend1(a: Cell, b: Cell)
    ensures [a] + [b] == [a, b]
  {
  }

  lemma Prepend2(a: Cell, b: Cell, c: Cell)
    ensures [a] + [b, c] == [a, b, c]
  {
  }

  lemma Prepend3(a: Cell, b: Cell, c: Cell, d: Cell)
    ensures [a] + [b, c, d] == [a, b, c, d]
  {
  }

  lemma Prepend4(a: Cell, b: Cell, c: Cell, d: Cell, e: Cell)
    ensures [a] + [b, c, d, e] == [a, b, c, d, e]
  {
  }

  lemma ElemsOf4(a: Cell, b: Cell, c: Cell, d: Cell)
    ensures Elems([a, b, c, d]) == {a, b, c, d}
  {
  }

  lemma ElemsOf5(a: Cell, b: Cell, c: Cell, d: Cell, e: Cell)
    ensures Elems([a, b, c, d, e]) == {a, b, c, d, e}
  {
  }

  /** The drag path of a group of several cells, from its start point and walk. */
  lemma DragPathFrom(g: seq<Cell>, start: Cell, r: set<Cell>, w: seq<Cell>, p: seq<Cell>)
    requires |g| > 1 && StartPoint(g) == start && r == Elems(g) - {start} && Walk(start, r) == w
    requires p == [start] + w
    ensures DragPath(g) == p
  {
  }

  /** A neighbour count read off the eight offsets. */
  lemma CountIs(c: Cell, s: set<Cell>, n: nat)
    requires n ==
      (if Cell(c.row - 1, c.col) in s then 1 else 0) + (if Cell(c.row + 1, c.col) in s then 1 else 0)
      + (if Cell(c.row, c.col - 1) in s then 1 else 0) + (if Cell(c.row, c.col + 1) in s then 1 else 0)
      + (if Cell(c.row - 1, c.col - 1) in s then 1 else 0) + (if Cell(c.row - 1, c.col + 1) in s then 1 else 0)
      + (if Cell(c.row + 1, c.col - 1) in s then 1 else 0) + (if Cell(c.row + 1, c.col + 1) in s then 1 else 0)
    ensures NeighbourCount(c, s) == n
  {
    CountStraight(c, s);
    CountDiagonal(c, s);
  }

  lemma LineCounts(s: set<Cell>)
    requires s == {Cell(0, 0), Cell(0, 1), Cell(0, 2), Cell(0, 3)}
    ensures NeighbourCount(Cell(0, 0), s) == 1 && NeighbourCount(Cell(0, 1), s) == 2
    ensures NeighbourCount(Cell(0, 2), s) == 2 && NeighbourCount(Cell(0, 3), s) == 1
  {
    CountIs(Cell(0, 0), s, 1);
    CountIs(Cell(0, 1), s, 2);
    CountIs(Cell(0, 2), s, 2);
    CountIs(Cell(0, 3), s, 1);
  }

  /** The start point of the straight-line test shape is its left end (one
      neighbour, like the right end, but first). */
  lemma LineStart()
    ensures StartPoint([Cell(0, 0), Cell(0, 1), Cell(0, 2), Cell(0, 3)]) == Cell(0, 0)
  {
    var line := [Cell(0, 0), Cell(0, 1), Cell(0, 2), Cell(0, 3)];
    ElemsOf4(Cell(0, 0), Cell(0, 1), Cell(0, 2), Cell(0, 3));
    LineCounts(Elems(line));
    FirstMinUnique(line, Elems(line), 0);
  }

  /** The walk over the straight line goes right to the far end. */
  lemma LineWalk()
    ensures Walk(Cell(0, 0), {Cell(0, 1), Cell(0, 2), Cell(0, 3)}) == [Cell(0, 1), Cell(0, 2), Cell(0, 3)]
  {
    WalkTakes(Cell(0, 0), {Cell(0, 1), Cell(0, 2), Cell(0, 3)}, 3, Cell(0, 1));
    assert {Cell(0, 1), Cell(0, 2), Cell(0, 3)} - {Cell(0, 1)} == {Cell(0, 2), Cell(0, 3)};
    WalkTakes(Cell(0, 1), {Cell(0, 2), Cell(0, 3)}, 3, Cell(0, 2));
    assert {Cell(0, 2), Cell(0, 3)} - {Cell(0, 2)} == {Cell(0, 3)};
    WalkTakes(Cell(0, 2), {Cell(0, 3)}, 3, Cell(0, 3));
    assert {Cell(0, 3)} - {Cell(0, 3)} == {};
    WalkEnds(Cell(0, 3), {});
    Prepend0(Cell(0, 3));
    Prepend1(Cell(0, 2), Cell(0, 3));
    Prepend2(Cell(0, 1), Cell(0, 2), Cell(0, 3));
  }

  /** The drag path of the straight line. */
  lemma LinePath()
    ensures var line := [Cell(0, 0), Cell(0, 1), Cell(0, 2), Cell(0, 3)];
      DragPath(line) == line
  {
    var line := [Cell(0, 0), Cell(0, 1), Cell(0, 2), Cell(0, 3)];
    LineStart();
    ElemsOf4(Cell(0, 0), Cell(0, 1), Cell(0, 2), Cell(0, 3));
    assert Elems(line) - {Cell(0, 0)} == {Cell(0, 1), Cell(0, 2), Cell(0, 3)};
    LineWalk();
    Prepend3(Cell(0, 0), Cell(0, 1), Cell(0, 2), Cell(0, 3));
    DragPathFrom(line, Cell(0, 0), {Cell(0, 1), Cell(0, 2), Cell(0, 3)}, [Cell(0, 1), Cell(0, 2), Cell(0, 3)], line);
  }

  /** The straight-line test shape of `test_drag_path`: the drag path is the
      whole line, left to right, and passes `verify_path`. */
  lemma LineShapeCovered()
    ensures var line := [Cell(0, 0), Cell(0, 1), Cell(0, 2), Cell(0, 3)];
      DragPath(line) == line && ValidPath(DragPath(line))
  {
    LinePath();
    DragPathProperties([Cell(0, 0), Cell(0, 1), Cell(0, 2), Cell(0, 3)]);
  }

  lemma LCounts(s: set<Cell>)
    requires s == {Cell(0, 0), Cell(1, 0), Cell(2, 0), Cell(2, 1), Cell(2, 2)}
    ensures NeighbourCount(Cell(0, 0), s) == 1 && NeighbourCount(Cell(1, 0), s) == 3
    ensures NeighbourCount(Cell(2, 0), s) == 2 && NeighbourCount(Cell(2, 1), s) == 3
    ensures NeighbourCount(Cell(2, 2), s) == 1
  {
    CountIs(Cell(0, 0), s, 1);
    CountIs(Cell(1, 0), s, 3);
    CountIs(Cell(2, 0), s, 2);
    CountIs(Cell(2, 1), s, 3);
    CountIs(Cell(2, 2), s, 1);
  }

  /** The start point of the L-shaped test shape is the top of its vertical bar
      (one neighbour, like the end of the foot, but first). */
  lemma LStart()
    ensures StartPoint([Cell(0, 0), Cell(1, 0), Cell(2, 0), Cell(2, 1), Cell(2, 2)]) == Cell(0, 0)
  {
    var l := [Cell(0, 0), Cell(1, 0), Cell(2, 0), Cell(2, 1), Cell(2, 2)];
    ElemsOf5(Cell(0, 0), Cell(1, 0), Cell(2, 0), Cell(2, 1), Cell(2, 2));
    LCounts(Elems(l));
    FirstMinUnique(l, Elems(l), 0);
  }

  /** The walk over the L goes down the bar, then right along the foot. */
  lemma LWalk()
    ensures Walk(Cell(0, 0), {Cell(1, 0), Cell(2, 0), Cell(2, 1), Cell(2, 2)}) ==
              [Cell(1, 0), Cell(2, 0), Cell(2, 1), Cell(2, 2)]
  {
    WalkTakes(Cell(0, 0), {Cell(1, 0), Cell(2, 0), Cell(2, 1), Cell(2, 2)}, 1, Cell(1, 0));
    assert {Cell(1, 0), Cell(2, 0), Cell(2, 1), Cell(2, 2)} - {Cell(1, 0)} ==
           {Cell(2, 0), Cell(2, 1), Cell(2, 2)};
    WalkTakes(Cell(1, 0), {Cell(2, 0), Cell(2, 1), Cell(2, 2)}, 1, Cell(2, 0));
    assert {Cell(2, 0), Cell(2, 1), Cell(2, 2)} - {Cell(2, 0)} == {Cell(2, 1), Cell(2, 2)};
    WalkTakes(Cell(2, 0), {Cell(2, 1), Cell(2, 2)}, 3, Cell(2, 1));
    assert {Cell(2, 1), Cell(2, 2)} - {Cell(2, 1)} == {Cell(2, 2)};
    WalkTakes(Cell(2, 1), {Cell(2, 2)}, 3, Cell(2, 2));
    assert {Cell(2, 2)} - {Cell(2, 2)} == {};
    WalkEnds(Cell(2, 2), {});
    Prepend0(Cell(2, 2));
    Prepend1(Cell(2, 1), Cell(2, 2));
    Prepend2(Cell(2, 0), Cell(2, 1), Cell(2, 2));
    Prepend3(Cell(1, 0), Cell(2, 0), Cell(2, 1), Cell(2, 2));
  }

  /** The drag path of the L. */
  lemma LPath()
    ensures var l := [Cell(0, 0), Cell(1, 0), Cell(2, 0), Cell(2, 1), Cell(2, 2)];
      DragPath(l) == l
  {
    var l := [Cell(0, 0), Cell(1, 0), Cell(2, 0), Cell(2, 1), Cell(2, 2)];
    LStart();
    ElemsOf5(Cell(0, 0), Cell(1, 0), Cell(2, 0), Cell(2, 1), Cell(2, 2));
    assert Elems(l) - {Cell(0, 0)} == {Cell(1, 0), Cell(2, 0), Cell(2, 1), Cell(2, 2)};
    LWalk();
    Prepend4(Cell(0, 0), Cell(1, 0), Cell(2, 0), Cell(2, 1), Cell(2, 2));
    DragPathFrom(l, Cell(0, 0), {Cell(1, 0), Cell(2, 0), Cell(2, 1), Cell(2, 2)},
                 [Cell(1, 0), Cell(2, 0), Cell(2, 1), Cell(2, 2)], l);
  }

  /** The L-shaped test shape of `test_drag_path`: the drag path is the whole
      group in its listed order, and passes `verify_path`. */
  lemma LShapeCovered()
    ensures var l := [Cell(0, 0), Cell(1, 0), Cell(2, 0), Cell(2, 1), Cell(2, 2)];
      DragPath(l) == l && ValidPath(DragPath(l))
  {
    LPath();
    DragPathProperties([Cell(0, 0), Cell(1, 0), Cell(2, 0), Cell(2, 1), Cell(2, 2)]);
  }

  lemma ComplexCounts(s: set<Cell>)
    requires s == {Cell(1, 1), Cell(1, 2), Cell(2, 1), Cell(2, 2), Cell(1, 3)}
    ensures NeighbourCount(Cell(1, 1), s) == 3 && NeighbourCount(Cell(1, 2), s) == 4
    ensures NeighbourCount(Cell(2, 1), s) == 3 && NeighbourCount(Cell(2, 2), s) == 4
    ensures NeighbourCount(Cell(1, 3), s) == 2
  {
    CountIs(Cell(1, 1), s, 3);
    CountIs(Cell(1, 2), s, 4);
    CountIs(Cell(2, 1), s, 3);
    CountIs(Cell(2, 2), s, 4);
    CountIs(Cell(1, 3), s, 2);
  }

  /** The start point of the third test shape (a square with a cell to its
      right) is that cell, the only one with two neighbours. */
  lemma ComplexStart()
    ensures StartPoint([Cell(1, 1), Cell(1, 2), Cell(2, 1), Cell(2, 2), Cell(1, 3)]) == Cell(1, 3)
  {
    var g := [Cell(1, 1), Cell(1, 2), Cell(2, 1), Cell(2, 2), Cell(1, 3)];
    ElemsOf5(Cell(1, 1), Cell(1, 2), Cell(2, 1), Cell(2, 2), Cell(1, 3));
    ComplexCounts(Elems(g));
    FirstMinUnique(g, Elems(g), 4);
  }

  /** The walk over the third shape: left, down, left, up. */
  lemma ComplexWalk()
    ensures Walk(Cell(1, 3), {Cell(1, 1), Cell(1, 2), Cell(2, 1), Cell(2, 2)}) ==
              [Cell(1, 2), Cell(2, 2), Cell(2, 1), Cell(1, 1)]
  {
    WalkTakes(Cell(1, 3), {Cell(1, 1), Cell(1, 2), Cell(2, 1), Cell(2, 2)}, 2, Cell(1, 2));
    assert {Cell(1, 1), Cell(1, 2), Cell(2, 1), Cell(2, 2)} - {Cell(1, 2)} ==
           {Cell(1, 1), Cell(2, 1), Cell(2, 2)};
    WalkTakes(Cell(1, 2), {Cell(1, 1), Cell(2, 1), Cell(2, 2)}, 1, Cell(2, 2));
    assert {Cell(1, 1), Cell(2, 1), Cell(2, 2)} - {Cell(2, 2)} == {Cell(1, 1), Cell(2, 1)};
    WalkTakes(Cell(2, 2), {Cell(1, 1), Cell(2, 1)}, 2, Cell(2, 1));
    assert {Cell(1, 1), Cell(2, 1)} - {Cell(2, 1)} == {Cell(1, 1)};
    WalkTakes(Cell(2, 1), {Cell(1, 1)}, 0, Cell(1, 1));
    assert {Cell(1, 1)} - {Cell(1, 1)} == {};
    WalkEnds(Cell(1, 1), {});
    Prepend0(Cell(1, 1));
    Prepend1(Cell(2, 1), Cell(1, 1));
    Prepend2(Cell(2, 2), Cell(2, 1), Cell(1, 1));
    Prepend3(Cell(1, 2), Cell(2, 2), Cell(2, 1), Cell(1, 1));
  }

  /** The drag path of the third shape. */
  lemma ComplexPath(g: seq<Cell>)
    requires g == [Cell(1, 1), Cell(1, 2), Cell(2, 1), Cell(2, 2), Cell(1, 3)]
    ensures DragPath(g) == [Cell(1, 3), Cell(1, 2), Cell(2, 2), Cell(2, 1), Cell(1, 1)]
  {
    ComplexStart();
    ElemsOf5(Cell(1, 1), Cell(1, 2), Cell(2, 1), Cell(2, 2), Cell(1, 3));
    assert Elems(g) - {Cell(1, 3)} == {Cell(1, 1), Cell(1, 2), Cell(2, 1), Cell(2, 2)};
    ComplexWalk();
    Prepend4(Cell(1, 3), Cell(1, 2), Cell(2, 2), Cell(2, 1), Cell(1, 1));
    DragPathFrom(g, Cell(1, 3), {Cell(1, 1), Cell(1, 2), Cell(2, 1), Cell(2, 2)},
                 [Cell(1, 2), Cell(2, 2), Cell(2, 1), Cell(1, 1)],
                 [Cell(1, 3), Cell(1, 2), Cell(2, 2), Cell(2, 1), Cell(1, 1)]);
  }

  /** The third test shape of `test_drag_path`: the drag path starts at the
      right-hand cell, visits all five cells, and passes `verify_path`. */
  lemma ComplexShapeCovered()
    ensures var g := [Cell(1, 1), Cell(1, 2), Cell(2, 1), Cell(2, 2), Cell(1, 3)];
      DragPath(g) == [Cell(1, 3), Cell(1, 2), Cell(2, 2), Cell(2, 1), Cell(1, 1)]
      && ValidPath(DragPath(g)) && Elems(DragPath(g)) == Elems(g)
  {
    var g := [Cell(1, 1), Cell(1, 2), Cell(2, 1), Cell(2, 2), Cell(1, 3)];
    var p := [Cell(1, 3), Cell(1, 2), Cell(2, 2), Cell(2, 1), Cell(1, 1)];
    ComplexPath(g);
    DragPathProperties(g);
    ElemsOf5(Cell(1, 3), Cell(1, 2), Cell(2, 2), Cell(2, 1), Cell(1, 1));
    ElemsOf5(Cell(1, 1), Cell(1, 2), Cell(2, 1), Cell(2, 2), Cell(1, 3));
  }

  /** Under 8-adjacency every arm of a plus touches the centre and the two
      neighbouring arms diagonally. */
  lemma PlusCounts(s: set<Cell>)
    requires s == {Cell(0, 1), Cell(1, 1), Cell(1, 0), Cell(1, 2), Cell(2, 1)}
    ensures NeighbourCount(Cell(0, 1), s) == 3 && NeighbourCount(Cell(1, 1), s) == 4
    ensures NeighbourCount(Cell(1, 0), s) == 3 && NeighbourCount(Cell(1, 2), s) == 3
    ensures NeighbourCount(Cell(2, 1), s) == 3
  {
    CountIs(Cell(0, 1), s, 3);
    CountIs(Cell(1, 1), s, 4);
    CountIs(Cell(1, 0), s, 3);
    CountIs(Cell(1, 2), s, 3);
    CountIs(Cell(2, 1), s, 3);
  }

  /** The start point of a plus listed top arm, centre, left, right, bottom arm
      is its top arm, the first of the four cells with three neighbours. */
  lemma PlusStart()
    ensures StartPoint([Cell(0, 1), Cell(1, 1), Cell(1, 0), Cell(1, 2), Cell(2, 1)]) == Cell(0, 1)
  {
    var g := [Cell(0, 1), Cell(1, 1), Cell(1, 0), Cell(1, 2), Cell(2, 1)];
    ElemsOf5(Cell(0, 1), Cell(1, 1), Cell(1, 0), Cell(1, 2), Cell(2, 1));
    PlusCounts(Elems(g));
    FirstMinUnique(g, Elems(g), 0);
  }

  /** The walk over the plus: down to the centre, down to the bottom arm, up-left
      to the left arm, and there it is stuck. */
  lemma PlusWalk()
    ensures Walk(Cell(0, 1), {Cell(1, 1), Cell(1, 0), Cell(1, 2), Cell(2, 1)}) ==
              [Cell(1, 1), Cell(2, 1), Cell(1, 0)]
  {
    WalkTakes(Cell(0, 1), {Cell(1, 1), Cell(1, 0), Cell(1, 2), Cell(2, 1)}, 1, Cell(1, 1));
    assert {Cell(1, 1), Cell(1, 0), Cell(1, 2), Cell(2, 1)} - {Cell(1, 1)} ==
           {Cell(1, 0), Cell(1, 2), Cell(2, 1)};
    WalkTakes(Cell(1, 1), {Cell(1, 0), Cell(1, 2), Cell(2, 1)}, 1, Cell(2, 1));
    assert {Cell(1, 0), Cell(1, 2), Cell(2, 1)} - {Cell(2, 1)} == {Cell(1, 0), Cell(1, 2)};
    WalkTakes(Cell(2, 1), {Cell(1, 0), Cell(1, 2)}, 4, Cell(1, 0));
    assert {Cell(1, 0), Cell(1, 2)} - {Cell(1, 0)} == {Cell(1, 2)};
    WalkEnds(Cell(1, 0), {Cell(1, 2)});
    Prepend0(Cell(1, 0));
    Prepend1(Cell(2, 1), Cell(1, 0));
    Prepend2(Cell(1, 1), Cell(2, 1), Cell(1, 0));
  }

  /** The drag path of the plus. */
  lemma PlusPath(g: seq<Cell>)
    requires g == [Cell(0, 1), Cell(1, 1), Cell(1, 0), Cell(1, 2), Cell(2, 1)]
    ensures DragPath(g) == [Cell(0, 1), Cell(1, 1), Cell(2, 1), Cell(1, 0)]
  {
    PlusStart();
    ElemsOf5(Cell(0, 1), Cell(1, 1), Cell(1, 0), Cell(1, 2), Cell(2, 1));
    assert Elems(g) - {Cell(0, 1)} == {Cell(1, 1), Cell(1, 0), Cell(1, 2), Cell(2, 1)};
    PlusWalk();
    Prepend3(Cell(0, 1), Cell(1, 1), Cell(2, 1), Cell(1, 0));
    DragPathFrom(g, Cell(0, 1), {Cell(1, 1), Cell(1, 0), Cell(1, 2), Cell(2, 1)},
                 [Cell(1, 1), Cell(2, 1), Cell(1, 0)],
                 [Cell(0, 1), Cell(1, 1), Cell(2, 1), Cell(1, 0)]);
  }

  /** The greedy walk can strand a cell of a connected group: on the plus its
      path passes `verify_path` but leaves the right arm out, although a valid
      path through all five cells exists (left arm, top arm, right arm, centre,
      bottom arm). */
  lemma PlusShapeStrands()
    ensures var g := [Cell(0, 1), Cell(1, 1), Cell(1, 0), Cell(1, 2), Cell(2, 1)];
      && DragPath(g) == [Cell(0, 1), Cell(1, 1), Cell(2, 1), Cell(1, 0)]
      && ValidPath(DragPath(g)) && Cell(1, 2) in g && Cell(1, 2) !in DragPath(g)
      && ValidPath([Cell(1, 0), Cell(0, 1), Cell(1, 2), Cell(1, 1), Cell(2, 1)])
  {
    var g := [Cell(0, 1), Cell(1, 1), Cell(1, 0), Cell(1, 2), Cell(2, 1)];
    PlusPath(g);
    DragPathProperties(g);
  }
}
