/** Choice of the group to remove (`select_best_move`, game_logic.py:136-154). */
module MoveSelector {
  import opened Board

  /** Index of the longest list, the first one on ties, as Python's
      `max(all_groups, key=len)` picks it: a later list replaces the current
      choice only when strictly longer. */
  function LongestIndex(gs: seq<seq<Cell>>): (i: int)
    requires |gs| > 0
    ensures 0 <= i < |gs|
    ensures forall j :: 0 <= j < |gs| ==> |gs[j]| <= |gs[i]|
    ensures forall j :: 0 <= j < i ==> |gs[j]| < |gs[i]|
  {
    if |gs| == 1 then 0
    else
      var i := LongestIndex(gs[..|gs| - 1]);
      if |gs[|gs| - 1]| > |gs[i]| then |gs| - 1 else i
  }

  /** `None` for an empty list of groups, otherwise the earliest of the
      largest groups. */
  function SelectBestMove(gs: seq<seq<Cell>>): (best: Option<seq<Cell>>)
    ensures best == None <==> gs == []
    ensures best.Some? ==>
              exists i :: 0 <= i < |gs| && best.value == gs[i]
                && (forall j :: 0 <= j < |gs| ==> |gs[j]| <= |gs[i]|)
                && (forall j :: 0 <= j < i ==> |gs[j]| < |gs[i]|)
  {
    if gs == [] then None else Some(gs[LongestIndex(gs)])
  }
}
