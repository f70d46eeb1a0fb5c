/** The edit script behind unified diffs.

    Costs are integers in units of 0.00001. The script read back from the table turns the left
    list into the right one at exactly the table's cost. Whether that cost is the least
    possible is decided by the tie-breaking rule; the exact condition is proved. */
module EditDistance {

  datatype EditType = Match | Add | Remove | Replace

  const STEP := 100000
  const REPLACE_STEP := 100001

  function StepCost(e: EditType): nat {
    match e
    case Match => 0
    case Add => STEP
    case Remove => STEP
    case Replace => REPLACE_STEP
  }

  function ScriptCost(script: seq<EditType>): nat {
    if script == [] then 0 else StepCost(script[0]) + ScriptCost(script[1..])
  }

  /** Playing the script consumes all of left and produces all of right; a match copies an
      equal element and a replacement changes a different one. */
  ghost predicate Transforms<T>(script: seq<EditType>, left: seq<T>, right: seq<T>)
    decreases |script|
  {
    if script == [] then left == [] && right == []
    else match script[0]
      case Match => left != [] && right != [] && left[0] == right[0] && Transforms(script[1..], left[1..], right[1..])
      case Add => right != [] && Transforms(script[1..], left, right[1..])
      case Remove => left != [] && Transforms(script[1..], left[1..], right)
      case Replace => left != [] && right != [] && left[0] != right[0] && Transforms(script[1..], left[1..], right[1..])
  }

  // ---------- The table ----------

  /** The choice made where the two elements differ. */
  function Choose(add: nat, remove: nat, replace: nat): EditType {
    if add < remove && add < replace then Add
    else if remove < add && remove < replace then Remove
    else Replace
  }

  function CostOf(e: EditType, add: nat, remove: nat, diagonal: nat): nat {
    match e
    case Match => diagonal
    case Add => add + STEP
    case Remove => remove + STEP
    case Replace => diagonal + REPLACE_STEP
  }

  ghost function Move<T>(left: seq<T>, right: seq<T>, i: nat, j: nat): EditType
    requires i <= |left| && j <= |right|
    decreases i + j, 0
  {
    if j == 0 then Remove
    else if i == 0 then Add
    else if left[i - 1] == right[j - 1] then Match
    else Choose(Cost(left, right, i, j - 1), Cost(left, right, i - 1, j), Cost(left, right, i - 1, j - 1))
  }

  ghost function Cost<T>(left: seq<T>, right: seq<T>, i: nat, j: nat): nat
    requires i <= |left| && j <= |right|
    decreases i + j, 1
  {
    if j == 0 then i * STEP
    else if i == 0 then j * STEP
    else CostOf(Move(left, right, i, j),
                Cost(left, right, i, j - 1), Cost(left, right, i - 1, j), Cost(left, right, i - 1, j - 1))
  }

  /** The script read back from cell (i, j) of the table. */
  ghost function Path<T>(left: seq<T>, right: seq<T>, i: nat, j: nat): seq<EditType>
    requires i <= |left| && j <= |right|
    decreases i + j
  {
    if i == 0 && j == 0 then []
    else
      var move := Move(left, right, i, j);
      Path(left, right, if move.Add? then i else i - 1, if move.Remove? then j else j - 1) + [move]
  }

  method CalculateOptimalEdits<T(==)>(left: seq<T>, right: seq<T>) returns (bestPath: seq<EditType>)
    ensures bestPath == Path(left, right, |left|, |right|)
    ensures Transforms(bestPath, left, right)
    ensures ScriptCost(bestPath) == Cost(left, right, |left|, |right|)
    // cheapest exactly if some cheapest script comes through no bad tie, for instance if there is none
    ensures IsCheapest(bestPath, left, right) <==> exists script :: ClearRoute(script, left, right)
    ensures NoBadTie(left, right) ==> IsCheapest(bestPath, left, right)
  {
    var costs := new nat[|left| + 1, |right| + 1];
    var bestMove := new EditType[|left| + 1, |right| + 1];
    FillTable(left, right, costs, bestMove);

    bestPath := [];
    var i: nat, j: nat := |left|, |right|;
    while i > 0 || j > 0
      invariant i <= |left| && j <= |right|
      invariant Path(left, right, i, j) + Reversed(bestPath) == Path(left, right, |left|, |right|)
      decreases i + j
    {
      assert CellFilled(left, right, costs, bestMove, i, j);
      var move := bestMove[i, j];
      assert Reversed(bestPath + [move]) == [move] + Reversed(bestPath) by {
        assert (bestPath + [move])[..|bestPath|] == bestPath;
      }
      bestPath := bestPath + [move];
      if move != Add { i := i - 1; }
      if move != Remove { j := j - 1; }
    }
    bestPath := Reversed(bestPath);
    PathIsScript(left, right);
  }

  /** What the script read back from the last cell is worth. */
  lemma PathIsScript<T>(left: seq<T>, right: seq<T>)
    ensures var path := Path(left, right, |left|, |right|);
            && Transforms(path, left, right) && ScriptCost(path) == Cost(left, right, |left|, |right|)
            && (IsCheapest(path, left, right) <==> exists script :: ClearRoute(script, left, right))
            && (NoBadTie(left, right) ==> IsCheapest(path, left, right))
  {
    PathTransforms(left, right, |left|, |right|);
    assert left[..|left|] == left && right[..|right|] == right;
    CheapestIffClearRoute(left, right);
    if NoBadTie(left, right) {
      CheapestIfNoBadTie(left, right);
    }
  }

  function Reversed(s: seq<EditType>): seq<EditType> {
    if s == [] then [] else [s[|s| - 1]] + Reversed(s[..|s| - 1])
  }

  ghost predicate CellFilled<T>(left: seq<T>, right: seq<T>, costs: array2<nat>, bestMove: array2<EditType>, i: nat, j: nat)
    reads costs, bestMove
  {
    && i <= |left| && i < costs.Length0 && i < bestMove.Length0
    && j <= |right| && j < costs.Length1 && j < bestMove.Length1
    && costs[i, j] == Cost(left, right, i, j) && bestMove[i, j] == Move(left, right, i, j)
  }

  method FillTable<T(==)>(left: seq<T>, right: seq<T>, costs: array2<nat>, bestMove: array2<EditType>)
    requires costs.Length0 == bestMove.Length0 == |left| + 1
    requires costs.Length1 == bestMove.Length1 == |right| + 1
    modifies costs, bestMove
    ensures forall i, j :: 0 <= i <= |left| && 0 <= j <= |right| ==> CellFilled(left, right, costs, bestMove, i, j)
  {
    for i := 0 to |left| + 1
      invariant forall a :: 0 <= a < i ==> costs[a, 0] == a * STEP && bestMove[a, 0] == Remove
    {
      costs[i, 0] := i * STEP;
      bestMove[i, 0] := Remove;
    }
    for j := 1 to |right| + 1
      invariant forall a :: 0 <= a <= |left| ==> costs[a, 0] == a * STEP && bestMove[a, 0] == Remove
      invariant forall b :: 1 <= b < j ==> costs[0, b] == b * STEP && bestMove[0, b] == Add
    {
      costs[0, j] := j * STEP;
      bestMove[0, j] := Add;
    }
    for i := 0 to |left|
      invariant forall a, b :: 0 <= a <= |left| && 0 <= b <= |right| && (a <= i || b == 0) ==>
                  CellFilled(left, right, costs, bestMove, a, b)
    {
      for j := 0 to |right|
        invariant forall a, b :: 0 <= a <= |left| && 0 <= b <= |right| && (a <= i || b == 0 || (a == i + 1 && b <= j)) ==>
                    CellFilled(left, right, costs, bestMove, a, b)
      {
        FillCell(left, right, costs, bestMove, i, j);
      }
    }
  }

  method FillCell<T(==)>(left: seq<T>, right: seq<T>, costs: array2<nat>, bestMove: array2<EditType>, i: nat, j: nat)
    requires i < |left| && j < |right|
    requires i + 1 < costs.Length0 == bestMove.Length0 && j + 1 < costs.Length1 == bestMove.Length1
    requires CellFilled(left, right, costs, bestMove, i, j)
    requires CellFilled(left, right, costs, bestMove, i + 1, j)
    requires CellFilled(left, right, costs, bestMove, i, j + 1)
    modifies costs, bestMove
    ensures CellFilled(left, right, costs, bestMove, i + 1, j + 1)
    ensures forall a: nat, b: nat :: (a != i + 1 || b != j + 1) && old(CellFilled(left, right, costs, bestMove, a, b)) ==>
              CellFilled(left, right, costs, bestMove, a, b)
  {
    if left[i] == right[j] {
      costs[i + 1, j + 1] := costs[i, j];
      bestMove[i + 1, j + 1] := Match;
      return;
    }
    var add, remove, replace := costs[i + 1, j], costs[i, j + 1], costs[i, j];
    if add < remove && add < replace {
      costs[i + 1, j + 1] := add + STEP;
      bestMove[i + 1, j + 1] := Add;
    } else if remove < add && remove < replace {
      costs[i + 1, j + 1] := remove + STEP;
      bestMove[i + 1, j + 1] := Remove;
    } else {
      costs[i + 1, j + 1] := replace + REPLACE_STEP;
      bestMove[i + 1, j + 1] := Replace;
    }
  }

  // ---------- The script is valid and costs what the table says ----------

  lemma {:induction false} CostAppend(a: seq<EditType>, b: seq<EditType>)
    ensures ScriptCost(a + b) == ScriptCost(a) + ScriptCost(b)
  {
    if a == [] {
      assert a + b == b;
    } else {
      CostAppend(a[1..], b);
      assert (a + b)[1..] == a[1..] + b;
    }
  }

  lemma CostOfOne(e: EditType)
    ensures ScriptCost([e]) == StepCost(e)
  {
    assert [e][1..] == [];
  }

  lemma {:induction false} TransformsAppend<T>(a: seq<EditType>, left: seq<T>, right: seq<T>,
                                               b: seq<EditType>, left': seq<T>, right': seq<T>)
    requires Transforms(a, left, right) && Transforms(b, left', right')
    ensures Transforms(a + b, left + left', right + right')
    decreases |a|
  {
    if a == [] {
      assert a + b == b && left + left' == left' && right + right' == right';
    } else {
      assert (a + b)[1..] == a[1..] + b;
      var l := if a[0].Add? then left else left[1..];
      var r := if a[0].Remove? then right else right[1..];
      TransformsAppend(a[1..], l, r, b, left', right');
      if !a[0].Add? { assert (left + left')[1..] == left[1..] + left'; }
      if !a[0].Remove? { assert (right + right')[1..] == right[1..] + right'; }
    }
  }

  lemma {:induction false} PathTransforms<T>(left: seq<T>, right: seq<T>, i: nat, j: nat)
    requires i <= |left| && j <= |right|
    ensures Transforms(Path(left, right, i, j), left[..i], right[..j])
    ensures ScriptCost(Path(left, right, i, j)) == Cost(left, right, i, j)
    decreases i + j
  {
    if i > 0 || j > 0 {
      var move := Move(left, right, i, j);
      var i' := if move.Add? then i else i - 1;
      var j' := if move.Remove? then j else j - 1;
      PathTransforms(left, right, i', j');
      OneMoreStep(Path(left, right, i', j'), left, right, i', j', move, i, j);
    }
  }

  // ---------- When the table holds least costs ----------

  function Min(a: nat, b: nat): nat {
    if a <= b then a else b
  }

  /** The least cost of turning left[..i] into right[..j]. */
  ghost function Least<T>(left: seq<T>, right: seq<T>, i: nat, j: nat): nat
    requires i <= |left| && j <= |right|
    decreases i + j
  {
    if j == 0 then i * STEP
    else if i == 0 then j * STEP
    else Best(Least(left, right, i, j - 1), Least(left, right, i - 1, j), Least(left, right, i - 1, j - 1),
              left[i - 1] == right[j - 1])
  }

  function Best(add: nat, remove: nat, diagonal: nat, equal: bool): (best: nat)
    ensures best <= add + STEP && best <= remove + STEP && best <= diagonal + if equal then 0 else REPLACE_STEP
    ensures best == add + STEP || best == remove + STEP || best == diagonal + if equal then 0 else REPLACE_STEP
  {
    Min(Min(add + STEP, remove + STEP), diagonal + if equal then 0 else REPLACE_STEP)
  }

  lemma LeastCell<T>(left: seq<T>, right: seq<T>, i: nat, j: nat)
    requires 0 < i <= |left| && 0 < j <= |right|
    ensures Least(left, right, i, j) == Best(Least(left, right, i, j - 1), Least(left, right, i - 1, j),
                                             Least(left, right, i - 1, j - 1), left[i - 1] == right[j - 1])
  {
  }

  /** One step more costs at most that step. */
  lemma StepByAdd<T>(left: seq<T>, right: seq<T>, i: nat, j: nat)
    requires i <= |left| && 0 < j <= |right|
    ensures Least(left, right, i, j) <= Least(left, right, i, j - 1) + STEP
  {
  }

  lemma StepByRemove<T>(left: seq<T>, right: seq<T>, i: nat, j: nat)
    requires 0 < i <= |left| && j <= |right|
    ensures Least(left, right, i, j) <= Least(left, right, i - 1, j) + STEP
  {
  }

  lemma StepByDiagonal<T>(left: seq<T>, right: seq<T>, i: nat, j: nat)
    requires 0 < i <= |left| && 0 < j <= |right|
    ensures Least(left, right, i, j) <= Least(left, right, i - 1, j - 1) + if left[i - 1] == right[j - 1] then 0 else REPLACE_STEP
  {
  }

  lemma SmoothNumbers(add: nat, remove: nat, diagonal: nat, equal: bool, best: nat)
    requires best == Best(add, remove, diagonal, equal)
    requires diagonal <= add + STEP && diagonal <= remove + STEP && add <= diagonal + STEP && remove <= diagonal + STEP
    ensures add <= best + STEP && remove <= best + STEP
  {
  }

  /** One more element on either side changes the least cost by at most one step. */
  lemma {:induction false} LeastIsSmooth<T>(left: seq<T>, right: seq<T>, i: nat, j: nat)
    requires i <= |left| && j <= |right|
    ensures i > 0 ==> Least(left, right, i - 1, j) <= Least(left, right, i, j) + STEP
    ensures j > 0 ==> Least(left, right, i, j - 1) <= Least(left, right, i, j) + STEP
    decreases i + j
  {
    if i > 0 && j > 0 {
      LeastIsSmooth(left, right, i - 1, j);
      LeastIsSmooth(left, right, i, j - 1);
      StepByAdd(left, right, i - 1, j);
      StepByRemove(left, right, i, j - 1);
      SmoothNumbers(Least(left, right, i, j - 1), Least(left, right, i - 1, j), Least(left, right, i - 1, j - 1),
                    left[i - 1] == right[j - 1], Least(left, right, i, j));
    }
  }

  /** A script without its last step transforms the lists without the elements that step uses. */
  lemma {:induction false} SplitLast<T>(script: seq<EditType>, left: seq<T>, right: seq<T>) returns (l: seq<T>, r: seq<T>)
    requires script != [] && Transforms(script, left, right)
    ensures Transforms(script[..|script| - 1], l, r)
    ensures l <= left && r <= right
    ensures var last := script[|script| - 1];
            && |left| - |l| == (if last.Add? then 0 else 1)
            && |right| - |r| == (if last.Remove? then 0 else 1)
            && (last.Match? ==> left[|l|] == right[|r|]) && (last.Replace? ==> left[|l|] != right[|r|])
    decreases |script|
  {
    if |script| == 1 {
      return [], [];
    }
    var first := script[0];
    l, r := SplitLast(script[1..], if first.Add? then left else left[1..], if first.Remove? then right else right[1..]);
    assert script[1..][..|script| - 2] == script[..|script| - 1][1..];
    if !first.Add? { l := [left[0]] + l; assert l[1..] <= left[1..]; }
    if !first.Remove? { r := [right[0]] + r; assert r[1..] <= right[1..]; }
  }

  /** Without its last step a script for two prefixes is one for shorter prefixes. */
  lemma CutLast<T>(script: seq<EditType>, left: seq<T>, right: seq<T>, i: nat, j: nat) returns (i': nat, j': nat)
    requires i <= |left| && j <= |right| && script != [] && Transforms(script, left[..i], right[..j])
    ensures i' <= i && j' <= j && Transforms(script[..|script| - 1], left[..i'], right[..j'])
    ensures var last := script[|script| - 1];
            && i' == (if last.Add? then i else i - 1) && j' == (if last.Remove? then j else j - 1)
            && (last.Match? ==> left[i'] == right[j']) && (last.Replace? ==> left[i'] != right[j'])
            && ScriptCost(script) == ScriptCost(script[..|script| - 1]) + StepCost(last)
  {
    var front, last := script[..|script| - 1], script[|script| - 1];
    var l, r := SplitLast(script, left[..i], right[..j]);
    i', j' := |l|, |r|;
    assert l == left[..i'] && r == right[..j'];
    CostAppend(front, [last]);
    assert script == front + [last];
    CostOfOne(last);
  }

  lemma LeastOfCut<T>(left: seq<T>, right: seq<T>, i: nat, j: nat, last: EditType, i': nat, j': nat)
    requires i' <= i <= |left| && j' <= j <= |right|
    requires i == (if last.Add? then i' else i' + 1) && j == (if last.Remove? then j' else j' + 1)
    requires (last.Match? ==> left[i'] == right[j']) && (last.Replace? ==> left[i'] != right[j'])
    ensures Least(left, right, i, j) <= Least(left, right, i', j') + StepCost(last)
  {
    match last
    case Add => StepByAdd(left, right, i, j);
    case Remove => StepByRemove(left, right, i, j);
    case _ => StepByDiagonal(left, right, i, j);
  }

  /** No script is cheaper. */
  lemma {:induction false} LeastIsLowerBound<T>(script: seq<EditType>, left: seq<T>, right: seq<T>, i: nat, j: nat)
    requires i <= |left| && j <= |right| && Transforms(script, left[..i], right[..j])
    ensures Least(left, right, i, j) <= ScriptCost(script)
    decreases |script|
  {
    if script != [] {
      var i', j' := CutLast(script, left, right, i, j);
      LeastIsLowerBound(script[..|script| - 1], left, right, i', j');
      LeastOfCut(left, right, i, j, script[|script| - 1], i', j');
    }
  }

  /** Some script has the least cost. */
  lemma {:induction false} LeastIsReached<T>(left: seq<T>, right: seq<T>, i: nat, j: nat) returns (script: seq<EditType>)
    requires i <= |left| && j <= |right|
    ensures Transforms(script, left[..i], right[..j]) && ScriptCost(script) == Least(left, right, i, j)
    decreases i + j
  {
    if i == 0 && j == 0 {
      return [];
    }
    var last, i', j' := LastOfLeast(left, right, i, j);
    var front := LeastIsReached(left, right, i', j');
    OneMoreStep(front, left, right, i', j', last, i, j);
    script := front + [last];
  }

  /** A step by which the least cost is reached. */
  lemma LastOfLeast<T>(left: seq<T>, right: seq<T>, i: nat, j: nat) returns (last: EditType, i': nat, j': nat)
    requires i <= |left| && j <= |right| && i + j > 0
    ensures (last.Add? || i > 0) && (last.Remove? || j > 0)
    ensures i' == (if last.Add? then i else i - 1) && j' == (if last.Remove? then j else j - 1)
    ensures (last.Match? ==> left[i'] == right[j']) && (last.Replace? ==> left[i'] != right[j'])
    ensures Least(left, right, i, j) == Least(left, right, i', j') + StepCost(last)
  {
    last :=
      if j == 0 then Remove else if i == 0 then Add
      else if Least(left, right, i, j) == Least(left, right, i, j - 1) + STEP then Add
      else if Least(left, right, i, j) == Least(left, right, i - 1, j) + STEP then Remove
      else if left[i - 1] == right[j - 1] then Match else Replace;
    i', j' := if last.Add? then i else i - 1, if last.Remove? then j else j - 1;
  }

  lemma OneMoreStep<T>(front: seq<EditType>, left: seq<T>, right: seq<T>, i': nat, j': nat, last: EditType, i: nat, j: nat)
    requires i' <= i <= |left| && j' <= j <= |right| && Transforms(front, left[..i'], right[..j'])
    requires i == (if last.Add? then i' else i' + 1) && j == (if last.Remove? then j' else j' + 1)
    requires (last.Match? ==> left[i'] == right[j']) && (last.Replace? ==> left[i'] != right[j'])
    ensures Transforms(front + [last], left[..i], right[..j])
    ensures ScriptCost(front + [last]) == ScriptCost(front) + StepCost(last)
  {
    assert left[..i] == left[..i'] + left[i'..i] && right[..j] == right[..j'] + right[j'..j];
    assert Transforms([last], left[i'..i], right[j'..j]) by { assert [last][1..] == []; }
    CostOfOne(last);
    TransformsAppend(front, left[..i'], right[..j'], [last], left[i'..i], right[j'..j]);
    CostAppend(front, [last]);
  }

  /** A replacement is chosen although an addition or a removal would have been cheaper. */
  predicate IsBadTie(add: nat, remove: nat, replace: nat) {
    (add == remove && add <= replace) || Min(add, remove) == replace
  }

  ghost predicate BadTie<T>(left: seq<T>, right: seq<T>, i: nat, j: nat)
    requires 0 < i <= |left| && 0 < j <= |right|
  {
    && left[i - 1] != right[j - 1]
    && IsBadTie(Cost(left, right, i, j - 1), Cost(left, right, i - 1, j), Cost(left, right, i - 1, j - 1))
  }

  /** The choice is the best one exactly when the tie is not bad. */
  lemma ChoiceIsBest(add: nat, remove: nat, replace: nat)
    ensures CostOf(Choose(add, remove, replace), add, remove, replace) >= Best(add, remove, replace, false)
    ensures CostOf(Choose(add, remove, replace), add, remove, replace) == Best(add, remove, replace, false) <==>
            !IsBadTie(add, remove, replace)
  {
  }

  /** What the table holds where the elements differ. */
  lemma CostCell<T>(left: seq<T>, right: seq<T>, i: nat, j: nat)
    requires 0 < i <= |left| && 0 < j <= |right| && left[i - 1] != right[j - 1]
    ensures var add, remove, replace := Cost(left, right, i, j - 1), Cost(left, right, i - 1, j), Cost(left, right, i - 1, j - 1);
            Cost(left, right, i, j) == CostOf(Choose(add, remove, replace), add, remove, replace)
  {
  }

  /** The table never holds less than the least cost. */
  lemma CostIsNotLess<T>(left: seq<T>, right: seq<T>, i: nat, j: nat)
    requires i <= |left| && j <= |right|
    ensures Least(left, right, i, j) <= Cost(left, right, i, j)
  {
    PathTransforms(left, right, i, j);
    LeastIsLowerBound(Path(left, right, i, j), left, right, i, j);
  }

  ghost predicate TableIsLeast<T>(left: seq<T>, right: seq<T>) {
    forall i, j :: 0 <= i <= |left| && 0 <= j <= |right| ==> Cost(left, right, i, j) == Least(left, right, i, j)
  }

  ghost predicate NoBadTie<T>(left: seq<T>, right: seq<T>) {
    forall i, j :: 0 < i <= |left| && 0 < j <= |right| ==> !BadTie(left, right, i, j)
  }

  /** Where the elements are equal, matching them is best. */
  lemma MatchIsBest<T>(left: seq<T>, right: seq<T>, i: nat, j: nat)
    requires 0 < i <= |left| && 0 < j <= |right| && left[i - 1] == right[j - 1]
    ensures Least(left, right, i, j) == Least(left, right, i - 1, j - 1)
  {
    LeastIsSmooth(left, right, i - 1, j);
    LeastIsSmooth(left, right, i, j - 1);
  }

  lemma {:induction false} NoBadTieIsLeast<T>(left: seq<T>, right: seq<T>, i: nat, j: nat)
    requires NoBadTie(left, right) && i <= |left| && j <= |right|
    ensures Cost(left, right, i, j) == Least(left, right, i, j)
    decreases i + j
  {
    if i > 0 && j > 0 {
      NoBadTieIsLeast(left, right, i - 1, j);
      NoBadTieIsLeast(left, right, i, j - 1);
      NoBadTieIsLeast(left, right, i - 1, j - 1);
      assert !BadTie(left, right, i, j);
      CellAgrees(left, right, i, j);
    }
  }

  lemma CellAgrees<T>(left: seq<T>, right: seq<T>, i: nat, j: nat)
    requires 0 < i <= |left| && 0 < j <= |right| && !BadTie(left, right, i, j)
    requires Cost(left, right, i - 1, j) == Least(left, right, i - 1, j)
    requires Cost(left, right, i, j - 1) == Least(left, right, i, j - 1)
    requires Cost(left, right, i - 1, j - 1) == Least(left, right, i - 1, j - 1)
    ensures Cost(left, right, i, j) == Least(left, right, i, j)
  {
    if left[i - 1] == right[j - 1] {
      MatchIsBest(left, right, i, j);
    } else {
      LeastCell(left, right, i, j);
      CostCell(left, right, i, j);
      ChoiceIsBest(Cost(left, right, i, j - 1), Cost(left, right, i - 1, j), Cost(left, right, i - 1, j - 1));
    }
  }

  lemma LeastHasNoBadTie<T>(left: seq<T>, right: seq<T>, i: nat, j: nat)
    requires TableIsLeast(left, right) && 0 < i <= |left| && 0 < j <= |right|
    ensures !BadTie(left, right, i, j)
  {
    assert Cost(left, right, i, j) == Least(left, right, i, j);
    assert Cost(left, right, i - 1, j) == Least(left, right, i - 1, j);
    assert Cost(left, right, i, j - 1) == Least(left, right, i, j - 1);
    assert Cost(left, right, i - 1, j - 1) == Least(left, right, i - 1, j - 1);
    if left[i - 1] != right[j - 1] {
      CostCell(left, right, i, j);
      ChoiceIsBest(Cost(left, right, i, j - 1), Cost(left, right, i - 1, j), Cost(left, right, i - 1, j - 1));
    }
  }

  /** All table entries are least costs exactly when no cell resolves a tie badly. */
  lemma TableIsLeastIffNoBadTie<T>(left: seq<T>, right: seq<T>)
    ensures TableIsLeast(left, right) <==> NoBadTie(left, right)
  {
    if NoBadTie(left, right) {
      forall i, j | 0 <= i <= |left| && 0 <= j <= |right|
        ensures Cost(left, right, i, j) == Least(left, right, i, j)
      {
        NoBadTieIsLeast(left, right, i, j);
      }
    }
    if TableIsLeast(left, right) {
      forall i, j | 0 < i <= |left| && 0 < j <= |right|
        ensures !BadTie(left, right, i, j)
      {
        LeastHasNoBadTie(left, right, i, j);
      }
    }
  }

  // ---------- When the script is cheapest ----------

  ghost predicate IsCheapest<T>(script: seq<EditType>, left: seq<T>, right: seq<T>) {
    && Transforms(script, left, right)
    && forall other :: Transforms(other, left, right) ==> ScriptCost(script) <= ScriptCost(other)
  }

  lemma CheapestIsLeast<T>(script: seq<EditType>, left: seq<T>, right: seq<T>)
    requires Transforms(script, left, right)
    ensures IsCheapest(script, left, right) <==> ScriptCost(script) == Least(left, right, |left|, |right|)
  {
    assert left[..|left|] == left && right[..|right|] == right;
    LeastIsLowerBound(script, left, right, |left|, |right|);
    var least := LeastIsReached(left, right, |left|, |right|);
    if ScriptCost(script) == Least(left, right, |left|, |right|) {
      forall other | Transforms(other, left, right)
        ensures ScriptCost(script) <= ScriptCost(other)
      {
        LeastIsLowerBound(other, left, right, |left|, |right|);
      }
    }
  }

  /** Read backwards from cell (i, j), the script matches wherever the elements are equal and comes
      through no cell where a tie is resolved badly. */
  ghost predicate KeepsClear<T>(script: seq<EditType>, left: seq<T>, right: seq<T>, i: nat, j: nat)
    requires i <= |left| && j <= |right|
    decreases |script|
  {
    script == []
    || (var last := script[|script| - 1];
        && (i > 0 && j > 0 ==> (left[i - 1] == right[j - 1] ==> last.Match?) && !BadTie(left, right, i, j))
        && (last.Add? || i > 0) && (last.Remove? || j > 0)
        && KeepsClear(script[..|script| - 1], left, right, if last.Add? then i else i - 1, if last.Remove? then j else j - 1))
  }

  ghost predicate ClearRoute<T>(script: seq<EditType>, left: seq<T>, right: seq<T>) {
    IsCheapest(script, left, right) && KeepsClear(script, left, right, |left|, |right|)
  }

  lemma {:induction false} CheapestKeepsClear<T>(left: seq<T>, right: seq<T>, i: nat, j: nat)
    requires i <= |left| && j <= |right| && Cost(left, right, i, j) == Least(left, right, i, j)
    ensures KeepsClear(Path(left, right, i, j), left, right, i, j)
    decreases i + j
  {
    if i > 0 || j > 0 {
      var move := Move(left, right, i, j);
      var i' := if move.Add? then i else i - 1;
      var j' := if move.Remove? then j else j - 1;
      ChosenIsLeast(left, right, i, j);
      CheapestKeepsClear(left, right, i', j');
      var path := Path(left, right, i, j);
      assert path[..|path| - 1] == Path(left, right, i', j') && path[|path| - 1] == move;
    }
  }

  /** A cell that holds the least cost got it from one that does, through no bad tie. */
  lemma ChosenIsLeast<T>(left: seq<T>, right: seq<T>, i: nat, j: nat)
    requires i <= |left| && j <= |right| && i + j > 0 && Cost(left, right, i, j) == Least(left, right, i, j)
    ensures var move := Move(left, right, i, j);
            && (move.Add? || i > 0) && (move.Remove? || j > 0)
            && var i', j' := if move.Add? then i else i - 1, if move.Remove? then j else j - 1;
               Cost(left, right, i', j') == Least(left, right, i', j')
    ensures i > 0 && j > 0 ==> !BadTie(left, right, i, j) && (left[i - 1] == right[j - 1] ==> Move(left, right, i, j).Match?)
  {
    if i > 0 && j > 0 {
      if left[i - 1] != right[j - 1] {
        ChosenCell(left, right, i, j);
      } else {
        MatchIsBest(left, right, i, j);
      }
    }
  }

  lemma ChosenCell<T>(left: seq<T>, right: seq<T>, i: nat, j: nat)
    requires 0 < i <= |left| && 0 < j <= |right| && left[i - 1] != right[j - 1]
    requires Cost(left, right, i, j) == Least(left, right, i, j)
    ensures var add, remove, replace := Cost(left, right, i, j - 1), Cost(left, right, i - 1, j), Cost(left, right, i - 1, j - 1);
            && !IsBadTie(add, remove, replace)
            && match Choose(add, remove, replace)
               case Add => add == Least(left, right, i, j - 1)
               case Remove => remove == Least(left, right, i - 1, j)
               case _ => replace == Least(left, right, i - 1, j - 1)
  {
    var add, remove, replace := Cost(left, right, i, j - 1), Cost(left, right, i - 1, j), Cost(left, right, i - 1, j - 1);
    var add', remove', replace' := Least(left, right, i, j - 1), Least(left, right, i - 1, j), Least(left, right, i - 1, j - 1);
    assert add' <= add && remove' <= remove && replace' <= replace by {
      CostIsNotLess(left, right, i, j - 1);
      CostIsNotLess(left, right, i - 1, j);
      CostIsNotLess(left, right, i - 1, j - 1);
    }
    assert CostOf(Choose(add, remove, replace), add, remove, replace) == Best(add', remove', replace', false) by {
      CostCell(left, right, i, j);
      LeastCell(left, right, i, j);
    }
    ChosenNumbers(add, remove, replace, add', remove', replace');
  }

  /** If the choice among larger numbers is the best of smaller ones, its own two numbers agree. */
  lemma ChosenNumbers(add: nat, remove: nat, replace: nat, add': nat, remove': nat, replace': nat)
    requires add' <= add && remove' <= remove && replace' <= replace
    requires CostOf(Choose(add, remove, replace), add, remove, replace) == Best(add', remove', replace', false)
    ensures !IsBadTie(add, remove, replace)
    ensures match Choose(add, remove, replace)
            case Add => add == add'
            case Remove => remove == remove'
            case _ => replace == replace'
  {
  }

  /** If a script of least cost keeps clear, the table follows it down to the least cost. */
  lemma {:induction false} ClearIsLeast<T>(script: seq<EditType>, left: seq<T>, right: seq<T>, i: nat, j: nat)
    requires i <= |left| && j <= |right| && Transforms(script, left[..i], right[..j])
    requires ScriptCost(script) == Least(left, right, i, j) && KeepsClear(script, left, right, i, j)
    ensures Cost(left, right, i, j) == Least(left, right, i, j)
    decreases |script|
  {
    if script != [] && i > 0 && j > 0 {
      var i', j' := LeastWithoutLast(script, left, right, i, j);
      ClearIsLeast(script[..|script| - 1], left, right, i', j');
      ClearCell(left, right, i, j, script[|script| - 1]);
      CostIsNotLess(left, right, i, j);
    }
  }

  lemma ClearCell<T>(left: seq<T>, right: seq<T>, i: nat, j: nat, last: EditType)
    requires 0 < i <= |left| && 0 < j <= |right| && !BadTie(left, right, i, j)
    requires last.Match? <==> left[i - 1] == right[j - 1]
    ensures Cost(left, right, i, j) <=
            Cost(left, right, if last.Add? then i else i - 1, if last.Remove? then j else j - 1) + StepCost(last)
  {
    if left[i - 1] != right[j - 1] {
      CostCell(left, right, i, j);
      ChoiceIsBest(Cost(left, right, i, j - 1), Cost(left, right, i - 1, j), Cost(left, right, i - 1, j - 1));
    }
  }

  /** Without its last step a script of least cost is one of least cost. */
  lemma LeastWithoutLast<T>(script: seq<EditType>, left: seq<T>, right: seq<T>, i: nat, j: nat) returns (i': nat, j': nat)
    requires i <= |left| && j <= |right| && script != [] && Transforms(script, left[..i], right[..j])
    requires ScriptCost(script) == Least(left, right, i, j)
    ensures var front, last := script[..|script| - 1], script[|script| - 1];
            && i' == (if last.Add? then i else i - 1) && j' == (if last.Remove? then j else j - 1)
            && Transforms(front, left[..i'], right[..j']) && ScriptCost(front) == Least(left, right, i', j')
            && Least(left, right, i, j) == Least(left, right, i', j') + StepCost(last)
            && (last.Match? ==> i > 0 && j > 0 && left[i - 1] == right[j - 1])
  {
    i', j' := CutLast(script, left, right, i, j);
    LeastIsLowerBound(script[..|script| - 1], left, right, i', j');
    LeastOfCut(left, right, i, j, script[|script| - 1], i', j');
  }

  /** The script read back from the table is a cheapest one exactly when some cheapest script that
      matches wherever it can comes through no bad tie. */
  lemma CheapestIffClearRoute<T>(left: seq<T>, right: seq<T>)
    ensures IsCheapest(Path(left, right, |left|, |right|), left, right) <==> exists script :: ClearRoute(script, left, right)
  {
    var path := Path(left, right, |left|, |right|);
    assert left[..|left|] == left && right[..|right|] == right;
    PathTransforms(left, right, |left|, |right|);
    CheapestIsLeast(path, left, right);
    if IsCheapest(path, left, right) {
      CheapestKeepsClear(left, right, |left|, |right|);
      assert ClearRoute(path, left, right);
    }
    if script :| ClearRoute(script, left, right) {
      CheapestIsLeast(script, left, right);
      ClearIsLeast(script, left, right, |left|, |right|);
    }
  }

  /** Without any bad tie the script is a cheapest one. */
  lemma CheapestIfNoBadTie<T>(left: seq<T>, right: seq<T>)
    requires NoBadTie(left, right)
    ensures IsCheapest(Path(left, right, |left|, |right|), left, right)
  {
    assert left[..|left|] == left && right[..|right|] == right;
    PathTransforms(left, right, |left|, |right|);
    NoBadTieIsLeast(left, right, |left|, |right|);
    CheapestIsLeast(Path(left, right, |left|, |right|), left, right);
  }

  /** The script is not always the cheapest: three replacements where two edits suffice. */
  lemma NotAlwaysOptimal()
    ensures Transforms([Remove, Match, Match, Add], "aba", "bab")
    ensures ScriptCost([Remove, Match, Match, Add]) == 2 * STEP
    ensures Cost("aba", "bab", 3, 3) == 3 * REPLACE_STEP
  {
    var l, r := "aba", "bab";
    assert l[1..] == "ba" && r[1..] == "ab" && l[1..][1..] == "a" && "ba"[1..] == "a" && "ab"[1..] == "b";
    var s := [Remove, Match, Match, Add];
    assert s[1..] == [Match, Match, Add] && s[1..][1..] == [Match, Add] && s[1..][1..][1..] == [Add];
    assert s[1..][1..][1..][1..] == [];
    assert Cost(l, r, 1, 1) == REPLACE_STEP && Cost(l, r, 1, 2) == STEP && Cost(l, r, 2, 1) == STEP;
    assert Cost(l, r, 1, 3) == 2 * STEP && Cost(l, r, 3, 1) == 2 * STEP;
    assert Cost(l, r, 2, 2) == 2 * REPLACE_STEP;
    assert Cost(l, r, 2, 3) == STEP && Cost(l, r, 3, 2) == STEP;
  }

  // ---------- The rules in plain terms ----------

  /** Matching is free, adding and removing cost the same, and a replacement costs 1.00001 as much. */
  lemma Prices()
    ensures StepCost(Match) == 0 && StepCost(Add) == StepCost(Remove) > 0
    ensures 100000 * StepCost(Replace) == 100001 * StepCost(Add)
  {
  }

  lemma {:induction false} CostOfAll(script: seq<EditType>, e: EditType)
    requires forall k :: 0 <= k < |script| ==> script[k] == e
    ensures ScriptCost(script) == |script| * StepCost(e)
  {
    if script != [] {
      CostOfAll(script[1..], e);
    }
  }

  /** The last step of the script read back from a cell: a match where the elements are equal; else an
      addition or a removal if that neighbour alone is the cheapest of the three, or a replacement. */
  lemma LastStep<T>(left: seq<T>, right: seq<T>, i: nat, j: nat)
    requires 0 < i <= |left| && 0 < j <= |right|
    ensures var path := Path(left, right, i, j);
            var add, remove, diagonal := Cost(left, right, i, j - 1), Cost(left, right, i - 1, j), Cost(left, right, i - 1, j - 1);
            && path != []
            && (path[|path| - 1].Match? <==> left[i - 1] == right[j - 1])
            && (path[|path| - 1].Add? <==> left[i - 1] != right[j - 1] && add < remove && add < diagonal)
            && (path[|path| - 1].Remove? <==> left[i - 1] != right[j - 1] && remove < add && remove < diagonal)
  {
  }
}
