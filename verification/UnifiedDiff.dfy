/** Unified diffs: grouping an edit script into hunks.

    Applying the hunks to the left list, positioned by their printed headers alone, yields
    the right list whenever the context is at least one line. */
module UnifiedDiff {
  import opened Basics
  import opened EditDistance

  // ---------- Interning ----------

  class InternalStrings {
    var ids: map<string, nat>

    ghost predicate Valid()
      reads this
    {
      && (forall s :: s in ids ==> ids[s] < |ids|)
      && (forall s, t :: s in ids && t in ids && ids[s] == ids[t] ==> s == t)
    }

    constructor ()
      ensures Valid() && ids == map[]
    {
      ids := map[];
    }

    method GetId(str: string) returns (id: nat)
      requires Valid()
      modifies this
      ensures Valid()
      ensures str in ids && id == ids[str]
      ensures forall s :: s in old(ids) ==> s in ids && ids[s] == old(ids[s])
    {
      if str in ids {
        return ids[str];
      }
      id := |ids|;
      ids := ids[str := id];
    }
  }

  /** xs and ids have equal elements in the same places, also across the two lists. */
  ghost predicate Interned(ids: map<string, nat>, xs: seq<string>, ns: seq<nat>) {
    |xs| == |ns| && forall i :: 0 <= i < |xs| ==> xs[i] in ids && ids[xs[i]] == ns[i]
  }

  ghost predicate Injective(ids: map<string, nat>) {
    forall s, t :: s in ids && t in ids && ids[s] == ids[t] ==> s == t
  }

  /** Interning keeps every entry of the table, since only equality of elements matters, */
  lemma {:induction false} InternedCost(ids: map<string, nat>, left: seq<string>, right: seq<string>,
                                        ls: seq<nat>, rs: seq<nat>, i: nat, j: nat)
    requires Injective(ids) && Interned(ids, left, ls) && Interned(ids, right, rs)
    requires i <= |left| && j <= |right|
    ensures Cost(ls, rs, i, j) == Cost(left, right, i, j)
    ensures Move(ls, rs, i, j) == Move(left, right, i, j)
    decreases i + j
  {
    if i > 0 && j > 0 {
      InternedCost(ids, left, right, ls, rs, i - 1, j);
      InternedCost(ids, left, right, ls, rs, i, j - 1);
      InternedCost(ids, left, right, ls, rs, i - 1, j - 1);
      assert left[i - 1] == right[j - 1] <==> ls[i - 1] == rs[j - 1];
    }
  }

  /** and so it keeps the script. */
  lemma {:induction false} InternedPath(ids: map<string, nat>, left: seq<string>, right: seq<string>,
                                        ls: seq<nat>, rs: seq<nat>, i: nat, j: nat)
    requires Injective(ids) && Interned(ids, left, ls) && Interned(ids, right, rs)
    requires i <= |left| && j <= |right|
    ensures Path(ls, rs, i, j) == Path(left, right, i, j)
    decreases i + j
  {
    if i > 0 || j > 0 {
      InternedCost(ids, left, right, ls, rs, i, j);
      var move := Move(left, right, i, j);
      InternedPath(ids, left, right, ls, rs, if move.Add? then i else i - 1, if move.Remove? then j else j - 1);
    }
  }

  method InternAll(table: InternalStrings, xs: seq<string>) returns (ns: seq<nat>)
    requires table.Valid()
    modifies table
    ensures table.Valid() && Interned(table.ids, xs, ns)
    ensures forall s :: s in old(table.ids) ==> s in table.ids && table.ids[s] == old(table.ids[s])
  {
    ns := [];
    for i := 0 to |xs|
      invariant table.Valid() && Interned(table.ids, xs[..i], ns)
      invariant forall s :: s in old(table.ids) ==> s in table.ids && table.ids[s] == old(table.ids[s])
    {
      var id := table.GetId(xs[i]);
      ns := ns + [id];
    }
    assert xs[..|xs|] == xs;
  }

  method CalculateOptimalEditsOfStrings(left: seq<string>, right: seq<string>) returns (edits: seq<EditType>)
    ensures edits == Path(left, right, |left|, |right|)
    ensures Transforms(edits, left, right)
  {
    var table := new InternalStrings();
    var leftIds := InternAll(table, left);
    var rightIds := InternAll(table, right);
    edits := CalculateOptimalEdits(leftIds, rightIds);
    InternedPath(table.ids, left, right, leftIds, rightIds, |left|, |right|);
    PathTransforms(left, right, |left|, |right|);
    assert left[..|left|] == left && right[..|right|] == right;
  }

  // ---------- Hunks ----------

  datatype Tag = Common | Removed | Added

  datatype Line = Line(tag: Tag, text: string)

  datatype Range = Range(start: nat, length: nat)

  /** A hunk as printed: the header shows a side only if that side has edits. */
  datatype PrintedHunk = PrintedHunk(left: Option<Range>, right: Option<Range>, lines: seq<Line>)

  /** The texts of those of the first n lines that stand on one side: all but those with the other
      side's tag. */
  ghost function SideUpTo(lines: seq<Line>, other: Tag, n: nat): seq<string>
    requires n <= |lines|
  {
    if n == 0 then [] else SideUpTo(lines, other, n - 1) + if lines[n - 1].tag == other then [] else [lines[n - 1].text]
  }

  ghost function OldSide(lines: seq<Line>): seq<string> {
    SideUpTo(lines, Added, |lines|)
  }

  ghost function NewSide(lines: seq<Line>): seq<string> {
    SideUpTo(lines, Removed, |lines|)
  }

  ghost function CountUpTo(lines: seq<Line>, tag: Tag, n: nat): nat
    requires n <= |lines|
  {
    if n == 0 then 0 else CountUpTo(lines, tag, n - 1) + if lines[n - 1].tag == tag then 1 else 0
  }

  ghost function Count(lines: seq<Line>, tag: Tag): nat {
    CountUpTo(lines, tag, |lines|)
  }

  lemma {:induction false} SideLength(lines: seq<Line>, other: Tag, n: nat)
    requires n <= |lines|
    ensures |SideUpTo(lines, other, n)| + CountUpTo(lines, other, n) == n
  {
    if n > 0 {
      SideLength(lines, other, n - 1);
    }
  }

  lemma {:induction false} CountTotal(lines: seq<Line>, n: nat)
    requires n <= |lines|
    ensures CountUpTo(lines, Common, n) + CountUpTo(lines, Removed, n) + CountUpTo(lines, Added, n) == n
  {
    if n > 0 {
      CountTotal(lines, n - 1);
    }
  }

  ghost predicate AllTagged(lines: seq<Line>, tag: Tag) {
    forall i :: 0 <= i < |lines| ==> lines[i].tag == tag
  }

  function Other(tag: Tag): Tag {
    if tag == Removed then Added else Removed
  }

  /** How many of the first n lines stand on a side. */
  ghost function Size(lines: seq<Line>, other: Tag, n: nat): nat
    requires n <= |lines|
  {
    if n == 0 then 0 else Size(lines, other, n - 1) + if lines[n - 1].tag == other then 0 else 1
  }

  /** A line stands on its side behind as many lines as its number says. */
  lemma {:induction false} TextAtNumber(lines: seq<Line>, other: Tag, i: nat, n: nat)
    requires i < n <= |lines| && lines[i].tag != other
    ensures Size(lines, other, i) < |SideUpTo(lines, other, n)|
    ensures SideUpTo(lines, other, n)[Size(lines, other, i)] == lines[i].text
  {
    SizeIsLength(lines, other, n - 1);
    if i < n - 1 {
      TextAtNumber(lines, other, i, n - 1);
    }
  }

  lemma {:induction false} SizeIsLength(lines: seq<Line>, other: Tag, n: nat)
    requires n <= |lines|
    ensures Size(lines, other, n) == |SideUpTo(lines, other, n)|
  {
    if n > 0 {
      SizeIsLength(lines, other, n - 1);
    }
  }

  /** The numbers, on their own side, of those among the first n lines that have a tag; the side
      starts at `from`. */
  ghost function MarksUpTo(lines: seq<Line>, tag: Tag, from: int, n: nat): set<int>
    requires n <= |lines|
  {
    if n == 0 then {}
    else MarksUpTo(lines, tag, from, n - 1) + if lines[n - 1].tag == tag then {from + Size(lines, Other(tag), n - 1)} else {}
  }

  ghost function Marks(lines: seq<Line>, tag: Tag, from: int): set<int> {
    MarksUpTo(lines, tag, from, |lines|)
  }

  /** How common lines are spread: how many stand first, how many last, the longest run of them,
      and whether there is any other line. */
  datatype Shape = Shape(lead: nat, run: nat, longest: nat, edited: bool) {
    function Next(tag: Tag): Shape {
      if tag == Common then Shape(if edited then lead else lead + 1, run + 1, if run < longest then longest else run + 1, edited)
      else Shape(lead, 0, longest, true)
    }
  }

  ghost function ShapeUpTo(lines: seq<Line>, n: nat): Shape
    requires n <= |lines|
  {
    if n == 0 then Shape(0, 0, 0, false) else ShapeUpTo(lines, n - 1).Next(lines[n - 1].tag)
  }

  ghost function ShapeOf(lines: seq<Line>): Shape {
    ShapeUpTo(lines, |lines|)
  }

  /** What a shape says about the lines themselves. */
  lemma {:induction false} ShapeMeaning(lines: seq<Line>, n: nat)
    requires n <= |lines|
    ensures var s := ShapeUpTo(lines, n);
            && s.lead <= n && s.run <= n
            && (s.edited <==> exists k :: 0 <= k < n && lines[k].tag != Common)
            // the first `lead` and the last `run` lines are common, and the ones next to them are not
            && (forall k :: 0 <= k < s.lead ==> lines[k].tag == Common) && (s.lead < n ==> lines[s.lead].tag != Common)
            && (forall k :: n - s.run <= k < n ==> lines[k].tag == Common) && (s.run < n ==> lines[n - s.run - 1].tag != Common)
            // no run of common lines is longer than `longest`
            && s.run <= s.longest
            && (forall i, j :: 0 <= i <= j <= n && AllCommon(lines, i, j) ==> j - i <= s.longest)
  {
    if n > 0 {
      ShapeMeaning(lines, n - 1);
      var s, s' := ShapeUpTo(lines, n - 1), ShapeUpTo(lines, n);
      forall i, j | 0 <= i <= j <= n && AllCommon(lines, i, j)
        ensures j - i <= s'.longest
      {
        if j < n {
          assert AllCommon(lines, i, j);
        } else if i < n {
          assert lines[n - 1].tag == Common;
          RunIsLongest(lines, i, n, s.run);
        }
      }
    }
  }

  lemma RunIsLongest(lines: seq<Line>, i: nat, n: nat, run: nat)
    requires i < n <= |lines| && AllCommon(lines, i, n) && run < n
    requires run < n - 1 ==> lines[n - 1 - run - 1].tag != Common
    ensures n - i <= run + 1
  {
  }

  ghost predicate AllCommon(lines: seq<Line>, i: nat, j: nat)
    requires i <= j <= |lines|
  {
    forall k :: i <= k < j ==> lines[k].tag == Common
  }

  /** In every block of edits the removals stand before the additions. */
  ghost predicate Grouped(lines: seq<Line>) {
    forall i :: 0 < i < |lines| && lines[i - 1].tag == Added ==> lines[i].tag != Removed
  }

  // ---------- One more line ----------

  ghost predicate SamePrefix(a: seq<Line>, b: seq<Line>, n: nat) {
    n <= |a| && n <= |b| && forall i :: 0 <= i < n ==> a[i] == b[i]
  }

  lemma {:induction false} PrefixSide(a: seq<Line>, b: seq<Line>, other: Tag, n: nat)
    requires SamePrefix(a, b, n)
    ensures SideUpTo(a, other, n) == SideUpTo(b, other, n) && Size(a, other, n) == Size(b, other, n)
  {
    if n > 0 {
      PrefixSide(a, b, other, n - 1);
    }
  }

  lemma {:induction false} PrefixMarks(a: seq<Line>, b: seq<Line>, tag: Tag, from: int, n: nat)
    requires SamePrefix(a, b, n)
    ensures MarksUpTo(a, tag, from, n) == MarksUpTo(b, tag, from, n)
  {
    if n > 0 {
      PrefixSide(a, b, Other(tag), n - 1);
      PrefixMarks(a, b, tag, from, n - 1);
    }
  }

  lemma {:induction false} PrefixShape(a: seq<Line>, b: seq<Line>, n: nat)
    requires SamePrefix(a, b, n)
    ensures ShapeUpTo(a, n) == ShapeUpTo(b, n)
  {
    if n > 0 {
      PrefixShape(a, b, n - 1);
    }
  }

  lemma {:induction false} PrefixCount(a: seq<Line>, b: seq<Line>, tag: Tag, n: nat)
    requires SamePrefix(a, b, n)
    ensures CountUpTo(a, tag, n) == CountUpTo(b, tag, n)
  {
    if n > 0 {
      PrefixCount(a, b, tag, n - 1);
    }
  }

  /** after is lines with one more line at a place behind which only added lines stand; a line goes
      before added ones only if it is removed. */
  ghost predicate OneMore(lines: seq<Line>, at: nat, line: Line, after: seq<Line>) {
    && at <= |lines| && |after| == |lines| + 1 && SamePrefix(lines, after, at) && after[at] == line
    && (forall i :: at < i < |after| ==> after[i] == lines[i - 1])
    && (forall i :: at <= i < |lines| ==> lines[i].tag == Added)
    && (at < |lines| ==> line.tag == Removed)
  }

  /** Added lines mark nothing as removed and do not stand on the old side. */
  lemma {:induction false} AddedTail(lines: seq<Line>, at: nat, from: int, n: nat)
    requires at <= n <= |lines| && forall i :: at <= i < n ==> lines[i].tag == Added
    ensures SideUpTo(lines, Added, n) == SideUpTo(lines, Added, at) && Size(lines, Added, n) == Size(lines, Added, at)
    ensures MarksUpTo(lines, Removed, from, n) == MarksUpTo(lines, Removed, from, at)
  {
    if n > at {
      AddedTail(lines, at, from, n - 1);
    }
  }

  /** A removed line leaves the new side and its numbers as they were. */
  lemma {:induction false} ShiftedTail(lines: seq<Line>, after: seq<Line>, at: nat, line: Line, from: int, n: nat)
    requires OneMore(lines, at, line, after) && line.tag == Removed && at <= n <= |lines|
    ensures SideUpTo(after, Removed, n + 1) == SideUpTo(lines, Removed, n) && Size(after, Removed, n + 1) == Size(lines, Removed, n)
    ensures MarksUpTo(after, Added, from, n + 1) == MarksUpTo(lines, Added, from, n)
  {
    if n == at {
      PrefixSide(lines, after, Removed, at);
      PrefixMarks(lines, after, Added, from, at);
    } else {
      ShiftedTail(lines, after, at, line, from, n - 1);
    }
  }

  lemma OldSideOneMore(lines: seq<Line>, at: nat, line: Line, after: seq<Line>, from: int)
    requires OneMore(lines, at, line, after)
    ensures OldSide(after) == OldSide(lines) + (if line.tag == Added then [] else [line.text])
    ensures Marks(after, Removed, from) == Marks(lines, Removed, from) + if line.tag == Removed then {from + |OldSide(lines)|} else {}
  {
    AddedTail(after, at + 1, from, |after|);
    AddedTail(lines, at, from, |lines|);
    PrefixSide(lines, after, Added, at);
    PrefixMarks(lines, after, Removed, from, at);
    SizeIsLength(lines, Added, |lines|);
  }

  lemma NewSideOneMore(lines: seq<Line>, at: nat, line: Line, after: seq<Line>, from: int)
    requires OneMore(lines, at, line, after)
    ensures NewSide(after) == NewSide(lines) + (if line.tag == Removed then [] else [line.text])
    ensures Marks(after, Added, from) == Marks(lines, Added, from) + if line.tag == Added then {from + |NewSide(lines)|} else {}
  {
    if line.tag == Removed {
      ShiftedTail(lines, after, at, line, from, |lines|);
    } else {
      PrefixSide(lines, after, Removed, at);
      PrefixMarks(lines, after, Added, from, at);
      SizeIsLength(lines, Removed, |lines|);
    }
  }

  lemma {:induction false} CountOneMore(lines: seq<Line>, at: nat, line: Line, after: seq<Line>, tag: Tag, n: nat)
    requires OneMore(lines, at, line, after) && at <= n <= |lines|
    ensures CountUpTo(after, tag, n + 1) == CountUpTo(lines, tag, n) + if line.tag == tag then 1 else 0
  {
    if n == at {
      PrefixCount(lines, after, tag, at);
    } else {
      CountOneMore(lines, at, line, after, tag, n - 1);
    }
  }

  lemma {:induction false} ShapeOneMore(lines: seq<Line>, at: nat, line: Line, after: seq<Line>, n: nat)
    requires OneMore(lines, at, line, after) && at <= n <= |lines|
    ensures ShapeUpTo(after, n + 1) == ShapeUpTo(lines, n).Next(line.tag)
  {
    if n == at {
      PrefixShape(lines, after, at);
    } else {
      ShapeOneMore(lines, at, line, after, n - 1);
    }
  }

  lemma GroupedOneMore(lines: seq<Line>, at: nat, line: Line, after: seq<Line>)
    requires OneMore(lines, at, line, after) && Grouped(lines)
    requires line.tag == Removed && at > 0 ==> lines[at - 1].tag != Added
    ensures Grouped(after)
  {
    assert forall i :: 0 <= i < at ==> after[i] == lines[i];
  }

  /** What one more line means for the lines of a hunk: it comes last on its sides and gets the next
      number there. */
  ghost predicate Pushed(lines: seq<Line>, line: Line, after: seq<Line>) {
    && Grouped(after) && ShapeOf(after) == ShapeOf(lines).Next(line.tag)
    && (forall tag :: Count(after, tag) == Count(lines, tag) + if line.tag == tag then 1 else 0)
    && OldSide(after) == OldSide(lines) + (if line.tag == Added then [] else [line.text])
    && NewSide(after) == NewSide(lines) + (if line.tag == Removed then [] else [line.text])
    && (forall from: int :: Marks(after, Removed, from) ==
          Marks(lines, Removed, from) + if line.tag == Removed then {from + |OldSide(lines)|} else {})
    && (forall from: int :: Marks(after, Added, from) ==
          Marks(lines, Added, from) + if line.tag == Added then {from + |NewSide(lines)|} else {})
  }

  lemma OneMoreIsPushed(lines: seq<Line>, at: nat, line: Line, after: seq<Line>)
    requires OneMore(lines, at, line, after) && Grouped(lines)
    requires line.tag == Removed && at > 0 ==> lines[at - 1].tag != Added
    ensures Pushed(lines, line, after)
  {
    GroupedOneMore(lines, at, line, after);
    ShapeOneMore(lines, at, line, after, |lines|);
    forall tag
      ensures Count(after, tag) == Count(lines, tag) + if line.tag == tag then 1 else 0
    {
      CountOneMore(lines, at, line, after, tag, |lines|);
    }
    forall from: int
      ensures Marks(after, Removed, from) == Marks(lines, Removed, from) + if line.tag == Removed then {from + |OldSide(lines)|} else {}
    {
      OldSideOneMore(lines, at, line, after, from);
    }
    forall from: int
      ensures Marks(after, Added, from) == Marks(lines, Added, from) + if line.tag == Added then {from + |NewSide(lines)|} else {}
    {
      NewSideOneMore(lines, at, line, after, from);
    }
    OldSideOneMore(lines, at, line, after, 0);
    NewSideOneMore(lines, at, line, after, 0);
  }

  // ---------- Hunks as they are built ----------

  /** The header counts the lines of each side that has edits. */
  ghost predicate HeaderFits(h: PrintedHunk, leftStart: nat, rightStart: nat) {
    var removes, adds, common := Count(h.lines, Removed), Count(h.lines, Added), Count(h.lines, Common);
    && h.left == (if removes == 0 then None else Some(Range(leftStart, removes + common)))
    && h.right == (if adds == 0 then None else Some(Range(rightStart, adds + common)))
  }

  ghost predicate HasTag(lines: seq<Line>, tag: Tag) {
    exists i :: 0 <= i < |lines| && lines[i].tag == tag
  }

  lemma {:induction false} CountTags(lines: seq<Line>, tag: Tag, n: nat)
    requires n <= |lines|
    ensures CountUpTo(lines, tag, n) > 0 <==> exists i :: 0 <= i < n && lines[i].tag == tag
  {
    if n > 0 {
      CountTags(lines, tag, n - 1);
    }
  }

  /** What the header says of lines that begin at the given places. */
  ghost predicate Headed(h: PrintedHunk, leftStart: int, rightStart: int) {
    && (h.left.Some? <==> HasTag(h.lines, Removed))
    && (h.right.Some? <==> HasTag(h.lines, Added))
    && (h.left.Some? ==> h.left.value.start == leftStart && h.left.value.length == |OldSide(h.lines)|)
    && (h.right.Some? ==> h.right.value.start == rightStart && h.right.value.length == |NewSide(h.lines)|)
  }

  lemma HeaderTells(h: PrintedHunk, leftStart: nat, rightStart: nat)
    requires HeaderFits(h, leftStart, rightStart)
    ensures Headed(h, leftStart, rightStart)
  {
    var n := |h.lines|;
    CountTotal(h.lines, n);
    CountTags(h.lines, Removed, n);
    CountTags(h.lines, Added, n);
    SideLength(h.lines, Added, n);
    SideLength(h.lines, Removed, n);
  }

  class Hunk {
    const leftStart: nat
    const rightStart: nat
    var adds: nat
    var removes: nat
    var common: nat
    var hunk: seq<Line>
    var hunkAdds: seq<Line>
    var hunkRemoves: seq<Line>

    /** The lines as they will be printed. */
    ghost function Lines(): seq<Line>
      reads this
    {
      hunk + hunkRemoves + hunkAdds
    }

    ghost predicate Valid()
      reads this
    {
      && AllTagged(hunkRemoves, Removed) && AllTagged(hunkAdds, Added)
      && Grouped(Lines())
      && (hunk != [] ==> hunk[|hunk| - 1].tag == Common)
      && common == Count(Lines(), Common) && removes == Count(Lines(), Removed) && adds == Count(Lines(), Added)
    }

    constructor (left: nat, right: nat)
      ensures Valid() && leftStart == left && rightStart == right && Lines() == []
    {
      leftStart, rightStart := left, right;
      adds, removes, common := 0, 0, 0;
      hunk, hunkAdds, hunkRemoves := [], [], [];
    }

    method FlushEdits()
      requires AllTagged(hunkRemoves, Removed) && AllTagged(hunkAdds, Added)
      modifies `hunk, `hunkAdds, `hunkRemoves
      ensures hunk == old(Lines()) && hunkRemoves == [] && hunkAdds == []
    {
      hunk := hunk + hunkRemoves;
      hunkRemoves := [];
      hunk := hunk + hunkAdds;
      hunkAdds := [];
    }

    /** A pushed line comes after everything pushed before, on its sides and in its numbering. */
    method PushLine(edit: Tag, line: string)
      requires Valid()
      modifies this
      ensures Valid() && Pushed(old(Lines()), Line(edit, line), Lines())
      ensures common == old(common) + (if edit == Common then 1 else 0)
      ensures removes == old(removes) + (if edit == Removed then 1 else 0)
      ensures adds == old(adds) + (if edit == Added then 1 else 0)
    {
      ghost var after := LinesWith(hunk, hunkRemoves, hunkAdds, Line(edit, line));
      match edit {
        case Common =>
          common := common + 1;
          FlushEdits();
          hunk := hunk + [Line(Common, line)];
        case Removed =>
          removes := removes + 1;
          hunkRemoves := hunkRemoves + [Line(Removed, line)];
        case Added =>
          adds := adds + 1;
          hunkAdds := hunkAdds + [Line(Added, line)];
      }
      assert Lines() == after;
    }

    predicate HasEdits()
      reads this
    {
      adds > 0 || removes > 0
    }

    method PrintTo() returns (printed: PrintedHunk)
      requires Valid()
      modifies this
      ensures printed.lines == old(Lines()) && Grouped(printed.lines)
      ensures HeaderFits(printed, leftStart, rightStart)
      // in terms of the lines: a side is shown exactly if it has edits, with all its lines
      ensures printed.left.Some? <==> exists k :: 0 <= k < |printed.lines| && printed.lines[k].tag == Removed
      ensures printed.right.Some? <==> exists k :: 0 <= k < |printed.lines| && printed.lines[k].tag == Added
      ensures printed.left.Some? ==> printed.left.value == Range(leftStart, |OldSide(printed.lines)|)
      ensures printed.right.Some? ==> printed.right.value == Range(rightStart, |NewSide(printed.lines)|)
      ensures Count(printed.lines, Removed) == old(removes) && Count(printed.lines, Added) == old(adds)
    {
      FlushEdits();
      printed := PrintedHunk(if removes > 0 then Some(Range(leftStart, removes + common)) else None,
                             if adds > 0 then Some(Range(rightStart, adds + common)) else None,
                             hunk);
      HeaderTells(printed, leftStart, rightStart);
    }
  }

  /** The place of a new line: removed lines go before the added ones that are pending. */
  ghost function WithLine(h: seq<Line>, removes: seq<Line>, adds: seq<Line>, line: Line): seq<Line> {
    match line.tag
    case Common => h + removes + adds + [line]
    case Removed => h + (removes + [line]) + adds
    case Added => h + removes + (adds + [line])
  }

  lemma LinesWith(h: seq<Line>, removes: seq<Line>, adds: seq<Line>, line: Line) returns (after: seq<Line>)
    requires AllTagged(removes, Removed) && AllTagged(adds, Added) && Grouped(h + removes + adds)
    requires h != [] ==> h[|h| - 1].tag == Common
    ensures after == WithLine(h, removes, adds, line) && Pushed(h + removes + adds, line, after)
  {
    var lines, front := h + removes + adds, h + removes;
    after := WithLine(h, removes, adds, line);
    var at := if line.tag == Removed then |front| else |lines|;
    assert line.tag == Removed && at > 0 ==> lines[at - 1] == front[at - 1];
    OneMoreIsPushed(lines, at, line, after);
  }

  // ---------- Applying a diff ----------

  datatype Patching = Patching(pos: nat, out: seq<string>)

  /** One hunk, placed by whichever start lines its header shows and checked against the rest. */
  ghost function ApplyHunk(left: seq<string>, s: Patching, h: PrintedHunk): Option<Patching> {
    if h.left.None? && h.right.None? then None
    else
      var gap := if h.left.Some? then h.left.value.start - 1 - s.pos else h.right.value.start - 1 - |s.out|;
      var from, olds, news := s.pos + gap, OldSide(h.lines), NewSide(h.lines);
      if && 0 <= gap && from + |olds| <= |left| && left[from..from + |olds|] == olds
         && (h.left.Some? ==> h.left.value.length == |olds|)
         && (h.right.Some? ==> h.right.value == Range(|s.out| + gap + 1, |news|))
      then Some(Patching(from + |olds|, s.out + left[s.pos..from] + news))
      else None
  }

  ghost function ApplyHunks(left: seq<string>, hunks: seq<PrintedHunk>): Option<Patching> {
    if hunks == [] then Some(Patching(0, []))
    else
      var n := |hunks| - 1;
      var before := ApplyHunks(left, hunks[..n]);
      if before.None? then None else ApplyHunk(left, before.value, hunks[n])
  }

  /** The whole diff: copy what no hunk touches. None if some hunk does not apply. */
  ghost function Patch(left: seq<string>, hunks: seq<PrintedHunk>): Option<seq<string>> {
    var s := ApplyHunks(left, hunks);
    if s.None? || s.value.pos > |left| then None else Some(s.value.out + left[s.value.pos..])
  }

  /** The numbers of the marked lines of all hunks, by where the hunks apply. */
  ghost function AllMarks(left: seq<string>, hunks: seq<PrintedHunk>, tag: Tag): set<int> {
    if hunks == [] then {}
    else
      AllMarks(left, hunks[..|hunks| - 1], tag) + HunkMarks(ApplyHunks(left, hunks), hunks[|hunks| - 1], tag)
  }

  /** The numbers of the marked lines of a hunk that applied up to here. */
  ghost function HunkMarks(s: Option<Patching>, h: PrintedHunk, tag: Tag): set<int> {
    if s.None? then {}
    else Marks(h.lines, tag, 1 + if tag == Removed then s.value.pos - |OldSide(h.lines)| else |s.value.out| - |NewSide(h.lines)|)
  }

  predicate TakesLine(e: EditType) {
    e.Remove? || e.Replace?
  }

  predicate PutsLine(e: EditType) {
    e.Add? || e.Replace?
  }

  /** The numbers of the lines that the edits from e on take away, from position l of left on. */
  ghost function RemovedFrom(edits: seq<EditType>, e: nat, l: nat): set<int>
    requires e <= |edits|
    decreases |edits| - e
  {
    if e == |edits| then {}
    else RemovedFrom(edits, e + 1, NextLeft(edits[e], l)) + if TakesLine(edits[e]) then {l + 1} else {}
  }

  /** The numbers of the lines that the edits from e on put in, from position r of right on. */
  ghost function AddedFrom(edits: seq<EditType>, e: nat, r: nat): set<int>
    requires e <= |edits|
    decreases |edits| - e
  {
    if e == |edits| then {}
    else AddedFrom(edits, e + 1, NextRight(edits[e], r)) + if PutsLine(edits[e]) then {r + 1} else {}
  }

  // ---------- Building the diff ----------

  /** The position after the run of matches that starts at e. */
  ghost function MatchesEnd(edits: seq<EditType>, e: nat): (n: nat)
    requires e <= |edits|
    ensures e <= n <= |edits| && (n < |edits| ==> !edits[n].Match?)
    decreases |edits| - e
  {
    if e < |edits| && edits[e].Match? then MatchesEnd(edits, e + 1) else e
  }

  /** There is no further edit, or it lies at least `context` matches ahead. */
  ghost predicate FarFromNextEdit(edits: seq<EditType>, e: nat, context: nat)
    requires e <= |edits|
  {
    MatchesEnd(edits, e) == |edits| || MatchesEnd(edits, e) - e >= context
  }

  /** The script positions: what is left of the script turns the rest of left into the rest of right. */
  ghost predicate At(edits: seq<EditType>, left: seq<string>, right: seq<string>, e: nat, l: nat, r: nat)
    decreases |edits| - e
  {
    && e <= |edits| && l <= |left| && r <= |right|
    && if e == |edits| then l == |left| && r == |right|
       else
         && (!edits[e].Add? ==> l < |left|) && (!edits[e].Remove? ==> r < |right|)
         && (edits[e].Match? ==> left[l] == right[r])
         && At(edits, left, right, e + 1, NextLeft(edits[e], l), NextRight(edits[e], r))
  }

  function NextLeft(e: EditType, l: nat): nat {
    if e.Add? then l else l + 1
  }

  function NextRight(e: EditType, r: nat): nat {
    if e.Remove? then r else r + 1
  }

  lemma {:induction false} ScriptPositions(edits: seq<EditType>, left: seq<string>, right: seq<string>, e: nat, l: nat, r: nat)
    requires e <= |edits| && l <= |left| && r <= |right| && Transforms(edits[e..], left[l..], right[r..])
    ensures At(edits, left, right, e, l, r)
    decreases |edits| - e
  {
    if e < |edits| {
      assert edits[e..][1..] == edits[e + 1..];
      assert l < |left| ==> left[l..][1..] == left[l + 1..];
      assert r < |right| ==> right[r..][1..] == right[r + 1..];
      ScriptPositions(edits, left, right, e + 1, NextLeft(edits[e], l), NextRight(edits[e], r));
    }
  }

  /** The lines that edits take away and put in. */
  datatype Load = Load(removed: set<int>, added: set<int>)

  ghost function LoadFrom(edits: seq<EditType>, e: nat, l: nat, r: nat): Load
    requires e <= |edits|
  {
    Load(RemovedFrom(edits, e, l), AddedFrom(edits, e, r))
  }

  /** From either position on the edits take and put the same lines. */
  ghost predicate SameRest(edits: seq<EditType>, e0: nat, l0: nat, r0: nat, e: nat, l: nat, r: nat)
  {
    e0 <= |edits| && e <= |edits| && LoadFrom(edits, e, l, r) == LoadFrom(edits, e0, l0, r0)
  }

  method SkipMatches(edits: seq<EditType>, left: seq<string>, right: seq<string>, e0: nat, l0: nat, r0: nat)
    returns (e: nat, l: nat, r: nat)
    requires At(edits, left, right, e0, l0, r0)
    ensures At(edits, left, right, e, l, r) && e == MatchesEnd(edits, e0)
    ensures l0 <= l && r0 <= r && l - l0 == r - r0 == e - e0 && left[l0..l] == right[r0..r]
    ensures SameRest(edits, e0, l0, r0, e, l, r)
  {
    e, l, r := e0, l0, r0;
    while e < |edits| && edits[e] == Match
      invariant At(edits, left, right, e, l, r) && e0 <= e && MatchesEnd(edits, e) == MatchesEnd(edits, e0)
      invariant l0 <= l && r0 <= r && l - l0 == r - r0 == e - e0 && left[l0..l] == right[r0..r]
      invariant SameRest(edits, e0, l0, r0, e, l, r)
    {
      assert left[l0..l + 1] == left[l0..l] + [left[l]] && right[r0..r + 1] == right[r0..r] + [right[r]];
      l, r, e := l + 1, r + 1, e + 1;
    }
  }

  /** The hunk shows left[ls..l] and right[rs..r]. */
  ghost predicate Shows(hunk: Hunk, left: seq<string>, right: seq<string>, ls: nat, l: nat, rs: nat, r: nat)
    reads hunk
  {
    && ls <= l <= |left| && rs <= r <= |right| && hunk.Valid()
    && OldSide(hunk.Lines()) == left[ls..l] && NewSide(hunk.Lines()) == right[rs..r]
  }

  /** The n lines before position l on the left equal those before r on the right. */
  ghost predicate SameBefore(left: seq<string>, right: seq<string>, l: nat, r: nat, n: nat) {
    n <= l <= |left| && n <= r <= |right| && left[l - n..l] == right[r - n..r]
  }

  /** A run of equal lines extends the equal lines before it. */
  lemma SameRun(left: seq<string>, right: seq<string>, l0: nat, r0: nat, l: nat, r: nat, n: nat)
    requires l0 <= l <= |left| && r0 <= r <= |right| && l - l0 == r - r0
    requires left[l0..l] == right[r0..r] && SameBefore(left, right, l0, r0, n)
    ensures SameBefore(left, right, l, r, n + l - l0)
  {
    assert left[l0 - n..l] == left[l0 - n..l0] + left[l0..l];
    assert right[r0 - n..r] == right[r0 - n..r0] + right[r0..r];
  }

  lemma SameSuffix(left: seq<string>, right: seq<string>, l: nat, r: nat, n: nat, edit: EditType)
    requires SameBefore(left, right, l, r, n)
    requires (!edit.Add? ==> l < |left|) && (!edit.Remove? ==> r < |right|)
    requires edit.Match? ==> left[l] == right[r]
    ensures SameBefore(left, right, NextLeft(edit, l), NextRight(edit, r), if edit.Match? then n + 1 else 0)
  {
    if edit.Match? {
      SameRun(left, right, l, r, l + 1, r + 1, n);
    }
  }

  lemma SameLess(left: seq<string>, right: seq<string>, l: nat, r: nat, n: nat, m: nat)
    requires SameBefore(left, right, l, r, n) && m <= n
    ensures SameBefore(left, right, l, r, m)
  {
    assert left[l - m..l] == left[l - n..l][n - m..];
    assert right[r - m..r] == right[r - n..r][n - m..];
  }

  lemma SameLine(left: seq<string>, right: seq<string>, l: nat, r: nat, n: nat, i: nat)
    requires SameBefore(left, right, l, r, n) && 0 < i <= n
    ensures left[l - i] == right[r - i]
  {
    assert left[l - i] == left[l - n..l][n - i];
    assert right[r - i] == right[r - n..r][n - i];
  }

  method OpenHunk(left: seq<string>, ghost right: seq<string>, l: nat, r: nat, prefix: nat) returns (hunk: Hunk)
    requires SameBefore(left, right, l, r, prefix)
    ensures fresh(hunk) && hunk.leftStart == l - prefix + 1 && hunk.rightStart == r - prefix + 1
    ensures Shows(hunk, left, right, l - prefix, l, r - prefix, r)
    ensures hunk.adds == 0 && hunk.removes == 0 && ShapeOf(hunk.Lines()) == Shape(prefix, prefix, prefix, false)
    ensures Marks(hunk.Lines(), Removed, l - prefix + 1) == Marks(hunk.Lines(), Added, r - prefix + 1) == {}
  {
    hunk := new Hunk(l - prefix + 1, r - prefix + 1);
    var i := prefix;
    while i > 0
      invariant 0 <= i <= prefix
      invariant Shows(hunk, left, right, l - prefix, l - i, r - prefix, r - i)
      invariant hunk.adds == 0 && hunk.removes == 0
      invariant ShapeOf(hunk.Lines()) == Shape(prefix - i, prefix - i, prefix - i, false)
      invariant Marks(hunk.Lines(), Removed, l - prefix + 1) == Marks(hunk.Lines(), Added, r - prefix + 1) == {}
    {
      SameLine(left, right, l, r, prefix, i);
      PushLeft(hunk, Common, left, right, l - i, r - i, l - prefix, r - prefix);
      i := i - 1;
    }
  }

  lemma Extend(s: seq<string>, i: nat, j: nat)
    requires i <= j < |s|
    ensures s[i..j + 1] == s[i..j] + [s[j]]
  {
  }

  /** The next line of left is pushed, as removed or, if right goes on with it too, as common. */
  method PushLeft(hunk: Hunk, tag: Tag, left: seq<string>, ghost right: seq<string>, l: nat, r: nat, ghost ls: nat, ghost rs: nat)
    requires Shows(hunk, left, right, ls, l, rs, r) && tag != Added && l < |left|
    requires tag == Common ==> r < |right| && left[l] == right[r]
    modifies hunk
    ensures Shows(hunk, left, right, ls, l + 1, rs, if tag == Common then r + 1 else r)
    ensures hunk.removes == old(hunk.removes) + (if tag == Removed then 1 else 0) && hunk.adds == old(hunk.adds)
    ensures ShapeOf(hunk.Lines()) == old(ShapeOf(hunk.Lines())).Next(tag)
    ensures Marks(hunk.Lines(), Removed, ls + 1) ==
            old(Marks(hunk.Lines(), Removed, ls + 1)) + if tag == Removed then {l + 1} else {}
    ensures Marks(hunk.Lines(), Added, rs + 1) == old(Marks(hunk.Lines(), Added, rs + 1))
  {
    Extend(left, ls, l);
    if tag == Common { Extend(right, rs, r); }
    hunk.PushLine(tag, left[l]);
  }

  /** The next line of right is pushed as added. */
  method PushRight(hunk: Hunk, left: seq<string>, right: seq<string>, l: nat, r: nat, ghost ls: nat, ghost rs: nat)
    requires Shows(hunk, left, right, ls, l, rs, r) && r < |right|
    modifies hunk
    ensures Shows(hunk, left, right, ls, l, rs, r + 1)
    ensures hunk.removes == old(hunk.removes) && hunk.adds == old(hunk.adds) + 1
    ensures ShapeOf(hunk.Lines()) == old(ShapeOf(hunk.Lines())).Next(Added)
    ensures Marks(hunk.Lines(), Removed, ls + 1) == old(Marks(hunk.Lines(), Removed, ls + 1))
    ensures Marks(hunk.Lines(), Added, rs + 1) == old(Marks(hunk.Lines(), Added, rs + 1)) + {r + 1}
  {
    Extend(right, rs, r);
    hunk.PushLine(Added, right[r]);
  }

  /** One edit is pushed: its removed or common line, then its added line. */
  method PushEdit(hunk: Hunk, edit: EditType, left: seq<string>, right: seq<string>, l: nat, r: nat,
                  ghost ls: nat, ghost rs: nat)
    requires Shows(hunk, left, right, ls, l, rs, r)
    requires (!edit.Add? ==> l < |left|) && (!edit.Remove? ==> r < |right|)
    requires edit.Match? ==> left[l] == right[r]
    modifies hunk
    ensures Shows(hunk, left, right, ls, NextLeft(edit, l), rs, NextRight(edit, r))
    ensures hunk.removes == old(hunk.removes) + (if TakesLine(edit) then 1 else 0)
    ensures hunk.adds == old(hunk.adds) + (if PutsLine(edit) then 1 else 0)
    ensures ShapeOf(hunk.Lines()) == old(ShapeOf(hunk.Lines())).Next(if edit.Match? then Common else Added)
    ensures Marks(hunk.Lines(), Removed, ls + 1) ==
            old(Marks(hunk.Lines(), Removed, ls + 1)) + if TakesLine(edit) then {l + 1} else {}
    ensures Marks(hunk.Lines(), Added, rs + 1) ==
            old(Marks(hunk.Lines(), Added, rs + 1)) + if PutsLine(edit) then {r + 1} else {}
  {
    if edit == Match || edit == Remove || edit == Replace {
      PushLeft(hunk, if edit == Match then Common else Removed, left, right, l, r, ls, rs);
    }
    if edit == Add || edit == Replace {
      PushRight(hunk, left, right, if edit == Add then l else l + 1, r, ls, rs);
    }
  }

  method IsFarFromNextEdit(edits: seq<EditType>, e: nat, context: nat) returns (far: bool)
    requires e <= |edits|
    ensures far <==> FarFromNextEdit(edits, e, context)
  {
    var it := e;
    while it < |edits| && edits[it] == Match
      invariant e <= it <= |edits| && MatchesEnd(edits, it) == MatchesEnd(edits, e)
    {
      it := it + 1;
    }
    return it == |edits| || it - e >= context;
  }

  /** The marked lines of a hunk and those of the edits to come make up the load. */
  ghost predicate Carries(lines: seq<Line>, ls: nat, rs: nat, rest: Load, load: Load) {
    && Marks(lines, Removed, ls + 1) + rest.removed == load.removed
    && Marks(lines, Added, rs + 1) + rest.added == load.added
  }

  lemma CarriesAll(lines: seq<Line>, ls: nat, rs: nat, rest: Load, load: Load)
    requires Marks(lines, Removed, ls + 1) == Marks(lines, Added, rs + 1) == {} && rest == load
    ensures Carries(lines, ls, rs, rest, load)
  {
  }

  lemma CarriesOneMore(lines: seq<Line>, after: seq<Line>, ls: nat, rs: nat, load: Load,
                       edits: seq<EditType>, e: nat, l: nat, r: nat)
    requires e < |edits| && Carries(lines, ls, rs, LoadFrom(edits, e, l, r), load)
    requires Marks(after, Removed, ls + 1) == Marks(lines, Removed, ls + 1) + if TakesLine(edits[e]) then {l + 1} else {}
    requires Marks(after, Added, rs + 1) == Marks(lines, Added, rs + 1) + if PutsLine(edits[e]) then {r + 1} else {}
    ensures Carries(after, ls, rs, LoadFrom(edits, e + 1, NextLeft(edits[e], l), NextRight(edits[e], r)), load)
  {
  }

  /** The inner loop's state: the hunk shows everything from its start to the current position. */
  ghost predicate Filling(hunk: Hunk, edits: seq<EditType>, left: seq<string>, right: seq<string>,
                          e0: nat, ls: nat, rs: nat, e: nat, l: nat, r: nat, nSuffix: nat, load: Load)
    reads hunk
  {
    && e0 <= e && At(edits, left, right, e, l, r)
    && Shows(hunk, left, right, ls, l, rs, r)
    && Carries(hunk.Lines(), ls, rs, LoadFrom(edits, e, l, r), load)
    && SameBefore(left, right, l, r, nSuffix)
    && (e == e0 ==> nSuffix == 0) && (hunk.HasEdits() <==> e > e0)
  }

  /** The shape of a hunk that is being filled: it starts with `prefix` common lines, and a run of
      common lines grows beyond the context only if the next edit is near. */
  ghost predicate Framing(s: Shape, context: nat, prefix: nat, edits: seq<EditType>, e0: nat, e: nat, nSuffix: nat)
  {
    && e0 <= e <= |edits| && s.lead == prefix <= context && (s.edited <==> e > e0)
    && (if s.edited then s.run == nSuffix else s.run == prefix && nSuffix == 0)
    && s.longest <= LongestRun(context)
    && (nSuffix <= context || (MatchesEnd(edits, e) < |edits| && nSuffix + MatchesEnd(edits, e) - e < 2 * context))
  }

  /** Two edits share a hunk if fewer than twice the context lines lie between them. */
  function LongestRun(context: nat): nat {
    if context == 0 then 0 else 2 * context - 1
  }

  lemma FramingStarts(context: nat, prefix: nat, edits: seq<EditType>, e: nat)
    requires e <= |edits| && prefix <= context
    ensures Framing(Shape(prefix, prefix, prefix, false), context, prefix, edits, e, e, 0)
  {
  }

  lemma FramingStep(s: Shape, context: nat, prefix: nat, edits: seq<EditType>, e0: nat, e: nat, nSuffix: nat)
    requires Framing(s, context, prefix, edits, e0, e, nSuffix) && e < |edits| && (e == e0 ==> !edits[e].Match?)
    requires nSuffix >= context ==> !FarFromNextEdit(edits, e, context)
    ensures if edits[e].Match? then Framing(s.Next(Common), context, prefix, edits, e0, e + 1, nSuffix + 1)
            else Framing(s.Next(Added), context, prefix, edits, e0, e + 1, 0)
  {
  }

  /** Where filling stops, the hunk ends with exactly the context, or the input does. */
  lemma FramingEnds(s: Shape, context: nat, prefix: nat, edits: seq<EditType>, e0: nat, e: nat, nSuffix: nat)
    requires Framing(s, context, prefix, edits, e0, e, nSuffix)
    requires e < |edits| ==> FarFromNextEdit(edits, e, context) && nSuffix >= context
    ensures nSuffix <= context && (nSuffix == context || e == |edits|)
  {
  }

  lemma FillingStarts(hunk: Hunk, edits: seq<EditType>, left: seq<string>, right: seq<string>,
                      ls: nat, rs: nat, e: nat, l: nat, r: nat)
    requires e <= |edits| && At(edits, left, right, e, l, r) && Shows(hunk, left, right, ls, l, rs, r) && !hunk.HasEdits()
    requires Marks(hunk.Lines(), Removed, ls + 1) == Marks(hunk.Lines(), Added, rs + 1) == {}
    ensures Filling(hunk, edits, left, right, e, ls, rs, e, l, r, 0, LoadFrom(edits, e, l, r))
  {
    CarriesAll(hunk.Lines(), ls, rs, LoadFrom(edits, e, l, r), LoadFrom(edits, e, l, r));
  }

  method FillStep(hunk: Hunk, edits: seq<EditType>, left: seq<string>, right: seq<string>,
                  e: nat, l: nat, r: nat, nSuffix: nat, ghost e0: nat, ghost ls: nat, ghost rs: nat,
                  ghost context: nat, ghost prefix: nat, ghost load: Load)
    returns (l': nat, r': nat, n': nat)
    requires Filling(hunk, edits, left, right, e0, ls, rs, e, l, r, nSuffix, load)
    requires Framing(ShapeOf(hunk.Lines()), context, prefix, edits, e0, e, nSuffix)
    requires e < |edits| && (e == e0 ==> !edits[e].Match?)
    requires nSuffix >= context ==> !FarFromNextEdit(edits, e, context)
    modifies hunk
    ensures Filling(hunk, edits, left, right, e0, ls, rs, e + 1, l', r', n', load)
    ensures Framing(ShapeOf(hunk.Lines()), context, prefix, edits, e0, e + 1, n')
  {
    var edit := edits[e];
    FramingStep(ShapeOf(hunk.Lines()), context, prefix, edits, e0, e, nSuffix);
    SameSuffix(left, right, l, r, nSuffix, edit);
    n' := if edit == Match then nSuffix + 1 else 0;
    ghost var lines := hunk.Lines();
    PushEdit(hunk, edit, left, right, l, r, ls, rs);
    CarriesOneMore(lines, hunk.Lines(), ls, rs, load, edits, e, l, r);
    l', r' := NextLeft(edit, l), NextRight(edit, r);
  }

  method FillHunk(hunk: Hunk, edits: seq<EditType>, left: seq<string>, right: seq<string>, context: nat,
                  e0: nat, l0: nat, r0: nat, ghost ls: nat, ghost rs: nat, ghost prefix: nat, ghost load: Load)
    returns (e: nat, l: nat, r: nat, nSuffix: nat)
    requires Filling(hunk, edits, left, right, e0, ls, rs, e0, l0, r0, 0, load)
    requires Framing(ShapeOf(hunk.Lines()), context, prefix, edits, e0, e0, 0)
    requires e0 < |edits| ==> !edits[e0].Match?
    modifies hunk
    ensures Filling(hunk, edits, left, right, e0, ls, rs, e, l, r, nSuffix, load)
    ensures Framing(ShapeOf(hunk.Lines()), context, prefix, edits, e0, e, nSuffix)
    ensures if context == 0 then e == e0 else e0 < |edits| ==> e0 < e
    ensures e < |edits| ==> FarFromNextEdit(edits, e, context) && nSuffix >= context
  {
    e, l, r, nSuffix := e0, l0, r0, 0;
    while e < |edits|
      invariant Filling(hunk, edits, left, right, e0, ls, rs, e, l, r, nSuffix, load)
      invariant Framing(ShapeOf(hunk.Lines()), context, prefix, edits, e0, e, nSuffix)
      invariant e <= |edits| && (e == e0 ==> nSuffix == 0) && (context == 0 ==> e == e0)
    {
      if nSuffix >= context {
        var far := IsFarFromNextEdit(edits, e, context);
        if far {
          return;
        }
      }
      l, r, nSuffix := FillStep(hunk, edits, left, right, e, l, r, nSuffix, e0, ls, rs, context, prefix, load);
      e := e + 1;
    }
  }

  /** The hunks so far turn left[..l] into right[..r] and carry all edits before e. */
  ghost predicate Progress(edits: seq<EditType>, left: seq<string>, right: seq<string>, hunks: seq<PrintedHunk>,
                           e: nat, l: nat, r: nat)
  {
    && At(edits, left, right, e, l, r)
    && ApplyHunks(left, hunks) == Some(Patching(l, right[..r]))
    && AllMarks(left, hunks, Removed) + RemovedFrom(edits, e, l) == RemovedFrom(edits, 0, 0)
    && AllMarks(left, hunks, Added) + AddedFrom(edits, e, r) == AddedFrom(edits, 0, 0)
    && forall i :: 0 <= i < |hunks| ==> Grouped(hunks[i].lines)
  }

  /** The hunks are a correct patch, and the lines they remove and add are, by their numbers in left and
      right, exactly those that the script takes away and puts in. */
  ghost predicate Complete(edits: seq<EditType>, left: seq<string>, right: seq<string>, hunks: seq<PrintedHunk>) {
    && Patch(left, hunks) == Some(right)
    && AllMarks(left, hunks, Removed) == RemovedFrom(edits, 0, 0)
    && AllMarks(left, hunks, Added) == AddedFrom(edits, 0, 0)
    && forall i :: 0 <= i < |hunks| ==> Grouped(hunks[i].lines)
  }

  /** If only matches remain, what no hunk touches is the rest of right. */
  lemma OnlyMatchesRemain(edits: seq<EditType>, left: seq<string>, right: seq<string>, hunks: seq<PrintedHunk>,
                          e0: nat, l0: nat, r0: nat, l: nat, r: nat)
    requires Progress(edits, left, right, hunks, e0, l0, r0) && At(edits, left, right, |edits|, l, r)
    requires l0 <= l && r0 <= r && left[l0..l] == right[r0..r]
    requires SameRest(edits, e0, l0, r0, |edits|, l, r)
    ensures Complete(edits, left, right, hunks)
  {
    AtEnd(edits, left, right, l, r);
    assert left[l0..] == left[l0..l] && right[r0..] == right[r0..r];
    PatchOfRest(left, right, hunks, l0, r0);
    assert LoadFrom(edits, e0, l0, r0) == LoadFrom(edits, |edits|, l, r) == Load({}, {});
    NothingLeft(AllMarks(left, hunks, Removed), RemovedFrom(edits, e0, l0), RemovedFrom(edits, 0, 0));
    NothingLeft(AllMarks(left, hunks, Added), AddedFrom(edits, e0, r0), AddedFrom(edits, 0, 0));
  }

  lemma AtEnd(edits: seq<EditType>, left: seq<string>, right: seq<string>, l: nat, r: nat)
    requires At(edits, left, right, |edits|, l, r)
    ensures l == |left| && r == |right|
  {
  }

  lemma PatchOfRest(left: seq<string>, right: seq<string>, hunks: seq<PrintedHunk>, l0: nat, r0: nat)
    requires l0 <= |left| && r0 <= |right| && left[l0..] == right[r0..]
    requires ApplyHunks(left, hunks) == Some(Patching(l0, right[..r0]))
    ensures Patch(left, hunks) == Some(right)
  {
    assert right[..r0] + right[r0..] == right;
  }

  lemma NothingLeft(marks: set<int>, rest: set<int>, whole: set<int>)
    requires marks + rest == whole && rest == {}
    ensures marks == whole
  {
  }

  /** A hunk that shows left[ls..l] and right[rs..r] applies after (l0, r0), the gap being matches. */
  lemma HunkApplies(left: seq<string>, right: seq<string>, l0: nat, r0: nat, ls: nat, l: nat, rs: nat, r: nat,
                    h: PrintedHunk)
    requires l0 <= ls <= l <= |left| && r0 <= rs <= r <= |right| && ls - l0 == rs - r0
    requires left[l0..ls] == right[r0..rs]
    requires OldSide(h.lines) == left[ls..l] && NewSide(h.lines) == right[rs..r]
    requires HeaderFits(h, ls + 1, rs + 1) && Count(h.lines, Removed) + Count(h.lines, Added) > 0
    ensures ApplyHunk(left, Patching(l0, right[..r0]), h) == Some(Patching(l, right[..r]))
  {
    SideLength(h.lines, Added, |h.lines|);
    SideLength(h.lines, Removed, |h.lines|);
    CountTotal(h.lines, |h.lines|);
    assert right[..r0] + right[r0..rs] + right[rs..r] == right[..r];
  }

  lemma ApplyOneMore(left: seq<string>, hunks: seq<PrintedHunk>, h: PrintedHunk)
    ensures ApplyHunks(left, hunks + [h]) ==
            if ApplyHunks(left, hunks).None? then None else ApplyHunk(left, ApplyHunks(left, hunks).value, h)
  {
    assert (hunks + [h])[..|hunks|] == hunks;
  }

  lemma MarkOneMore(left: seq<string>, hunks: seq<PrintedHunk>, h: PrintedHunk, tag: Tag, s: Patching)
    requires ApplyHunks(left, hunks + [h]) == Some(s)
    ensures AllMarks(left, hunks + [h], tag) == AllMarks(left, hunks, tag) + HunkMarks(Some(s), h, tag)
  {
    assert (hunks + [h])[..|hunks|] == hunks;
  }

  lemma LoadOneMore(a: set<int>, b: set<int>, c: set<int>, rest: set<int>,
                    whole: set<int>)
    requires b + c == rest && a + rest == whole
    ensures a + b + c == whole
  {
  }

  /** A hunk for left[from..to] starts and ends with `context` common lines, fewer only at the ends
      of the text, and splits where twice as many stand between two edits. */
  ghost predicate Framed(lines: seq<Line>, from: int, to: nat, leftLength: nat, context: nat) {
    var s := ShapeOf(lines);
    && s.edited && s.lead <= context && (s.lead == context || from == 0)
    && s.run <= context && (s.run == context || to == leftLength)
    && s.longest <= LongestRun(context)
  }

  /** Framing in terms of the lines: a hunk has an edited line near either end, at the beginning and at
      the end `context` common lines unless the text ends there, and nowhere twice as many. */
  lemma FramedMeaning(lines: seq<Line>, from: int, to: nat, leftLength: nat, context: nat)
    requires Framed(lines, from, to, leftLength, context) && context > 0
    ensures exists k :: 0 <= k < |lines| && k <= context && lines[k].tag != Common
    ensures exists k :: 0 <= k < |lines| && |lines| - 1 - context <= k && lines[k].tag != Common
    ensures from != 0 ==> |lines| > context && AllCommon(lines, 0, context)
    ensures to != leftLength ==> |lines| > context && AllCommon(lines, |lines| - context, |lines|)
    ensures forall i, j :: 0 <= i <= j <= |lines| && AllCommon(lines, i, j) ==> j - i < 2 * context
  {
    ShapeMeaning(lines, |lines|);
    var s := ShapeOf(lines);
    assert s.lead < |lines| && lines[s.lead].tag != Common;
    assert s.run < |lines| && lines[|lines| - s.run - 1].tag != Common;
  }

  /** Hunk i is framed by the context, and its header tells where it applies. */
  ghost predicate HunkFramed(left: seq<string>, hunks: seq<PrintedHunk>, context: nat, i: nat)
    requires i < |hunks|
  {
    var h, s := hunks[i], ApplyHunks(left, hunks[..i + 1]);
    && s.Some? && Framed(h.lines, s.value.pos - |OldSide(h.lines)|, s.value.pos, |left|, context)
    && Headed(h, s.value.pos - |OldSide(h.lines)| + 1, |s.value.out| - |NewSide(h.lines)| + 1)
  }

  ghost predicate AllFramed(left: seq<string>, hunks: seq<PrintedHunk>, context: nat) {
    forall i :: 0 <= i < |hunks| ==> HunkFramed(left, hunks, context, i)
  }

  /** In terms of the lines: a header shows the range of a side exactly if lines of that side are
      edited, with all lines of the side and where they stand. */
  lemma HeadersTell(left: seq<string>, hunks: seq<PrintedHunk>, context: nat)
    requires AllFramed(left, hunks, context)
    ensures forall i :: 0 <= i < |hunks| ==>
              (hunks[i].left.Some? <==> exists k :: 0 <= k < |hunks[i].lines| && hunks[i].lines[k].tag == Removed)
    ensures forall i :: 0 <= i < |hunks| ==>
              (hunks[i].right.Some? <==> exists k :: 0 <= k < |hunks[i].lines| && hunks[i].lines[k].tag == Added)
    ensures forall i :: 0 <= i < |hunks| && hunks[i].left.Some? ==> hunks[i].left.value.length == |OldSide(hunks[i].lines)|
    ensures forall i :: 0 <= i < |hunks| && hunks[i].right.Some? ==> hunks[i].right.value.length == |NewSide(hunks[i].lines)|
    ensures forall i :: 0 <= i < |hunks| && hunks[i].left.Some? ==>
              && ApplyHunks(left, hunks[..i + 1]).Some?
              && hunks[i].left.value.start == ApplyHunks(left, hunks[..i + 1]).value.pos - |OldSide(hunks[i].lines)| + 1
    ensures forall i :: 0 <= i < |hunks| && hunks[i].right.Some? ==>
              && ApplyHunks(left, hunks[..i + 1]).Some?
              && hunks[i].right.value.start == |ApplyHunks(left, hunks[..i + 1]).value.out| - |NewSide(hunks[i].lines)| + 1
  {
    assert forall i {:trigger hunks[i]} :: 0 <= i < |hunks| ==> HunkFramed(left, hunks, context, i);
  }

  /** The outer loop's state. */
  ghost predicate Diffing(edits: seq<EditType>, left: seq<string>, right: seq<string>, context: nat,
                          hunks: seq<PrintedHunk>, e: nat, l: nat, r: nat)
  {
    && Progress(edits, left, right, hunks, e, l, r)
    && AllFramed(left, hunks, context)
    && Located(edits, left, right, context, hunks != [], e, l, r)
    && (context == 0 ==> hunks == [])
  }

  /** Behind a hunk the next edit is far away, and the lines just before agree. */
  ghost predicate Located(edits: seq<EditType>, left: seq<string>, right: seq<string>, context: nat,
                          started: bool, e: nat, l: nat, r: nat)
  {
    && At(edits, left, right, e, l, r)
    && (!started ==> e == l == r == 0)
    && (started && e < |edits| ==> FarFromNextEdit(edits, e, context) && SameBefore(left, right, l, r, context))
  }

  /** The lines before the next edit that can serve as its context. */
  lemma ContextLines(edits: seq<EditType>, left: seq<string>, right: seq<string>, context: nat,
                     started: bool, e0: nat, l0: nat, r0: nat, e: nat, l: nat, r: nat)
    requires Located(edits, left, right, context, started, e0, l0, r0) && e0 < |edits| && e == MatchesEnd(edits, e0)
    requires l0 <= l <= |left| && r0 <= r <= |right| && l - l0 == r - r0 == e - e0 && left[l0..l] == right[r0..r]
    ensures var prefix := PrefixContext(l, context); SameBefore(left, right, l, r, prefix) && (e < |edits| ==> l - prefix >= l0)
  {
    var known := if started then context else 0;
    SameRun(left, right, l0, r0, l, r, known);
    SameLess(left, right, l, r, known + l - l0, PrefixContext(l, context));
  }

  function PrefixContext(l: nat, context: nat): (prefix: nat)
    ensures prefix <= l && prefix <= context && (prefix == context || prefix == l)
  {
    if l < context then l else context
  }

  /** (e, l, r) is where the run of matches from (e0, l0, r0) ends, and the lines before it can serve
      as context without reaching into the previous hunk. */
  ghost predicate Skipped(edits: seq<EditType>, left: seq<string>, right: seq<string>, context: nat,
                          e0: nat, l0: nat, r0: nat, e: nat, l: nat, r: nat)
  {
    var prefix := PrefixContext(l, context);
    && e0 <= e <= |edits| && At(edits, left, right, e, l, r) && (e < |edits| ==> !edits[e].Match?)
    && SameRest(edits, e0, l0, r0, e, l, r) && SameBefore(left, right, l, r, prefix)
    && (e < |edits| ==>
          && l0 <= l - prefix <= |left| && r0 <= r - prefix <= |right| && l - prefix - l0 == r - prefix - r0
          && left[l0..l - prefix] == right[r0..r - prefix])
  }

  /** Skips to the next edit. */
  method SkipToEdit(edits: seq<EditType>, left: seq<string>, right: seq<string>, ghost context: nat,
                    ghost started: bool, e0: nat, l0: nat, r0: nat)
    returns (e: nat, l: nat, r: nat)
    requires Located(edits, left, right, context, started, e0, l0, r0) && e0 < |edits|
    ensures Skipped(edits, left, right, context, e0, l0, r0, e, l, r)
    ensures l0 <= l && r0 <= r && left[l0..l] == right[r0..r]
  {
    e, l, r := SkipMatches(edits, left, right, e0, l0, r0);
    IsSkipped(edits, left, right, context, started, e0, l0, r0, e, l, r);
  }

  lemma IsSkipped(edits: seq<EditType>, left: seq<string>, right: seq<string>, context: nat,
                  started: bool, e0: nat, l0: nat, r0: nat, e: nat, l: nat, r: nat)
    requires Located(edits, left, right, context, started, e0, l0, r0) && e0 < |edits| && e == MatchesEnd(edits, e0)
    requires At(edits, left, right, e, l, r) && l <= |left| && r <= |right| && SameRest(edits, e0, l0, r0, e, l, r)
    requires l0 <= l && r0 <= r && l - l0 == r - r0 == e - e0 && left[l0..l] == right[r0..r]
    ensures Skipped(edits, left, right, context, e0, l0, r0, e, l, r)
  {
    var prefix := PrefixContext(l, context);
    assert SameBefore(left, right, l, r, prefix) && (e < |edits| ==> l - prefix >= l0) by {
      ContextLines(edits, left, right, context, started, e0, l0, r0, e, l, r);
    }
    if e < |edits| {
      GapBefore(left, right, l0, r0, l, r, prefix);
    }
  }

  lemma GapBefore(left: seq<string>, right: seq<string>, l0: nat, r0: nat, l: nat, r: nat, prefix: nat)
    requires l0 <= l <= |left| && r0 <= r <= |right| && l - l0 == r - r0 && prefix <= l - l0
    requires left[l0..l] == right[r0..r]
    ensures l0 <= l - prefix && r0 <= r - prefix && l - prefix - l0 == r - prefix - r0
    ensures left[l0..l - prefix] == right[r0..r - prefix]
  {
    GapLines(left, right, l0, r0, l - prefix, r - prefix, l, r);
  }

  /** Skips to the next edit and opens a hunk with the lines before it. */
  method StartHunk(edits: seq<EditType>, left: seq<string>, right: seq<string>, context: nat,
                   ghost started: bool, e0: nat, l0: nat, r0: nat)
    returns (hunk: Hunk, e: nat, l: nat, r: nat, prefix: nat)
    requires Located(edits, left, right, context, started, e0, l0, r0) && e0 < |edits|
    ensures Skipped(edits, left, right, context, e0, l0, r0, e, l, r) && prefix == PrefixContext(l, context) && prefix <= r
    ensures l0 <= l && r0 <= r && left[l0..l] == right[r0..r]
    ensures fresh(hunk) && hunk.leftStart == l - prefix + 1 && hunk.rightStart == r - prefix + 1
    ensures Filling(hunk, edits, left, right, e, l - prefix, r - prefix, e, l, r, 0, LoadFrom(edits, e, l, r))
    ensures Framing(ShapeOf(hunk.Lines()), context, prefix, edits, e, e, 0)
  {
    e, l, r := SkipToEdit(edits, left, right, context, started, e0, l0, r0);
    prefix := PrefixContext(l, context);
    hunk := OpenAt(edits, left, right, context, e, l, r, prefix);
  }

  method OpenAt(ghost edits: seq<EditType>, left: seq<string>, ghost right: seq<string>, ghost context: nat,
                ghost e: nat, l: nat, r: nat, prefix: nat)
    returns (hunk: Hunk)
    requires e <= |edits| && At(edits, left, right, e, l, r) && SameBefore(left, right, l, r, prefix) && prefix <= context
    ensures fresh(hunk) && hunk.leftStart == l - prefix + 1 && hunk.rightStart == r - prefix + 1
    ensures Filling(hunk, edits, left, right, e, l - prefix, r - prefix, e, l, r, 0, LoadFrom(edits, e, l, r))
    ensures Framing(ShapeOf(hunk.Lines()), context, prefix, edits, e, e, 0)
  {
    hunk := OpenHunk(left, right, l, r, prefix);
    FramingStarts(context, prefix, edits, e);
    FillingStarts(hunk, edits, left, right, l - prefix, r - prefix, e, l, r);
  }

  /** A printed hunk shows left[ls..l] and right[rs..r], carries the edits from e0 to e, and ends as
      the inner loop leaves it. */
  ghost predicate Filled(h: PrintedHunk, edits: seq<EditType>, left: seq<string>, right: seq<string>, context: nat,
                         prefix: nat, e0: nat, ls: nat, rs: nat, e: nat, l: nat, r: nat, nSuffix: nat, load: Load)
  {
    && e0 < e <= |edits| && ls <= l <= |left| && rs <= r <= |right| && At(edits, left, right, e, l, r)
    && OldSide(h.lines) == left[ls..l] && NewSide(h.lines) == right[rs..r]
    && HeaderFits(h, ls + 1, rs + 1) && Grouped(h.lines) && Count(h.lines, Removed) + Count(h.lines, Added) > 0
    && Carries(h.lines, ls, rs, LoadFrom(edits, e, l, r), load)
    && Framing(ShapeOf(h.lines), context, prefix, edits, e0, e, nSuffix) && SameBefore(left, right, l, r, nSuffix)
    && (e < |edits| ==> FarFromNextEdit(edits, e, context) && nSuffix >= context)
  }

  /** The inner loop's result, printed. */
  method FinishHunk(hunk: Hunk, edits: seq<EditType>, left: seq<string>, right: seq<string>, context: nat, prefix: nat,
                    e0: nat, l0: nat, r0: nat, ghost ls: nat, ghost rs: nat, ghost load: Load)
    returns (printed: PrintedHunk, e: nat, l: nat, r: nat, nSuffix: nat, hasEdits: bool)
    requires Filling(hunk, edits, left, right, e0, ls, rs, e0, l0, r0, 0, load)
    requires Framing(ShapeOf(hunk.Lines()), context, prefix, edits, e0, e0, 0)
    requires hunk.leftStart == ls + 1 && hunk.rightStart == rs + 1 && (e0 < |edits| ==> !edits[e0].Match?)
    modifies hunk
    ensures hasEdits ==> Filled(printed, edits, left, right, context, prefix, e0, ls, rs, e, l, r, nSuffix, load)
    ensures hasEdits ==> context > 0
    ensures !hasEdits ==> context == 0 || e0 >= |edits|
  {
    e, l, r, nSuffix := FillHunk(hunk, edits, left, right, context, e0, l0, r0, ls, rs, prefix, load);
    hasEdits := hunk.HasEdits();
    printed := hunk.PrintTo();
  }

  /** The body of the outer loop: one more hunk, or none is left. */
  method NextHunk(edits: seq<EditType>, left: seq<string>, right: seq<string>, context: nat,
                  ghost started: bool, e0: nat, l0: nat, r0: nat)
    returns (printed: PrintedHunk, e: nat, l: nat, r: nat, done: bool,
             prefix: nat, ghost e1: nat, ghost l1: nat, ghost r1: nat, ghost nSuffix: nat)
    requires Located(edits, left, right, context, started, e0, l0, r0) && e0 < |edits|
    ensures Skipped(edits, left, right, context, e0, l0, r0, e1, l1, r1) && prefix == PrefixContext(l1, context) && prefix <= r1
    ensures l0 <= l1 && r0 <= r1 && left[l0..l1] == right[r0..r1]
    ensures if done then context == 0 || e1 == |edits|
            else context > 0 && Filled(printed, edits, left, right, context, prefix, e1, l1 - prefix, r1 - prefix, e, l, r,
                                       nSuffix, LoadFrom(edits, e1, l1, r1))
  {
    var hunk, e', l', r';
    hunk, e', l', r', prefix := StartHunk(edits, left, right, context, started, e0, l0, r0);
    e1, l1, r1 := e', l', r';
    var n, hasEdits;
    printed, e, l, r, n, hasEdits := FinishHunk(hunk, edits, left, right, context, prefix, e', l', r',
                                                l1 - prefix, r1 - prefix, LoadFrom(edits, e1, l1, r1));
    nSuffix, done := n, !hasEdits;
  }

  lemma FramedOneMore(edits: seq<EditType>, left: seq<string>, right: seq<string>, hunks: seq<PrintedHunk>, h: PrintedHunk,
                      context: nat, prefix: nat, e0: nat, l0: nat, r0: nat, e: nat, l: nat, r: nat, nSuffix: nat, load: Load)
    requires AllFramed(left, hunks, context) && Progress(edits, left, right, hunks + [h], e, l, r)
    requires prefix == PrefixContext(l0, context) && prefix <= r0
    requires Filled(h, edits, left, right, context, prefix, e0, l0 - prefix, r0 - prefix, e, l, r, nSuffix, load)
    ensures AllFramed(left, hunks + [h], context)
  {
    FilledIsFramed(edits, left, right, h, context, prefix, e0, l0 - prefix, r0 - prefix, e, l, r, nSuffix, load);
    var more := hunks + [h];
    forall i | 0 <= i < |more|
      ensures HunkFramed(left, more, context, i)
    {
      if i < |hunks| {
        assert HunkFramed(left, hunks, context, i) && more[..i + 1] == hunks[..i + 1];
      } else {
        assert more[..i + 1] == more;
      }
    }
  }

  lemma FilledIsFramed(edits: seq<EditType>, left: seq<string>, right: seq<string>, h: PrintedHunk,
                       context: nat, prefix: nat, e0: nat, ls: nat, rs: nat, e: nat, l: nat, r: nat, nSuffix: nat, load: Load)
    requires Filled(h, edits, left, right, context, prefix, e0, ls, rs, e, l, r, nSuffix, load)
    requires prefix == context || ls == 0
    ensures |OldSide(h.lines)| == l - ls && |NewSide(h.lines)| == r - rs
    ensures Framed(h.lines, ls, l, |left|, context) && Headed(h, ls + 1, rs + 1)
  {
    HeaderTells(h, ls + 1, rs + 1);
    FramingEnds(ShapeOf(h.lines), context, prefix, edits, e0, e, nSuffix);
    if e == |edits| { AtEnd(edits, left, right, l, r); }
  }

  lemma HunkDone(edits: seq<EditType>, left: seq<string>, right: seq<string>, context: nat, hunks: seq<PrintedHunk>,
                 h: PrintedHunk, prefix: nat, e0: nat, l0: nat, r0: nat, e1: nat, l1: nat, r1: nat,
                 e: nat, l: nat, r: nat, nSuffix: nat)
    requires Diffing(edits, left, right, context, hunks, e0, l0, r0) && context > 0
    requires Skipped(edits, left, right, context, e0, l0, r0, e1, l1, r1) && prefix == PrefixContext(l1, context) && prefix <= r1
    requires Filled(h, edits, left, right, context, prefix, e1, l1 - prefix, r1 - prefix, e, l, r, nSuffix,
                    LoadFrom(edits, e1, l1, r1))
    ensures Diffing(edits, left, right, context, hunks + [h], e, l, r)
  {
    var more := hunks + [h];
    assert Progress(edits, left, right, more, e, l, r) && AllFramed(left, more, context) by {
      FramedProgress(edits, left, right, context, hunks, h, prefix, e0, l0, r0, e1, l1, r1, e, l, r, nSuffix);
    }
    assert Located(edits, left, right, context, true, e, l, r) by {
      FilledLocates(edits, left, right, context, h, prefix, e1, l1 - prefix, r1 - prefix, e, l, r, nSuffix,
                    LoadFrom(edits, e1, l1, r1));
    }
    DiffingIs(edits, left, right, context, more, e, l, r);
  }

  lemma FramedProgress(edits: seq<EditType>, left: seq<string>, right: seq<string>, context: nat, hunks: seq<PrintedHunk>,
                       h: PrintedHunk, prefix: nat, e0: nat, l0: nat, r0: nat, e1: nat, l1: nat, r1: nat,
                       e: nat, l: nat, r: nat, nSuffix: nat)
    requires Progress(edits, left, right, hunks, e0, l0, r0) && AllFramed(left, hunks, context)
    requires Skipped(edits, left, right, context, e0, l0, r0, e1, l1, r1) && prefix == PrefixContext(l1, context) && prefix <= r1
    requires Filled(h, edits, left, right, context, prefix, e1, l1 - prefix, r1 - prefix, e, l, r, nSuffix,
                    LoadFrom(edits, e1, l1, r1))
    ensures Progress(edits, left, right, hunks + [h], e, l, r) && AllFramed(left, hunks + [h], context)
  {
    HunkProgress(edits, left, right, context, hunks, h, prefix, e0, l0, r0, e1, l1, r1, e, l, r, nSuffix);
    FramedOneMore(edits, left, right, hunks, h, context, prefix, e1, l1, r1, e, l, r, nSuffix,
                  LoadFrom(edits, e1, l1, r1));
  }

  lemma DiffingIs(edits: seq<EditType>, left: seq<string>, right: seq<string>, context: nat,
                  hunks: seq<PrintedHunk>, e: nat, l: nat, r: nat)
    requires Progress(edits, left, right, hunks, e, l, r) && AllFramed(left, hunks, context)
    requires Located(edits, left, right, context, true, e, l, r) && hunks != [] && context > 0
    ensures Diffing(edits, left, right, context, hunks, e, l, r)
  {
  }

  lemma FilledLocates(edits: seq<EditType>, left: seq<string>, right: seq<string>, context: nat, h: PrintedHunk,
                      prefix: nat, e0: nat, ls: nat, rs: nat, e: nat, l: nat, r: nat, nSuffix: nat, load: Load)
    requires Filled(h, edits, left, right, context, prefix, e0, ls, rs, e, l, r, nSuffix, load)
    ensures Located(edits, left, right, context, true, e, l, r)
  {
    if e < |edits| {
      SameLess(left, right, l, r, nSuffix, context);
    }
  }

  lemma HunkProgress(edits: seq<EditType>, left: seq<string>, right: seq<string>, context: nat, hunks: seq<PrintedHunk>,
                     h: PrintedHunk, prefix: nat, e0: nat, l0: nat, r0: nat, e1: nat, l1: nat, r1: nat,
                     e: nat, l: nat, r: nat, nSuffix: nat)
    requires Progress(edits, left, right, hunks, e0, l0, r0)
    requires Skipped(edits, left, right, context, e0, l0, r0, e1, l1, r1) && prefix == PrefixContext(l1, context) && prefix <= r1
    requires Filled(h, edits, left, right, context, prefix, e1, l1 - prefix, r1 - prefix, e, l, r, nSuffix,
                    LoadFrom(edits, e1, l1, r1))
    ensures Progress(edits, left, right, hunks + [h], e, l, r)
  {
    var ls, rs := l1 - prefix, r1 - prefix;
    assert Follows(edits, left, right, h, e0, l0, r0, ls, rs, e, l, r) by {
      FilledCarries(edits, left, right, context, h, prefix, e0, l0, r0, e1, l1, r1, e, l, r, nSuffix);
    }
    HunkExtends(edits, left, right, hunks, h, e0, l0, r0, ls, rs, e, l, r);
  }

  /** The hunk follows on equal lines and carries what the edits from e0 to e do. */
  ghost predicate Follows(edits: seq<EditType>, left: seq<string>, right: seq<string>, h: PrintedHunk,
                          e0: nat, l0: nat, r0: nat, ls: nat, rs: nat, e: nat, l: nat, r: nat)
  {
    && At(edits, left, right, e, l, r) && e0 <= |edits| && e <= |edits|
    && l0 <= ls <= l <= |left| && r0 <= rs <= r <= |right| && ls - l0 == rs - r0 && left[l0..ls] == right[r0..rs]
    && OldSide(h.lines) == left[ls..l] && NewSide(h.lines) == right[rs..r]
    && HeaderFits(h, ls + 1, rs + 1) && Grouped(h.lines) && Count(h.lines, Removed) + Count(h.lines, Added) > 0
    && Carries(h.lines, ls, rs, LoadFrom(edits, e, l, r), LoadFrom(edits, e0, l0, r0))
  }

  lemma FilledCarries(edits: seq<EditType>, left: seq<string>, right: seq<string>, context: nat,
                      h: PrintedHunk, prefix: nat, e0: nat, l0: nat, r0: nat, e1: nat, l1: nat, r1: nat,
                      e: nat, l: nat, r: nat, nSuffix: nat)
    requires e0 <= |edits|
    requires Skipped(edits, left, right, context, e0, l0, r0, e1, l1, r1) && prefix == PrefixContext(l1, context) && prefix <= r1
    requires Filled(h, edits, left, right, context, prefix, e1, l1 - prefix, r1 - prefix, e, l, r, nSuffix,
                    LoadFrom(edits, e1, l1, r1))
    ensures Follows(edits, left, right, h, e0, l0, r0, l1 - prefix, r1 - prefix, e, l, r)
  {
  }

  lemma HunkExtends(edits: seq<EditType>, left: seq<string>, right: seq<string>, hunks: seq<PrintedHunk>, h: PrintedHunk,
                    e0: nat, l0: nat, r0: nat, ls: nat, rs: nat, e: nat, l: nat, r: nat)
    requires Progress(edits, left, right, hunks, e0, l0, r0)
    requires Follows(edits, left, right, h, e0, l0, r0, ls, rs, e, l, r)
    ensures Progress(edits, left, right, hunks + [h], e, l, r)
  {
    HunkApplies(left, right, l0, r0, ls, l, rs, r, h);
    ApplyOneMore(left, hunks, h);
    RemovedExtend(left, hunks, h, Patching(l, right[..r]), ls, RemovedFrom(edits, e, l),
                  RemovedFrom(edits, e0, l0), RemovedFrom(edits, 0, 0));
    AddedExtend(left, hunks, h, Patching(l, right[..r]), rs, AddedFrom(edits, e, r),
                AddedFrom(edits, e0, r0), AddedFrom(edits, 0, 0));
  }

  lemma RemovedExtend(left: seq<string>, hunks: seq<PrintedHunk>, h: PrintedHunk, s: Patching, ls: nat,
                      next: set<int>, rest: set<int>, whole: set<int>)
    requires ApplyHunks(left, hunks + [h]) == Some(s) && s.pos - |OldSide(h.lines)| == ls
    requires AllMarks(left, hunks, Removed) + rest == whole && Marks(h.lines, Removed, ls + 1) + next == rest
    ensures AllMarks(left, hunks + [h], Removed) + next == whole
  {
    MarkOneMore(left, hunks, h, Removed, s);
    LoadOneMore(AllMarks(left, hunks, Removed), Marks(h.lines, Removed, ls + 1), next, rest, whole);
  }

  lemma AddedExtend(left: seq<string>, hunks: seq<PrintedHunk>, h: PrintedHunk, s: Patching, rs: nat,
                    next: set<int>, rest: set<int>, whole: set<int>)
    requires ApplyHunks(left, hunks + [h]) == Some(s) && |s.out| - |NewSide(h.lines)| == rs
    requires AllMarks(left, hunks, Added) + rest == whole && Marks(h.lines, Added, rs + 1) + next == rest
    ensures AllMarks(left, hunks + [h], Added) + next == whole
  {
    MarkOneMore(left, hunks, h, Added, s);
    LoadOneMore(AllMarks(left, hunks, Added), Marks(h.lines, Added, rs + 1), next, rest, whole);
  }

  lemma GapLines(left: seq<string>, right: seq<string>, l0: nat, r0: nat, ls: nat, rs: nat, l: nat, r: nat)
    requires l0 <= ls <= l <= |left| && r0 <= rs <= r <= |right| && l - l0 == r - r0 && l - ls == r - rs
    requires left[l0..l] == right[r0..r]
    ensures left[l0..ls] == right[r0..rs]
  {
    HeadOfSlice(left, l0, ls, l);
    HeadOfSlice(right, r0, rs, r);
  }

  lemma HeadOfSlice(s: seq<string>, i: nat, j: nat, k: nat)
    requires i <= j <= k <= |s|
    ensures s[i..j] == s[i..k][..j - i]
  {
  }

  method CreateUnifiedDiff(left: seq<string>, right: seq<string>, context: nat) returns (hunks: seq<PrintedHunk>)
    ensures context == 0 ==> hunks == []
    ensures context >= 1 ==> Complete(Path(left, right, |left|, |right|), left, right, hunks) && AllFramed(left, hunks, context)
    // a header shows the range of a side exactly if lines of that side are edited, where they apply
    ensures forall i :: 0 <= i < |hunks| ==>
              (hunks[i].left.Some? <==> exists k :: 0 <= k < |hunks[i].lines| && hunks[i].lines[k].tag == Removed)
    ensures forall i :: 0 <= i < |hunks| ==>
              (hunks[i].right.Some? <==> exists k :: 0 <= k < |hunks[i].lines| && hunks[i].lines[k].tag == Added)
    ensures forall i :: 0 <= i < |hunks| && hunks[i].left.Some? ==> hunks[i].left.value.length == |OldSide(hunks[i].lines)|
    ensures forall i :: 0 <= i < |hunks| && hunks[i].right.Some? ==> hunks[i].right.value.length == |NewSide(hunks[i].lines)|
    ensures forall i :: 0 <= i < |hunks| && hunks[i].left.Some? ==>
              && ApplyHunks(left, hunks[..i + 1]).Some?
              && hunks[i].left.value.start == ApplyHunks(left, hunks[..i + 1]).value.pos - |OldSide(hunks[i].lines)| + 1
    ensures forall i :: 0 <= i < |hunks| && hunks[i].right.Some? ==>
              && ApplyHunks(left, hunks[..i + 1]).Some?
              && hunks[i].right.value.start == |ApplyHunks(left, hunks[..i + 1]).value.out| - |NewSide(hunks[i].lines)| + 1
  {
    var edits := CalculateOptimalEditsOfStrings(left, right);
    hunks := CreateHunks(edits, left, right, context);
    HeadersTell(left, hunks, context);
  }

  lemma DiffStarts(edits: seq<EditType>, left: seq<string>, right: seq<string>, context: nat)
    requires Transforms(edits, left, right)
    ensures Diffing(edits, left, right, context, [], 0, 0, 0)
  {
    assert left[0..] == left && right[0..] == right && edits[0..] == edits && right[..0] == [];
    ScriptPositions(edits, left, right, 0, 0, 0);
  }

  lemma DiffEnds(edits: seq<EditType>, left: seq<string>, right: seq<string>, context: nat,
                 hunks: seq<PrintedHunk>, l: nat, r: nat)
    requires Diffing(edits, left, right, context, hunks, |edits|, l, r)
    ensures Complete(edits, left, right, hunks)
  {
    assert left[l..l] == right[r..r];
    OnlyMatchesRemain(edits, left, right, hunks, |edits|, l, r, l, r);
  }

  lemma DiffDone(edits: seq<EditType>, left: seq<string>, right: seq<string>, context: nat, hunks: seq<PrintedHunk>,
                 e0: nat, l0: nat, r0: nat, e: nat, l: nat, r: nat)
    requires Diffing(edits, left, right, context, hunks, e0, l0, r0)
    requires Skipped(edits, left, right, context, e0, l0, r0, e, l, r)
    requires l0 <= l && r0 <= r && left[l0..l] == right[r0..r]
    requires context == 0 || e == |edits|
    ensures context >= 1 ==> Complete(edits, left, right, hunks) && AllFramed(left, hunks, context)
    ensures context == 0 ==> hunks == []
  {
    if context > 0 {
      OnlyMatchesRemain(edits, left, right, hunks, e0, l0, r0, l, r);
    }
  }

  /** The loop over the edits of any valid script. */
  method CreateHunks(edits: seq<EditType>, left: seq<string>, right: seq<string>, context: nat)
    returns (hunks: seq<PrintedHunk>)
    requires Transforms(edits, left, right)
    ensures context == 0 ==> hunks == []
    ensures context >= 1 ==> Complete(edits, left, right, hunks) && AllFramed(left, hunks, context)
  {
    hunks := [];
    var l: nat, r: nat, e: nat := 0, 0, 0;
    DiffStarts(edits, left, right, context);
    while e < |edits|
      invariant e <= |edits| && Diffing(edits, left, right, context, hunks, e, l, r)
      decreases |edits| - e
    {
      var printed, e', l', r', done, prefix;
      ghost var e1, l1, r1, nSuffix;
      printed, e', l', r', done, prefix, e1, l1, r1, nSuffix :=
        NextHunk(edits, left, right, context, hunks != [], e, l, r);
      if done {
        DiffDone(edits, left, right, context, hunks, e, l, r, e1, l1, r1);
        return;
      }
      HunkDone(edits, left, right, context, hunks, printed, prefix, e, l, r, e1, l1, r1, e', l', r', nSuffix);
      hunks, e, l, r := hunks + [printed], e', l', r';
    }
    DiffEnds(edits, left, right, context, hunks, l, r);
  }

  /** The diff is a correct patch exactly when the context is positive or nothing changed. */
  lemma NoContextNoPatch(left: seq<string>, right: seq<string>)
    ensures Patch(left, []) == Some(right) <==> left == right
  {
    assert [] + left[0..] == left;
  }
}
