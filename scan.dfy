/** The labelling scan (markBuildings) as a function on grid values, and what it computes:
    one label per maximal 4-connected group of '#' cells, in discovery order. */
module Scan {
  import opened Cells
  import opened Grids
  import opened Paths
  import opened Flood

  /** The grid, the component counter and the number of fill calls made so far. */
  datatype ScanState = ScanState(grid: Grid, count: nat, calls: nat)

  /** The state of the scan when it reaches position (x, y): x is the outer loop and y the
      inner one, so every (x', y') with x' < x, and every (x, y') with y' < y, has been
      scanned. (x, height) and (x + 1, 0) name the same moment. */
  function ScanTo(g: Grid, x: int, y: int): (st: ScanState)
    requires g.Valid() && 0 <= x <= g.width && 0 <= y <= g.height && (x == g.width ==> y == 0)
    ensures LabelsOnly(g, st.grid)
    decreases x, y
  {
    if y == 0 then
      if x == 0 then ScanState(g, 0, 0) else ScanTo(g, x - 1, g.height)
    else
      ScanStep(g, ScanTo(g, x, y - 1), x, y - 1)
  }

  /** One scan position: a cell still '#' starts a new component with the next label. */
  function ScanStep(g: Grid, st: ScanState, x: int, y: int): (r: ScanState)
    requires g.Valid() && LabelsOnly(g, st.grid) && g.InRange(x, y)
    ensures LabelsOnly(g, r.grid)
  {
    var h := st.grid;
    if h.At(x, y) == BuildingPlace then
      var mark := LabelFor(st.count);
      RelabelShrinks(h, h, x, y, mark);
      var f := Fill(h.Set(x, y, mark), x, y, mark);
      RelabelsTrans(h, h.Set(x, y, mark), f.grid, mark);
      LabelsOnlyExtend(g, h, f.grid, mark);
      ScanState(f.grid, st.count + 1, st.calls + f.calls)
    else
      st
  }

  /** The whole of markBuildings. */
  function MarkAll(g: Grid): (st: ScanState)
    requires g.Valid()
    ensures LabelsOnly(g, st.grid)
  {
    ScanTo(g, g.width, 0)
  }

  lemma LabelsOnlyExtend(g: Grid, h: Grid, h': Grid, mark: int)
    requires LabelsOnly(g, h) && Relabels(h, h', mark) && IsLabel(mark)
    ensures LabelsOnly(g, h')
  {
  }

  /** b comes before position (x, y) in the scan order (x outer, y inner). */
  predicate Before(b: Pos, x: int, y: int) {
    b.0 < x || (b.0 == x && b.1 < y)
  }

  /** The groups that own some cell scanned before (x, y). */
  ghost function FoundBefore(g: Grid, x: int, y: int): set<set<Pos>> {
    set i, j | 0 <= i < g.width && 0 <= j < g.height && g.Get(i, j) == BuildingPlace && Before((i, j), x, y)
      :: Component(g, (i, j))
  }

  /** a is the first cell of its group in scan order. */
  ghost predicate IsLeader(g: Grid, a: Pos) {
    g.GetPos(a) == BuildingPlace && forall b :: Connected(g, b, a) ==> !Before(b, a.0, a.1)
  }

  /** Adjacent '#' cells of g carry the same value in h. */
  ghost predicate Uniform(g: Grid, h: Grid) {
    forall a, b :: Adjacent(a, b) && g.GetPos(a) == BuildingPlace && g.GetPos(b) == BuildingPlace
      ==> h.GetPos(a) == h.GetPos(b)
  }

  /** A '#' cell of g has been claimed in h exactly when its group owns a cell scanned
      before (x, y). */
  ghost predicate ClaimedIffFound(g: Grid, h: Grid, x: int, y: int) {
    forall q :: g.GetPos(q) == BuildingPlace ==>
      (h.GetPos(q) != BuildingPlace <==> exists b :: Before(b, x, y) && Connected(g, b, q))
  }

  /** Every cell of a group whose leader was scanned before (x, y) carries the label of the
      group's rank among the groups found before it. */
  ghost predicate LabelledByRank(g: Grid, h: Grid, x: int, y: int) {
    forall a, q :: Before(a, x, y) && IsLeader(g, a) && Connected(g, a, q)
      ==> h.GetPos(q) == LabelFor(|FoundBefore(g, a.0, a.1)|)
  }

  ghost predicate ScanInv(g: Grid, x: int, y: int, st: ScanState) {
    && LabelsOnly(g, st.grid)
    && Uniform(g, st.grid)
    && st.count == |FoundBefore(g, x, y)|
    && ClaimedIffFound(g, st.grid, x, y)
    && LabelledByRank(g, st.grid, x, y)
  }

  lemma FoundNext(g: Grid, x: int, y: int)
    requires g.InRange(x, y)
    ensures FoundBefore(g, x, y + 1)
      == FoundBefore(g, x, y) + if g.Get(x, y) == BuildingPlace then {Component(g, (x, y))} else {}
  {
  }

  lemma FoundColumn(g: Grid, x: int)
    ensures FoundBefore(g, x, g.height) == FoundBefore(g, x + 1, 0)
  {
  }

  lemma FoundAll(g: Grid)
    ensures FoundBefore(g, g.width, 0) == Components(g)
  {
  }

  /** The last index at which a walk visits c. */
  lemma LastVisit(p: seq<Pos>, c: Pos) returns (j: int)
    requires c in p
    ensures 0 <= j < |p| && p[j] == c
    ensures forall k :: j < k < |p| ==> p[k] != c
  {
    j := |p| - 1;
    while p[j] != c
      invariant 0 <= j < |p| && c in p[..j + 1]
      invariant forall k :: j < k < |p| ==> p[k] != c
      decreases j
    {
      j := j - 1;
    }
  }

  /** Along a walk of '#' cells of g, a grid uniform over g has one value. */
  lemma {:induction false} UniformAlongPath(g: Grid, h: Grid, p: seq<Pos>, i: int)
    requires Uniform(g, h) && IsPath(g, p) && g.GetPos(p[0]) == BuildingPlace && 0 <= i < |p|
    ensures h.GetPos(p[i]) == h.GetPos(p[0])
    decreases i
  {
    if i > 0 {
      UniformAlongPath(g, h, p, i - 1);
      assert Adjacent(p[i - 1], p[i]);
    }
  }

  /** Writing a mark over one cell of a grid that only relabels g adds no '#'. */
  lemma SetNoNew(g: Grid, h: Grid, x: int, y: int, mark: int)
    requires g.Valid() && LabelsOnly(g, h) && g.InRange(x, y) && mark != BuildingPlace
    ensures h.Valid() && h.InRange(x, y) && NoNewBuildings(g, h.Set(x, y, mark))
  {
    var h' := h.Set(x, y, mark);
    IndexBounds(h.width, h.height, x, y);
    var k := y * h.width + x;
    assert h'.cells == h.cells[k := mark];
  }

  /** A cell of the walk after its last visit to c is still '#' once c is marked. */
  lemma ClaimPathCell(g: Grid, h: Grid, x: int, y: int, mark: int, p: seq<Pos>, i: int)
    requires g.Valid() && LabelsOnly(g, h) && Uniform(g, h) && g.InRange(x, y)
    requires h.Get(x, y) == BuildingPlace && g.Get(x, y) == BuildingPlace
    requires IsPath(g, p) && p[0] == (x, y) && 0 <= i < |p| && p[i] != (x, y)
    ensures h.Valid() && h.InRange(x, y)
    ensures h.Set(x, y, mark).GetPos(p[i]) == BuildingPlace
  {
    UniformAlongPath(g, h, p, i);
    assert h.GetPos(p[i]) == BuildingPlace;
  }

  /** A cell the fill from a freshly marked c reaches belongs to c's group in g. */
  lemma ClaimReachedConnected(g: Grid, h: Grid, x: int, y: int, mark: int, q: Pos)
    requires g.Valid() && LabelsOnly(g, h) && g.InRange(x, y)
    requires g.Get(x, y) == BuildingPlace && mark != BuildingPlace
    requires h.Valid() && h.InRange(x, y) && Reached(h.Set(x, y, mark), (x, y), q)
    ensures Connected(g, (x, y), q)
  {
    SetNoNew(g, h, x, y, mark);
    var p :| IsPath(h.Set(x, y, mark), p) && |p| >= 2 && p[0] == (x, y) && p[|p| - 1] == q;
    PathWeaken(g, h.Set(x, y, mark), p);
  }

  /** Every other cell of c's group in g is reached by the fill from a freshly marked c. */
  lemma ClaimConnectedReached(g: Grid, h: Grid, x: int, y: int, mark: int, q: Pos)
    requires g.Valid() && LabelsOnly(g, h) && Uniform(g, h) && g.InRange(x, y)
    requires h.Get(x, y) == BuildingPlace && g.Get(x, y) == BuildingPlace && mark != BuildingPlace
    requires q != (x, y) && Connected(g, (x, y), q)
    ensures h.Valid() && h.InRange(x, y) && Reached(h.Set(x, y, mark), (x, y), q)
  {
    var c := (x, y);
    var h' := h.Set(x, y, mark);
    var p :| IsPath(g, p) && p[0] == c && p[|p| - 1] == q;
    var j := LastVisit(p, c);
    var p' := p[j..];
    PathSuffix(g, p, j);
    forall k | 0 < k < |p'| ensures h'.GetPos(p'[k]) == BuildingPlace {
      ClaimPathCell(g, h, x, y, mark, p, j + k);
    }
    assert IsPath(h', p');
    assert |p'| >= 2 && p'[0] == c && p'[|p'| - 1] == q;
  }

  /** When the scan claims an unclaimed cell c of a uniform grid h, the cells the fill from c
      reaches are exactly the rest of c's group in the original g. */
  lemma ClaimReaches(g: Grid, h: Grid, x: int, y: int, mark: int, q: Pos)
    requires g.Valid() && LabelsOnly(g, h) && Uniform(g, h) && g.InRange(x, y)
    requires h.Get(x, y) == BuildingPlace && mark != BuildingPlace && q != (x, y)
    ensures h.Valid() && h.InRange(x, y)
    ensures Reached(h.Set(x, y, mark), (x, y), q) <==> Connected(g, (x, y), q)
  {
    SetNoNew(g, h, x, y, mark);
    GetLabelsOnly(g, h, x, y);
    if Reached(h.Set(x, y, mark), (x, y), q) {
      ClaimReachedConnected(g, h, x, y, mark, q);
    }
    if Connected(g, (x, y), q) {
      ClaimConnectedReached(g, h, x, y, mark, q);
    }
  }

  /** The grid after the scan claims c: c's whole group of g carries the mark, every other
      cell keeps its value. */
  lemma ClaimFill(g: Grid, h: Grid, x: int, y: int, mark: int)
    requires g.Valid() && LabelsOnly(g, h) && Uniform(g, h) && g.InRange(x, y)
    requires h.Get(x, y) == BuildingPlace && mark != BuildingPlace
    ensures h.Valid() && h.InRange(x, y)
    ensures forall q ::
              Fill(h.Set(x, y, mark), x, y, mark).grid.GetPos(q)
              == if Connected(g, (x, y), q) then mark else h.GetPos(q)
  {
    SetNoNew(g, h, x, y, mark);
    var n := Fill(h.Set(x, y, mark), x, y, mark).grid;
    FillSpec(h.Set(x, y, mark), x, y, mark);
    forall q ensures n.GetPos(q) == if Connected(g, (x, y), q) then mark else h.GetPos(q) {
      ClaimFillAt(g, h, n, x, y, mark, q);
    }
  }

  /** ClaimFill at one cell q, given what the fill leaves at q. */
  lemma ClaimFillAt(g: Grid, h: Grid, n: Grid, x: int, y: int, mark: int, q: Pos)
    requires g.Valid() && LabelsOnly(g, h) && Uniform(g, h) && g.InRange(x, y)
    requires h.Get(x, y) == BuildingPlace && mark != BuildingPlace
    requires h.Valid() && h.InRange(x, y)
    requires n.GetPos(q) == if Reached(h.Set(x, y, mark), (x, y), q) then mark else h.Set(x, y, mark).GetPos(q)
    ensures n.GetPos(q) == if Connected(g, (x, y), q) then mark else h.GetPos(q)
  {
    GetLabelsOnly(g, h, x, y);
    if q == (x, y) {
      ConnectedRefl(g, q);
    } else {
      ClaimReaches(g, h, x, y, mark, q);
      assert h.Set(x, y, mark).GetPos(q) == h.GetPos(q);
    }
  }

  /** One scan position keeps the invariant. */
  lemma StepInv(g: Grid, st: ScanState, x: int, y: int)
    requires g.Valid() && g.InRange(x, y) && ScanInv(g, x, y, st)
    ensures ScanInv(g, x, y + 1, ScanStep(g, st, x, y))
  {
    FoundNext(g, x, y);
    if st.grid.At(x, y) == BuildingPlace {
      ClaimStepInv(g, st, x, y);
    } else {
      SkipStepInv(g, st, x, y);
    }
  }

  /** n is h with the whole group of c (in g) set to mark. */
  ghost predicate ClaimedGroup(g: Grid, h: Grid, n: Grid, c: Pos, mark: int) {
    forall q :: n.GetPos(q) == if Connected(g, c, q) then mark else h.GetPos(q)
  }

  /** The scan reaches a cell still '#': it starts a new group. */
  lemma ClaimStepInv(g: Grid, st: ScanState, x: int, y: int)
    requires g.Valid() && g.InRange(x, y) && ScanInv(g, x, y, st)
    requires st.grid.Valid() && st.grid.At(x, y) == BuildingPlace
    ensures ScanInv(g, x, y + 1, ScanStep(g, st, x, y))
  {
    var c := (x, y);
    var h := st.grid;
    var mark := LabelFor(st.count);
    ClaimFill(g, h, x, y, mark);
    var n := ScanStep(g, st, x, y).grid;
    assert n == Fill(h.Set(x, y, mark), x, y, mark).grid;
    assert ClaimedGroup(g, h, n, c, mark);
    assert h.GetPos(c) == BuildingPlace;
    ClaimIsNew(g, h, x, y);
    FoundNext(g, x, y);
    ClaimUniform(g, h, n, c, mark);
    ClaimClaimed(g, h, n, x, y, mark);
    ClaimLabels(g, h, n, x, y, mark);
  }

  lemma ClaimIsNew(g: Grid, h: Grid, x: int, y: int)
    requires ClaimedIffFound(g, h, x, y) && h.GetPos((x, y)) == BuildingPlace
    requires LabelsOnly(g, h) && g.Valid() && g.InRange(x, y)
    ensures g.GetPos((x, y)) == BuildingPlace
    ensures forall b :: Before(b, x, y) ==> !Connected(g, b, (x, y))
    ensures Component(g, (x, y)) !in FoundBefore(g, x, y)
  {
    var c := (x, y);
    assert g.GetPos(c) == BuildingPlace;
    if Component(g, c) in FoundBefore(g, x, y) {
      var i, j :| 0 <= i < g.width && 0 <= j < g.height && g.Get(i, j) == BuildingPlace
        && Before((i, j), x, y) && Component(g, (i, j)) == Component(g, c);
      ComponentEq(g, (i, j), c);
      assert false;
    }
  }

  lemma ClaimUniform(g: Grid, h: Grid, n: Grid, c: Pos, mark: int)
    requires Uniform(g, h) && ClaimedGroup(g, h, n, c, mark)
    ensures Uniform(g, n)
  {
    forall a, b | Adjacent(a, b) && g.GetPos(a) == BuildingPlace && g.GetPos(b) == BuildingPlace
      ensures n.GetPos(a) == n.GetPos(b)
    {
      if Connected(g, c, a) {
        ConnectedStep(g, c, a, b);
      } else if Connected(g, c, b) {
        assert Adjacent(b, a);
        ConnectedStep(g, c, b, a);
      }
    }
  }

  lemma ClaimClaimed(g: Grid, h: Grid, n: Grid, x: int, y: int, mark: int)
    requires ClaimedIffFound(g, h, x, y) && ClaimedGroup(g, h, n, (x, y), mark)
    requires mark != BuildingPlace
    ensures ClaimedIffFound(g, n, x, y + 1)
  {
    forall q | g.GetPos(q) == BuildingPlace
      ensures n.GetPos(q) != BuildingPlace <==> exists b :: Before(b, x, y + 1) && Connected(g, b, q)
    {
      ClaimClaimedAt(g, h, n, x, y, mark, q);
    }
  }

  lemma ClaimClaimedAt(g: Grid, h: Grid, n: Grid, x: int, y: int, mark: int, q: Pos)
    requires mark != BuildingPlace && g.GetPos(q) == BuildingPlace
    requires h.GetPos(q) != BuildingPlace <==> exists b :: Before(b, x, y) && Connected(g, b, q)
    requires n.GetPos(q) == if Connected(g, (x, y), q) then mark else h.GetPos(q)
    ensures n.GetPos(q) != BuildingPlace <==> exists b :: Before(b, x, y + 1) && Connected(g, b, q)
  {
    if Connected(g, (x, y), q) {
      assert Before((x, y), x, y + 1);
    } else if b :| Before(b, x, y + 1) && Connected(g, b, q) {
      assert b != (x, y);
      assert Before(b, x, y);
    }
  }

  lemma ClaimLabels(g: Grid, h: Grid, n: Grid, x: int, y: int, mark: int)
    requires LabelledByRank(g, h, x, y) && ClaimedGroup(g, h, n, (x, y), mark)
    requires forall b :: Before(b, x, y) ==> !Connected(g, b, (x, y))
    requires mark == LabelFor(|FoundBefore(g, x, y)|)
    ensures LabelledByRank(g, n, x, y + 1)
  {
    forall a, q | Before(a, x, y + 1) && IsLeader(g, a) && Connected(g, a, q)
      ensures n.GetPos(q) == LabelFor(|FoundBefore(g, a.0, a.1)|)
    {
      ClaimLabelsAt(g, h, n, x, y, mark, a, q);
    }
  }

  /** ClaimLabels for one leader a and one cell q of its group. */
  lemma ClaimLabelsAt(g: Grid, h: Grid, n: Grid, x: int, y: int, mark: int, a: Pos, q: Pos)
    requires Before(a, x, y + 1) && IsLeader(g, a) && Connected(g, a, q)
    requires Before(a, x, y) ==> h.GetPos(q) == LabelFor(|FoundBefore(g, a.0, a.1)|)
    requires Before(a, x, y) ==> !Connected(g, a, (x, y))
    requires n.GetPos(q) == if Connected(g, (x, y), q) then mark else h.GetPos(q)
    requires mark == LabelFor(|FoundBefore(g, x, y)|)
    ensures n.GetPos(q) == LabelFor(|FoundBefore(g, a.0, a.1)|)
  {
    if a != (x, y) {
      assert Before(a, x, y);
      if Connected(g, (x, y), q) {
        ConnectedSym(g, (x, y), q);
        ConnectedTrans(g, a, q, (x, y));
        assert false;
      }
    }
  }

  /** The scan reaches a cell that is not '#' (empty, or claimed by an earlier group). */
  lemma SkipStepInv(g: Grid, st: ScanState, x: int, y: int)
    requires g.Valid() && g.InRange(x, y) && ScanInv(g, x, y, st)
    requires st.grid.Valid() && st.grid.At(x, y) != BuildingPlace
    ensures ScanInv(g, x, y + 1, ScanStep(g, st, x, y))
  {
    assert ScanStep(g, st, x, y) == st;
    assert st.grid.GetPos((x, y)) != BuildingPlace;
    if g.GetPos((x, y)) == BuildingPlace {
      SkipClaimedInv(g, st, x, y);
    } else {
      SkipEmptyInv(g, st, x, y);
    }
  }

  /** The scan passes a '#' of g that an earlier group already claimed. */
  lemma SkipClaimedInv(g: Grid, st: ScanState, x: int, y: int)
    requires g.Valid() && g.InRange(x, y) && ScanInv(g, x, y, st)
    requires g.GetPos((x, y)) == BuildingPlace && st.grid.GetPos((x, y)) != BuildingPlace
    ensures ScanInv(g, x, y + 1, st)
  {
    FoundNext(g, x, y);
    var b0 := ClaimedWitness(g, st.grid, x, y);
    SkipClaimed(g, st.grid, x, y, b0);
    assert FoundBefore(g, x, y + 1) == FoundBefore(g, x, y);
  }

  /** The scan passes a cell that is not '#' in g. */
  lemma SkipEmptyInv(g: Grid, st: ScanState, x: int, y: int)
    requires g.Valid() && g.InRange(x, y) && ScanInv(g, x, y, st)
    requires g.GetPos((x, y)) != BuildingPlace
    ensures ScanInv(g, x, y + 1, st)
  {
    FoundNext(g, x, y);
    SkipEmptyClaimed(g, st.grid, x, y);
    SkipEmptyLabels(g, st.grid, x, y);
    assert FoundBefore(g, x, y + 1) == FoundBefore(g, x, y);
  }

  lemma ClaimedWitness(g: Grid, h: Grid, x: int, y: int) returns (b0: Pos)
    requires ClaimedIffFound(g, h, x, y)
    requires g.GetPos((x, y)) == BuildingPlace && h.GetPos((x, y)) != BuildingPlace
    ensures Before(b0, x, y) && Connected(g, b0, (x, y))
  {
    b0 :| Before(b0, x, y) && Connected(g, b0, (x, y));
  }

  lemma SkipClaimed(g: Grid, h: Grid, x: int, y: int, b0: Pos)
    requires g.Valid() && g.InRange(x, y) && Before(b0, x, y) && Connected(g, b0, (x, y))
    requires ClaimedIffFound(g, h, x, y) && LabelledByRank(g, h, x, y)
    ensures Component(g, (x, y)) in FoundBefore(g, x, y)
    ensures ClaimedIffFound(g, h, x, y + 1) && LabelledByRank(g, h, x, y + 1)
  {
    var c := (x, y);
    ConnectedEnds(g, b0, c);
    ComponentEq(g, b0, c);
    assert Component(g, b0) in FoundBefore(g, x, y) by {
      assert (b0.0, b0.1) == b0;
    }
    SkipClaimedClaimed(g, h, x, y, b0);
    SkipClaimedLabels(g, h, x, y, b0);
  }

  lemma SkipClaimedClaimed(g: Grid, h: Grid, x: int, y: int, b0: Pos)
    requires Before(b0, x, y) && Connected(g, b0, (x, y))
    requires ClaimedIffFound(g, h, x, y)
    ensures ClaimedIffFound(g, h, x, y + 1)
  {
    forall q | g.GetPos(q) == BuildingPlace
      ensures h.GetPos(q) != BuildingPlace <==> exists b :: Before(b, x, y + 1) && Connected(g, b, q)
    {
      SkipClaimedAt(g, h, x, y, b0, q);
    }
  }

  lemma SkipClaimedAt(g: Grid, h: Grid, x: int, y: int, b0: Pos, q: Pos)
    requires Before(b0, x, y) && Connected(g, b0, (x, y)) && g.GetPos(q) == BuildingPlace
    requires h.GetPos(q) != BuildingPlace <==> exists b :: Before(b, x, y) && Connected(g, b, q)
    ensures h.GetPos(q) != BuildingPlace <==> exists b :: Before(b, x, y + 1) && Connected(g, b, q)
  {
    if b :| Before(b, x, y + 1) && Connected(g, b, q) {
      if b == (x, y) {
        ConnectedTrans(g, b0, b, q);
        assert Before(b0, x, y) && Connected(g, b0, q);
      } else {
        assert Before(b, x, y);
      }
    }
    if h.GetPos(q) != BuildingPlace {
      var b :| Before(b, x, y) && Connected(g, b, q);
      assert Before(b, x, y + 1);
    }
  }

  lemma SkipClaimedLabels(g: Grid, h: Grid, x: int, y: int, b0: Pos)
    requires Before(b0, x, y) && Connected(g, b0, (x, y))
    requires LabelledByRank(g, h, x, y)
    ensures LabelledByRank(g, h, x, y + 1)
  {
    NotLeader(g, b0, (x, y));
    LabelsCarry(g, h, x, y);
  }

  /** Passing a position that does not lead its group leaves the labelling by rank intact. */
  lemma LabelsCarry(g: Grid, h: Grid, x: int, y: int)
    requires !IsLeader(g, (x, y)) && LabelledByRank(g, h, x, y)
    ensures LabelledByRank(g, h, x, y + 1)
  {
    forall a, q | Before(a, x, y + 1) && IsLeader(g, a) && Connected(g, a, q)
      ensures h.GetPos(q) == LabelFor(|FoundBefore(g, a.0, a.1)|)
    {
      assert Before(a, x, y);
    }
  }

  /** A cell connected to one scanned before it does not lead its group. */
  lemma NotLeader(g: Grid, b: Pos, c: Pos)
    requires Before(b, c.0, c.1) && Connected(g, b, c)
    ensures !IsLeader(g, c)
  {
  }

  lemma SkipEmptyClaimed(g: Grid, h: Grid, x: int, y: int)
    requires g.GetPos((x, y)) != BuildingPlace
    requires ClaimedIffFound(g, h, x, y)
    ensures ClaimedIffFound(g, h, x, y + 1)
  {
    forall q | g.GetPos(q) == BuildingPlace
      ensures h.GetPos(q) != BuildingPlace <==> exists b :: Before(b, x, y + 1) && Connected(g, b, q)
    {
      SkipEmptyClaimedAt(g, h, x, y, q);
    }
  }

  lemma SkipEmptyClaimedAt(g: Grid, h: Grid, x: int, y: int, q: Pos)
    requires g.GetPos((x, y)) != BuildingPlace && g.GetPos(q) == BuildingPlace
    requires h.GetPos(q) != BuildingPlace <==> exists b :: Before(b, x, y) && Connected(g, b, q)
    ensures h.GetPos(q) != BuildingPlace <==> exists b :: Before(b, x, y + 1) && Connected(g, b, q)
  {
    if b :| Before(b, x, y + 1) && Connected(g, b, q) {
      assert b != (x, y);
      assert Before(b, x, y);
    }
    if h.GetPos(q) != BuildingPlace {
      var b :| Before(b, x, y) && Connected(g, b, q);
      assert Before(b, x, y + 1);
    }
  }

  lemma SkipEmptyLabels(g: Grid, h: Grid, x: int, y: int)
    requires g.GetPos((x, y)) != BuildingPlace
    requires LabelledByRank(g, h, x, y)
    ensures LabelledByRank(g, h, x, y + 1)
  {
    LabelsCarry(g, h, x, y);
  }

  /** Finishing a column is the same moment as starting the next one. */
  lemma ColumnInv(g: Grid, x: int, st: ScanState)
    requires ScanInv(g, x, g.height, st)
    ensures ScanInv(g, x + 1, 0, st)
  {
    FoundColumn(g, x);
    ColumnClaimed(g, st.grid, x);
    ColumnLabels(g, st.grid, x);
  }

  lemma ColumnClaimed(g: Grid, h: Grid, x: int)
    requires ClaimedIffFound(g, h, x, g.height)
    ensures ClaimedIffFound(g, h, x + 1, 0)
  {
    forall q | g.GetPos(q) == BuildingPlace
      ensures h.GetPos(q) != BuildingPlace <==> exists b :: Before(b, x + 1, 0) && Connected(g, b, q)
    {
      if b :| Before(b, x + 1, 0) && Connected(g, b, q) {
        ConnectedEnds(g, b, q);
        assert Before(b, x, g.height);
      }
      if h.GetPos(q) != BuildingPlace {
        var b :| Before(b, x, g.height) && Connected(g, b, q);
        ConnectedEnds(g, b, q);
        assert Before(b, x + 1, 0);
      }
    }
  }

  lemma ColumnLabels(g: Grid, h: Grid, x: int)
    requires LabelledByRank(g, h, x, g.height)
    ensures LabelledByRank(g, h, x + 1, 0)
  {
    forall a, q | Before(a, x + 1, 0) && IsLeader(g, a) && Connected(g, a, q)
      ensures h.GetPos(q) == LabelFor(|FoundBefore(g, a.0, a.1)|)
    {
      ConnectedEnds(g, a, q);
      assert Before(a, x, g.height);
    }
  }

  lemma StartInv(g: Grid)
    ensures ScanInv(g, 0, 0, ScanState(g, 0, 0))
  {
    assert FoundBefore(g, 0, 0) == {};
    forall q | g.GetPos(q) == BuildingPlace
      ensures g.GetPos(q) != BuildingPlace <==> exists b :: Before(b, 0, 0) && Connected(g, b, q)
    {
      if b :| Before(b, 0, 0) && Connected(g, b, q) {
        ConnectedEnds(g, b, q);
      }
    }
    forall a, q ensures !(Before(a, 0, 0) && Connected(g, a, q)) {
      if Connected(g, a, q) {
        ConnectedEnds(g, a, q);
      }
    }
  }

  /** One step of the scan, unfolded. */
  lemma ScanToNext(g: Grid, x: int, y: int)
    requires g.Valid() && 0 <= x < g.width && 0 <= y < g.height
    ensures ScanTo(g, x, y + 1) == ScanStep(g, ScanTo(g, x, y), x, y)
  {
  }

  /** The end of one column is the start of the next. */
  lemma ScanToColumn(g: Grid, x: int)
    requires g.Valid() && 0 <= x < g.width
    ensures ScanTo(g, x + 1, 0) == ScanTo(g, x, g.height)
  {
  }

  /** One scan position keeps the invariant, stated from (x, y - 1) to (x, y). */
  lemma StepInvAt(g: Grid, x: int, y: int, st: ScanState)
    requires g.Valid() && 0 <= x < g.width && 0 < y <= g.height && ScanInv(g, x, y - 1, st)
    ensures ScanInv(g, x, y, ScanStep(g, st, x, y - 1))
  {
    StepInv(g, st, x, y - 1);
  }

  /** The end of column x - 1 is the start (y = 0) of column x, for the invariant too. */
  lemma ColumnInvAt(g: Grid, x: int, y: int, st: ScanState)
    requires 0 < x && y == 0 && ScanInv(g, x - 1, g.height, st)
    ensures ScanInv(g, x, y, st)
  {
    ColumnInv(g, x - 1, st);
  }

  /** The scan invariant holds at every position the scan reaches. */
  lemma {:induction false} ScanToInv(g: Grid, x: int, y: int) returns (st: ScanState)
    requires g.Valid() && 0 <= x <= g.width && 0 <= y <= g.height && (x == g.width ==> y == 0)
    ensures st == ScanTo(g, x, y) && ScanInv(g, x, y, st)
    decreases x, y
  {
    if y > 0 {
      var prev := ScanToInv(g, x, y - 1);
      StepInvAt(g, x, y, prev);
      st := ScanStep(g, prev, x, y - 1);
    } else if x > 0 {
      st := ScanToInv(g, x - 1, g.height);
      ColumnInvAt(g, x, y, st);
    } else {
      st := ScanState(g, 0, 0);
      StartInv(g);
    }
  }

  lemma MarkAllInv(g: Grid)
    requires g.Valid()
    ensures ScanInv(g, g.width, 0, MarkAll(g))
  {
    var st := ScanToInv(g, g.width, 0);
  }

  /** After markBuildings no cell is '#'; cells that were not '#' (in particular ' ') are
      unchanged; every former '#' holds a label in 36..211; 4-adjacent former '#' cells hold
      the same label. */
  lemma MarkAllLabelsEveryBuilding(g: Grid)
    requires g.Valid()
    ensures var r := MarkAll(g).grid;
      && r.Valid() && r.width == g.width && r.height == g.height
      && (forall x, y :: r.Get(x, y) != BuildingPlace)
      && (forall x, y :: g.Get(x, y) != BuildingPlace ==> r.Get(x, y) == g.Get(x, y))
      && (forall x, y :: g.Get(x, y) == BuildingPlace ==> IsLabel(r.Get(x, y)))
      && (forall a, b :: Adjacent(a, b) && g.GetPos(a) == BuildingPlace && g.GetPos(b) == BuildingPlace
            ==> r.GetPos(a) == r.GetPos(b))
  {
    var r := MarkAll(g).grid;
    MarkAllInv(g);
    forall x, y ensures r.Get(x, y) != BuildingPlace {
      GetLabelsOnly(g, r, x, y);
      if g.Get(x, y) == BuildingPlace {
        var q := (x, y);
        ConnectedRefl(g, q);
        assert Before(q, g.width, 0);
      }
    }
    forall x, y ensures g.Get(x, y) != BuildingPlace ==> r.Get(x, y) == g.Get(x, y) {
      GetLabelsOnly(g, r, x, y);
    }
    forall x, y ensures g.Get(x, y) == BuildingPlace ==> IsLabel(r.Get(x, y)) {
      GetLabelsOnly(g, r, x, y);
    }
  }

  /** Every cell of one maximal group of '#' cells ends with the same label. */
  lemma MarkAllGroupShareLabel(g: Grid, a: Pos, b: Pos)
    requires g.Valid() && Connected(g, a, b)
    ensures MarkAll(g).grid.GetPos(a) == MarkAll(g).grid.GetPos(b)
  {
    MarkAllInv(g);
    var p :| IsPath(g, p) && p[0] == a && p[|p| - 1] == b;
    UniformAlongPath(g, MarkAll(g).grid, p, |p| - 1);
  }

  /** markBuildings returns the number of maximal 4-connected groups of '#' cells. */
  lemma MarkAllCountsComponents(g: Grid)
    requires g.Valid()
    ensures MarkAll(g).count == |Components(g)|
  {
    MarkAllInv(g);
    FoundAll(g);
  }

  /** Every '#' cell has a leader: the first cell of its group in scan order. */
  lemma LeaderExists(g: Grid, q: Pos)
    requires g.Valid() && g.GetPos(q) == BuildingPlace
    ensures exists a :: IsLeader(g, a) && Connected(g, a, q)
  {
    ConnectedRefl(g, q);
    var a := FirstConnected(g, q, 0, 0);
  }

  /** Searching from (x, y) in scan order, with nothing before (x, y) connected to q and q
      not before (x, y), finds q's leader. */
  lemma FirstConnected(g: Grid, q: Pos, x: int, y: int) returns (a: Pos)
    requires g.Valid() && g.GetPos(q) == BuildingPlace && Connected(g, q, q)
    requires 0 <= x <= q.0 && 0 <= y <= g.height && !Before(q, x, y)
    requires forall b :: Before(b, x, y) && Connected(g, b, q) ==> false
    ensures IsLeader(g, a) && Connected(g, a, q)
    decreases q.0 - x, g.height - y
  {
    if y == g.height {
      ConnectedEnds(g, q, q);
      assert x < q.0;
      forall b | Before(b, x + 1, 0) && Connected(g, b, q) ensures false {
        ConnectedEnds(g, b, q);
        assert Before(b, x, y);
      }
      a := FirstConnected(g, q, x + 1, 0);
    } else if Connected(g, (x, y), q) {
      a := (x, y);
      ConnectedEnds(g, a, q);
      forall b | Connected(g, b, a) ensures !Before(b, a.0, a.1) {
        ConnectedTrans(g, b, a, q);
      }
    } else {
      assert (x, y) != q;
      a := FirstConnected(g, q, x, y + 1);
    }
  }

  /** The group whose leader is a was found when |FoundBefore(g, a.0, a.1)| groups had been
      found, fewer than the final count, and all its cells carry LabelFor of that rank
      (36 + rank % 176). */
  lemma MarkAllLabelsByRank(g: Grid, a: Pos, q: Pos)
    requires g.Valid() && IsLeader(g, a) && Connected(g, a, q)
    ensures MarkAll(g).grid.GetPos(q) == LabelFor(|FoundBefore(g, a.0, a.1)|)
    ensures |FoundBefore(g, a.0, a.1)| < MarkAll(g).count
  {
    MarkAllInv(g);
    ConnectedEnds(g, a, q);
    assert Before(a, g.width, 0);
    LeaderRankBelowTotal(g, a);
  }

  /** A leader's group is not among those found before it, but is among all groups. */
  lemma LeaderRankBelowTotal(g: Grid, a: Pos)
    requires IsLeader(g, a)
    ensures |FoundBefore(g, a.0, a.1)| < |FoundBefore(g, g.width, 0)|
  {
    var earlier := FoundBefore(g, a.0, a.1);
    var all := FoundBefore(g, g.width, 0);
    assert earlier <= all;
    assert Component(g, a) in all by { assert (a.0, a.1) == a; }
    assert Component(g, a) !in earlier by {
      if Component(g, a) in earlier {
        var i, j :| 0 <= i < g.width && 0 <= j < g.height && g.Get(i, j) == BuildingPlace
          && Before((i, j), a.0, a.1) && Component(g, (i, j)) == Component(g, a);
        ComponentEq(g, (i, j), a);
        assert false;
      }
    }
    StrictSubsetCard(earlier, all, Component(g, a));
  }

  /** Groups are found in the order of their leaders: a leader scanned earlier has a
      smaller discovery rank. */
  lemma LeaderRanksDistinct(g: Grid, a: Pos, a2: Pos)
    requires IsLeader(g, a) && IsLeader(g, a2) && Before(a, a2.0, a2.1)
    ensures |FoundBefore(g, a.0, a.1)| < |FoundBefore(g, a2.0, a2.1)|
  {
    var earlier := FoundBefore(g, a.0, a.1);
    var later := FoundBefore(g, a2.0, a2.1);
    assert earlier <= later;
    assert Component(g, a) in later by { assert (a.0, a.1) == a; }
    assert Component(g, a) !in earlier by {
      if Component(g, a) in earlier {
        var i, j :| 0 <= i < g.width && 0 <= j < g.height && g.Get(i, j) == BuildingPlace
          && Before((i, j), a.0, a.1) && Component(g, (i, j)) == Component(g, a);
        ComponentEq(g, (i, j), a);
        assert false;
      }
    }
    StrictSubsetCard(earlier, later, Component(g, a));
  }

  /** While there are at most 176 groups, cells of different groups end with different
      labels. */
  lemma MarkAllDistinctLabels(g: Grid, p: Pos, q: Pos)
    requires g.Valid() && g.GetPos(p) == BuildingPlace && g.GetPos(q) == BuildingPlace
    requires !Connected(g, p, q) && MarkAll(g).count <= LabelCount
    ensures MarkAll(g).grid.GetPos(p) != MarkAll(g).grid.GetPos(q)
  {
    LeaderExists(g, p);
    LeaderExists(g, q);
    var a :| IsLeader(g, a) && Connected(g, a, p);
    var b :| IsLeader(g, b) && Connected(g, b, q);
    MarkAllLabelsByRank(g, a, p);
    MarkAllLabelsByRank(g, b, q);
    if a == b {
      ConnectedSym(g, a, p);
      ConnectedTrans(g, p, a, q);
      assert false;
    }
    if Before(a, b.0, b.1) {
      LeaderRanksDistinct(g, a, b);
    } else {
      assert Before(b, a.0, a.1);
      LeaderRanksDistinct(g, b, a);
    }
  }

  /** While there are at most 176 groups, two '#' cells end with the same label exactly
      when they belong to the same group. */
  lemma MarkAllSameLabelIffConnected(g: Grid, p: Pos, q: Pos)
    requires g.Valid() && g.GetPos(p) == BuildingPlace && g.GetPos(q) == BuildingPlace
    requires MarkAll(g).count <= LabelCount
    ensures MarkAll(g).grid.GetPos(p) == MarkAll(g).grid.GetPos(q) <==> Connected(g, p, q)
  {
    if Connected(g, p, q) {
      MarkAllGroupShareLabel(g, p, q);
    } else {
      MarkAllDistinctLabels(g, p, q);
    }
  }

  lemma {:induction false} StrictSubsetCard<T>(small: set<T>, big: set<T>, extra: T)
    requires small <= big && extra in big && extra !in small
    ensures |small| < |big|
    decreases |small|
  {
    if small == {} {
      assert extra in big;
    } else {
      var x :| x in small;
      StrictSubsetCard(small - {x}, big - {x}, extra);
    }
  }

  lemma {:induction false} ScanToNoBuildings(g: Grid, x: int, y: int)
    requires g.Valid() && 0 <= x <= g.width && 0 <= y <= g.height && (x == g.width ==> y == 0)
    requires forall i, j :: g.Get(i, j) != BuildingPlace
    ensures ScanTo(g, x, y) == ScanState(g, 0, 0)
    decreases x, y
  {
    if y == 0 {
      if x > 0 {
        ScanToNoBuildings(g, x - 1, g.height);
      }
    } else {
      ScanToNoBuildings(g, x, y - 1);
      assert g.Get(x, y - 1) != BuildingPlace;
    }
  }

  /** On a grid without '#' cells the scan changes nothing, finds nothing and makes no
      fill call. */
  lemma MarkAllNoBuildings(g: Grid)
    requires g.Valid() && forall i, j :: g.Get(i, j) != BuildingPlace
    ensures MarkAll(g) == ScanState(g, 0, 0)
  {
    ScanToNoBuildings(g, g.width, 0);
  }

  /** A second markBuildings on the output of the first finds nothing and leaves it as it is. */
  lemma MarkAllIdempotent(g: Grid)
    requires g.Valid()
    ensures MarkAll(g).grid.Valid()
    ensures MarkAll(MarkAll(g).grid) == ScanState(MarkAll(g).grid, 0, 0)
  {
    MarkAllLabelsEveryBuilding(g);
    MarkAllNoBuildings(MarkAll(g).grid);
  }

  /** Each group found costs at least one fill call. */
  lemma {:induction false} ScanToCalls(g: Grid, x: int, y: int)
    requires g.Valid() && 0 <= x <= g.width && 0 <= y <= g.height && (x == g.width ==> y == 0)
    ensures ScanTo(g, x, y).calls >= ScanTo(g, x, y).count
    decreases x, y
  {
    if y == 0 {
      if x > 0 {
        ScanToCalls(g, x - 1, g.height);
      }
    } else {
      ScanToCalls(g, x, y - 1);
    }
  }

  /** A single '#' cell: one group, labelled 36, after one fill call. */
  lemma SingleBuilding()
    ensures MarkAll(Grid(1, 1, [BuildingPlace])) == ScanState(Grid(1, 1, [FirstLabel]), 1, 1)
  {
    var g := Grid(1, 1, [BuildingPlace]);
    var h := g.Set(0, 0, FirstLabel);
    assert h == Grid(1, 1, [FirstLabel]);
    assert Fill(h, 0, 0, FirstLabel) == FillResult(h, 1);
    assert ScanTo(g, 0, 1) == ScanState(h, 1, 1);
  }

  /** A 3 x 1 row of '#': one group, every cell labelled 36, three fill calls
      (left end, then rightwards). */
  lemma RowOfThree()
    ensures MarkAll(Grid(3, 1, [BuildingPlace, BuildingPlace, BuildingPlace]))
         == ScanState(Grid(3, 1, [FirstLabel, FirstLabel, FirstLabel]), 1, 3)
  {
    var B, L := BuildingPlace, FirstLabel;
    var g := Grid(3, 1, [B, B, B]);
    var g1 := Grid(3, 1, [L, B, B]);
    var g2 := Grid(3, 1, [L, L, B]);
    var g3 := Grid(3, 1, [L, L, L]);
    assert g.Set(0, 0, L) == g1;
    assert g1.Set(1, 0, L) == g2;
    assert g2.Set(2, 0, L) == g3;
    assert Fill(g3, 2, 0, L) == FillResult(g3, 1);
    assert Fill(g2, 1, 0, L) == FillResult(g3, 2);
    assert Fill(g1, 0, 0, L) == FillResult(g3, 3);
    assert ScanTo(g, 0, 1) == ScanState(g3, 1, 3);
    assert ScanTo(g, 1, 1) == ScanState(g3, 1, 3);
    assert ScanTo(g, 2, 1) == ScanState(g3, 1, 3);
  }

  /** A 2 x 2 block of '#': one group, but five fill calls for four cells, because the last
      branch of the first call acts on its stale snapshot and enters (0, 1) a second time. */
  lemma BlockOfFour()
    ensures MarkAll(Grid(2, 2, [BuildingPlace, BuildingPlace, BuildingPlace, BuildingPlace]))
         == ScanState(Grid(2, 2, [FirstLabel, FirstLabel, FirstLabel, FirstLabel]), 1, 5)
  {
    var B, L := BuildingPlace, FirstLabel;
    var g := Grid(2, 2, [B, B, B, B]);
    var g1 := Grid(2, 2, [L, B, B, B]);
    var g2 := Grid(2, 2, [L, L, B, B]);
    var g3 := Grid(2, 2, [L, L, B, L]);
    var g4 := Grid(2, 2, [L, L, L, L]);
    assert g.Set(0, 0, L) == g1;
    assert g1.Set(1, 0, L) == g2;
    assert g2.Set(1, 1, L) == g3;
    assert g3.Set(0, 1, L) == g4;
    assert g4.Set(0, 1, L) == g4;
    assert Fill(g4, 0, 1, L) == FillResult(g4, 1);
    assert Fill(g3, 1, 1, L) == FillResult(g4, 2);
    assert Fill(g2, 1, 0, L) == FillResult(g4, 3);
    assert Fill(g1, 0, 0, L) == FillResult(g4, 5);
    assert ScanTo(g, 0, 1) == ScanState(g4, 1, 5);
    assert ScanTo(g, 0, 2) == ScanState(g4, 1, 5);
    assert ScanTo(g, 1, 1) == ScanState(g4, 1, 5);
    assert ScanTo(g, 1, 2) == ScanState(g4, 1, 5);
  }
}
