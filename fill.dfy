/** The recursive 4-neighbour flood fill (markNeighbors) as a function on grid values:
    the grid it leaves behind and how many times it was entered. */
module Flood {
  import opened Cells
  import opened Grids
  import opened Paths

  /** The grid a fill leaves and the number of fill calls it made, itself included. */
  datatype FillResult = FillResult(grid: Grid, calls: nat)

  /** markNeighbors(x, y, mark): one call, then the four branches up, left, right, down.
      All four neighbours are read into a snapshot first; each branch tests its stale
      snapshot value, so a later branch may relabel (with the same mark) a cell an earlier
      branch already claimed and enter it again. */
  function Fill(g: Grid, x: int, y: int, mark: int): (r: FillResult)
    requires g.Valid() && mark != BuildingPlace
    ensures Relabels(g, r.grid, mark)
    ensures r.calls >= 1
    decreases Buildings(g.cells), 1
  {
    var top := g.Get(x, y - 1);
    var left := g.Get(x - 1, y);
    var right := g.Get(x + 1, y);
    var bottom := g.Get(x, y + 1);
    var s1 := Branch(g, g, top, x, y - 1, mark);
    var s2 := Branch(g, s1.grid, left, x - 1, y, mark);
    var s3 := Branch(g, s2.grid, right, x + 1, y, mark);
    var s4 := Branch(g, s3.grid, bottom, x, y + 1, mark);
    FillResult(s4.grid, 1 + s1.calls + s2.calls + s3.calls + s4.calls)
  }

  /** One branch of markNeighbors, run on the current grid h of a fill that started on g:
      when the snapshot `seen` of neighbour (x, y) was '#', write the mark there and fill
      from it; otherwise do nothing. */
  function Branch(g: Grid, h: Grid, seen: int, x: int, y: int, mark: int): (r: FillResult)
    requires g.Valid() && mark != BuildingPlace && Relabels(g, h, mark)
    requires seen == g.Get(x, y)
    ensures Relabels(h, r.grid, mark) && Relabels(g, r.grid, mark)
    ensures seen != BuildingPlace ==> r == FillResult(h, 0)
    decreases Buildings(g.cells), 0
  {
    if seen == BuildingPlace then
      RelabelShrinks(g, h, x, y, mark);
      var f := Fill(h.Set(x, y, mark), x, y, mark);
      RelabelsTrans(h, h.Set(x, y, mark), f.grid, mark);
      RelabelsTrans(g, h.Set(x, y, mark), f.grid, mark);
      f
    else
      FillResult(h, 0)
  }

  /** Every cell that went from '#' (in g) to something else (in r) has no '#' neighbour in r. */
  ghost predicate ClosedOver(g: Grid, r: Grid) {
    forall a, b :: g.Get(a, b) == BuildingPlace && r.Get(a, b) != BuildingPlace ==> NoBuildingNeighbour(r, a, b)
  }

  /** Every cell whose value differs between g and r is reached from s through '#' cells of g. */
  ghost predicate ChangesReached(g: Grid, r: Grid, s: Pos) {
    forall a, b :: r.Get(a, b) != g.Get(a, b) ==> Reached(g, s, (a, b))
  }

  lemma ClosedOverStep(g: Grid, h: Grid, r: Grid)
    requires ClosedOver(g, h) && ClosedOver(h, r) && NoNewBuildings(h, r)
    ensures ClosedOver(g, r)
  {
    forall a, b | g.Get(a, b) == BuildingPlace && r.Get(a, b) != BuildingPlace
      ensures NoBuildingNeighbour(r, a, b)
    {
      if h.Get(a, b) != BuildingPlace {
        NoBuildingNeighbourStays(h, r, a, b);
      }
    }
  }

  /** After markNeighbors(x, y, mark): no neighbour of (x, y) is '#', and no neighbour of a
      cell the call claimed is '#'. */
  lemma {:induction false} FillClosed(g: Grid, x: int, y: int, mark: int)
    requires g.Valid() && mark != BuildingPlace
    ensures NoBuildingNeighbour(Fill(g, x, y, mark).grid, x, y)
    ensures ClosedOver(g, Fill(g, x, y, mark).grid)
    decreases Buildings(g.cells), 1
  {
    var top := g.Get(x, y - 1);
    var left := g.Get(x - 1, y);
    var right := g.Get(x + 1, y);
    var bottom := g.Get(x, y + 1);
    var s1 := Branch(g, g, top, x, y - 1, mark);
    var s2 := Branch(g, s1.grid, left, x - 1, y, mark);
    var s3 := Branch(g, s2.grid, right, x + 1, y, mark);
    var s4 := Branch(g, s3.grid, bottom, x, y + 1, mark);
    var r := s4.grid;
    assert r == Fill(g, x, y, mark).grid;
    BranchClosed(g, g, top, x, y - 1, mark);
    BranchClosed(g, s1.grid, left, x - 1, y, mark);
    BranchClosed(g, s2.grid, right, x + 1, y, mark);
    BranchClosed(g, s3.grid, bottom, x, y + 1, mark);
    RelabelsTrans(s1.grid, s2.grid, s3.grid, mark);
    RelabelsTrans(s1.grid, s3.grid, r, mark);
    RelabelsTrans(s2.grid, s3.grid, r, mark);
    RelabelsNoNew(s1.grid, s2.grid, mark);
    RelabelsNoNew(s2.grid, s3.grid, mark);
    RelabelsNoNew(s3.grid, r, mark);
    ClosedOverStep(g, s1.grid, s2.grid);
    ClosedOverStep(g, s2.grid, s3.grid);
    ClosedOverStep(g, s3.grid, r);
    NeighbourSettled(g, s1.grid, r, top, x, y - 1, mark);
    NeighbourSettled(g, s2.grid, r, left, x - 1, y, mark);
    NeighbourSettled(g, s3.grid, r, right, x + 1, y, mark);
    NeighbourSettled(g, r, r, bottom, x, y + 1, mark);
  }

  /** A neighbour whose branch has run (leaving h) is not '#' in any later grid r. */
  lemma NeighbourSettled(g: Grid, h: Grid, r: Grid, seen: int, x: int, y: int, mark: int)
    requires mark != BuildingPlace && seen == g.Get(x, y)
    requires seen == BuildingPlace ==> h.Get(x, y) != BuildingPlace
    requires Relabels(h, r, mark) && Relabels(g, r, mark)
    ensures r.Get(x, y) != BuildingPlace
  {
    RelabelsNoNew(h, r, mark);
    RelabelsNoNew(g, r, mark);
    GetNoNew(h, r, x, y);
    GetNoNew(g, r, x, y);
  }

  lemma {:induction false} BranchClosed(g: Grid, h: Grid, seen: int, x: int, y: int, mark: int)
    requires g.Valid() && mark != BuildingPlace && Relabels(g, h, mark)
    requires seen == g.Get(x, y)
    ensures seen == BuildingPlace ==> Branch(g, h, seen, x, y, mark).grid.Get(x, y) == mark
    ensures seen == BuildingPlace ==> NoBuildingNeighbour(Branch(g, h, seen, x, y, mark).grid, x, y)
    ensures ClosedOver(h, Branch(g, h, seen, x, y, mark).grid)
    decreases Buildings(g.cells), 0
  {
    if seen == BuildingPlace {
      RelabelShrinks(g, h, x, y, mark);
      var h' := h.Set(x, y, mark);
      var r := Fill(h', x, y, mark).grid;
      FillClosed(h', x, y, mark);
      GetRelabels(h', r, mark, x, y);
      forall a, b | h.Get(a, b) == BuildingPlace && r.Get(a, b) != BuildingPlace
        ensures NoBuildingNeighbour(r, a, b)
      {
        if (a, b) != (x, y) {
          assert h'.Get(a, b) == h.Get(a, b);
        }
      }
    }
  }

  /** Only cells reachable from (x, y) through '#' cells of the entry grid change. */
  lemma {:induction false} FillOnlyReached(g: Grid, x: int, y: int, mark: int)
    requires g.Valid() && mark != BuildingPlace
    ensures ChangesReached(g, Fill(g, x, y, mark).grid, (x, y))
    decreases Buildings(g.cells), 1
  {
    var top := g.Get(x, y - 1);
    var left := g.Get(x - 1, y);
    var right := g.Get(x + 1, y);
    var bottom := g.Get(x, y + 1);
    var s1 := Branch(g, g, top, x, y - 1, mark);
    var s2 := Branch(g, s1.grid, left, x - 1, y, mark);
    var s3 := Branch(g, s2.grid, right, x + 1, y, mark);
    var s4 := Branch(g, s3.grid, bottom, x, y + 1, mark);
    assert s4.grid == Fill(g, x, y, mark).grid;
    BranchOnlyReached(g, g, top, x, y - 1, mark, (x, y));
    BranchOnlyReached(g, s1.grid, left, x - 1, y, mark, (x, y));
    BranchOnlyReached(g, s2.grid, right, x + 1, y, mark, (x, y));
    BranchOnlyReached(g, s3.grid, bottom, x, y + 1, mark, (x, y));
  }

  lemma {:induction false} BranchOnlyReached(g: Grid, h: Grid, seen: int, x: int, y: int, mark: int, s: Pos)
    requires g.Valid() && mark != BuildingPlace && Relabels(g, h, mark)
    requires seen == g.Get(x, y) && Adjacent(s, (x, y))
    requires ChangesReached(g, h, s)
    ensures ChangesReached(g, Branch(g, h, seen, x, y, mark).grid, s)
    decreases Buildings(g.cells), 0
  {
    if seen == BuildingPlace {
      RelabelShrinks(g, h, x, y, mark);
      var h' := h.Set(x, y, mark);
      var r := Fill(h', x, y, mark).grid;
      FillOnlyReached(h', x, y, mark);
      RelabelsNoNew(g, h', mark);
      forall a, b | r.Get(a, b) != g.Get(a, b) ensures Reached(g, s, (a, b)) {
        BranchChangeReached(g, h, r, x, y, mark, s, (a, b));
      }
    }
  }

  /** A cell the branch into (x, y) changed was changed before it, or is (x, y) itself, or
      is reached by the fill from (x, y): in each case it is reached from s. */
  lemma BranchChangeReached(g: Grid, h: Grid, r: Grid, x: int, y: int, mark: int, s: Pos, t: Pos)
    requires g.Valid() && mark != BuildingPlace && Relabels(g, h, mark)
    requires g.Get(x, y) == BuildingPlace && Adjacent(s, (x, y)) && ChangesReached(g, h, s)
    requires h.Valid() && h.InRange(x, y)
    requires NoNewBuildings(g, h.Set(x, y, mark)) && ChangesReached(h.Set(x, y, mark), r, (x, y))
    requires r.GetPos(t) != g.GetPos(t)
    ensures Reached(g, s, t)
  {
    var h' := h.Set(x, y, mark);
    if h.GetPos(t) == g.GetPos(t) {
      if t == (x, y) {
        NeighbourReached(g, s, t);
      } else {
        assert h'.GetPos(t) == h.GetPos(t);
        ReachedThroughNeighbour(g, h', s, (x, y), t);
      }
    }
  }

  /** A '#' next to s is reached from s in one step. */
  lemma NeighbourReached(g: Grid, s: Pos, c: Pos)
    requires Adjacent(s, c) && g.GetPos(c) == BuildingPlace
    ensures Reached(g, s, c)
  {
    var p := [s, c];
    assert IsPath(g, p);
  }

  /** A walk of h' from c, prefixed with a neighbour s of c, is a walk of g from s when h'
      has no '#' that g lacks. */
  lemma ReachedThroughNeighbour(g: Grid, h': Grid, s: Pos, c: Pos, t: Pos)
    requires NoNewBuildings(g, h') && Adjacent(s, c) && g.GetPos(c) == BuildingPlace
    requires Reached(h', c, t)
    ensures Reached(g, s, t)
  {
    var p :| IsPath(h', p) && |p| >= 2 && p[0] == c && p[|p| - 1] == t;
    PathWeaken(g, h', p);
    PathPrepend(g, s, p);
    var q := [s] + p;
    assert q[0] == s && q[|q| - 1] == t;
  }

  /** Along a walk of g from s, a grid r that relabels g with `mark` and is closed over g
      (and at s) carries `mark` on every cell after the first. */
  lemma {:induction false} ClosedPathMarked(g: Grid, r: Grid, s: Pos, p: seq<Pos>, mark: int, i: int)
    requires mark != BuildingPlace && Relabels(g, r, mark)
    requires NoBuildingNeighbour(r, s.0, s.1) && ClosedOver(g, r)
    requires IsPath(g, p) && p[0] == s && 1 <= i < |p|
    ensures r.GetPos(p[i]) == mark
    decreases i
  {
    GetRelabels(g, r, mark, p[i].0, p[i].1);
    if i == 1 {
      AdjacentNotBuilding(r, s, p[1]);
    } else {
      ClosedPathMarked(g, r, s, p, mark, i - 1);
      GetRelabels(g, r, mark, p[i - 1].0, p[i - 1].1);
      AdjacentNotBuilding(r, p[i - 1], p[i]);
    }
  }

  /** What markNeighbors(x, y, mark) leaves: every cell reachable from (x, y) through '#'
      cells of the entry grid holds `mark`, and every other cell is as it was. */
  lemma FillSpec(g: Grid, x: int, y: int, mark: int)
    requires g.Valid() && mark != BuildingPlace
    ensures var r := Fill(g, x, y, mark).grid;
      forall a, b :: r.Get(a, b) == if Reached(g, (x, y), (a, b)) then mark else g.Get(a, b)
  {
    var r := Fill(g, x, y, mark).grid;
    FillClosed(g, x, y, mark);
    FillOnlyReached(g, x, y, mark);
    forall a, b | Reached(g, (x, y), (a, b)) ensures r.Get(a, b) == mark {
      var p :| IsPath(g, p) && |p| >= 2 && p[0] == (x, y) && p[|p| - 1] == (a, b);
      ClosedPathMarked(g, r, (x, y), p, mark, |p| - 1);
    }
  }

  /** A call whose four neighbours hold no '#' changes nothing and counts one step. */
  lemma FillIsolated(g: Grid, x: int, y: int, mark: int)
    requires g.Valid() && mark != BuildingPlace && NoBuildingNeighbour(g, x, y)
    ensures Fill(g, x, y, mark) == FillResult(g, 1)
  {
  }
}
