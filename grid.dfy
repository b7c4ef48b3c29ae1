/** The building map as a value: width, height and a row-major cell buffer indexed by
    y * width + x. The imperative Map class of module BuildingMap has this as its view. */
module Grids {
  import opened Cells

  /** A position (x, y); it may lie outside the grid. */
  type Pos = (int, int)

  datatype Grid = Grid(width: int, height: int, cells: seq<int>)
  {
    /** The shape every map the generator builds has. */
    predicate Valid() {
      0 <= width && 0 <= height && |cells| == width * height
    }

    predicate InRange(x: int, y: int) {
      0 <= x < width && 0 <= y < height
    }

    /** The unchecked accessor: the caller guarantees the position lies in the grid. */
    function At(x: int, y: int): int
      requires Valid() && InRange(x, y)
    {
      IndexBounds(width, height, x, y);
      cells[y * width + x]
    }

    /** The bounds-checked read: InvalidPlace outside the grid or past the end of the buffer. */
    function Get(x: int, y: int): (c: int)
      ensures !InRange(x, y) ==> c == InvalidPlace
      ensures Valid() && InRange(x, y) ==> c == At(x, y)
    {
      if x < 0 || y < 0 || x >= width || y >= height then InvalidPlace
      else
        var pos := y * width + x;
        MulNonNegative(y, width);
        assert Valid() ==> pos < |cells| by {
          if Valid() { IndexBounds(width, height, x, y); }
        }
        if pos < |cells| then cells[pos] else InvalidPlace
    }

    /** Get at a position given as a pair. */
    function GetPos(p: Pos): int {
      Get(p.0, p.1)
    }

    /** The grid after a write through the unchecked accessor. */
    function Set(x: int, y: int, v: int): (r: Grid)
      requires Valid() && InRange(x, y)
      ensures r.Valid() && r.width == width && r.height == height
      ensures r.At(x, y) == v
      ensures forall x', y' :: InRange(x', y') && (x', y') != (x, y) ==> r.At(x', y') == At(x', y')
    {
      IndexBounds(width, height, x, y);
      var r := Grid(width, height, cells[y * width + x := v]);
      forall x', y' | InRange(x', y') && (x', y') != (x, y)
        ensures r.At(x', y') == At(x', y')
      {
        IndexBounds(width, height, x', y');
        if y' * width + x' == y * width + x {
          IndexUnique(width, x, y, x', y');
        }
      }
      r
    }
  }

  /** The number of '#' cells of a buffer: the measure that makes the flood fill terminate. */
  function Buildings(s: seq<int>): (n: nat)
    ensures n <= |s|
    ensures n == 0 <==> forall i :: 0 <= i < |s| ==> s[i] != BuildingPlace
  {
    if s == [] then 0 else (if s[0] == BuildingPlace then 1 else 0) + Buildings(s[1..])
  }

  /** g' is g with some '#' cells overwritten by `mark`, and nothing else changed. */
  ghost predicate Relabels(g: Grid, g': Grid, mark: int) {
    && g'.width == g.width && g'.height == g.height && |g'.cells| == |g.cells|
    && forall i {:trigger g'.cells[i]} :: 0 <= i < |g.cells| ==>
         g'.cells[i] == g.cells[i] || (g.cells[i] == BuildingPlace && g'.cells[i] == mark)
  }

  /** g' is g with some '#' cells overwritten by mark codes, and nothing else changed. */
  ghost predicate LabelsOnly(g: Grid, g': Grid) {
    && g'.width == g.width && g'.height == g.height && |g'.cells| == |g.cells|
    && forall i :: 0 <= i < |g.cells| ==>
         g'.cells[i] == g.cells[i] || (g.cells[i] == BuildingPlace && IsLabel(g'.cells[i]))
  }

  /** No cell of g' is '#' that was not already '#' in g. */
  ghost predicate NoNewBuildings(g: Grid, g': Grid) {
    && g'.width == g.width && g'.height == g.height && |g'.cells| == |g.cells|
    && forall i :: 0 <= i < |g.cells| && g'.cells[i] == BuildingPlace ==> g.cells[i] == BuildingPlace
  }

  /** None of the four neighbours of (x, y) reads as '#'. */
  predicate NoBuildingNeighbour(g: Grid, x: int, y: int) {
    && g.Get(x, y - 1) != BuildingPlace
    && g.Get(x - 1, y) != BuildingPlace
    && g.Get(x + 1, y) != BuildingPlace
    && g.Get(x, y + 1) != BuildingPlace
  }

  lemma RelabelsTrans(g: Grid, h: Grid, k: Grid, mark: int)
    requires Relabels(g, h, mark) && Relabels(h, k, mark)
    ensures Relabels(g, k, mark)
  {
  }

  lemma RelabelsNoNew(g: Grid, g': Grid, mark: int)
    requires mark != BuildingPlace && Relabels(g, g', mark)
    ensures NoNewBuildings(g, g')
  {
  }

  /** Relabels, read through the bounds-checked accessor. */
  lemma GetRelabels(g: Grid, g': Grid, mark: int, x: int, y: int)
    requires Relabels(g, g', mark)
    ensures g'.Get(x, y) == g.Get(x, y) || (g.Get(x, y) == BuildingPlace && g'.Get(x, y) == mark)
  {
  }

  /** LabelsOnly, read through the bounds-checked accessor. */
  lemma GetLabelsOnly(g: Grid, g': Grid, x: int, y: int)
    requires LabelsOnly(g, g')
    ensures g'.Get(x, y) == g.Get(x, y) || (g.Get(x, y) == BuildingPlace && IsLabel(g'.Get(x, y)))
  {
  }

  /** A '#' read after a change that creates no '#' was already a '#' read before. */
  lemma GetNoNew(g: Grid, g': Grid, x: int, y: int)
    requires NoNewBuildings(g, g')
    ensures g'.Get(x, y) == BuildingPlace ==> g.Get(x, y) == BuildingPlace
  {
  }

  lemma NoBuildingNeighbourStays(g: Grid, g': Grid, x: int, y: int)
    requires NoNewBuildings(g, g') && NoBuildingNeighbour(g, x, y)
    ensures NoBuildingNeighbour(g', x, y)
  {
    GetNoNew(g, g', x, y - 1);
    GetNoNew(g, g', x - 1, y);
    GetNoNew(g, g', x + 1, y);
    GetNoNew(g, g', x, y + 1);
  }

  /** Overwriting one more '#' of the original with `mark` keeps the relation and
      strictly lowers the number of '#' cells. */
  lemma RelabelShrinks(g: Grid, h: Grid, x: int, y: int, mark: int)
    requires g.Valid() && mark != BuildingPlace && Relabels(g, h, mark)
    requires g.Get(x, y) == BuildingPlace
    ensures h.Valid() && h.InRange(x, y)
    ensures Relabels(g, h.Set(x, y, mark), mark)
    ensures Relabels(h, h.Set(x, y, mark), mark)
    ensures Buildings(h.Set(x, y, mark).cells) < Buildings(g.cells)
  {
    var i := y * g.width + x;
    var h' := h.Set(x, y, mark);
    assert h'.cells == h.cells[i := mark];
    CountShrinks(g.cells, h'.cells, mark, i);
  }

  lemma {:induction false} CountShrinks(s: seq<int>, t: seq<int>, mark: int, j: int)
    requires mark != BuildingPlace && |s| == |t|
    requires forall i :: 0 <= i < |s| ==> t[i] == s[i] || (s[i] == BuildingPlace && t[i] == mark)
    requires 0 <= j < |s| && s[j] == BuildingPlace && t[j] != BuildingPlace
    ensures Buildings(t) < Buildings(s)
    decreases |s|
  {
    if j == 0 {
      CountNoMore(s[1..], t[1..], mark);
    } else {
      CountShrinks(s[1..], t[1..], mark, j - 1);
    }
  }

  lemma {:induction false} CountNoMore(s: seq<int>, t: seq<int>, mark: int)
    requires mark != BuildingPlace && |s| == |t|
    requires forall i :: 0 <= i < |s| ==> t[i] == s[i] || (s[i] == BuildingPlace && t[i] == mark)
    ensures Buildings(t) <= Buildings(s)
    decreases |s|
  {
    if s != [] {
      CountNoMore(s[1..], t[1..], mark);
    }
  }

  lemma MulNonNegative(a: int, b: int)
    requires 0 <= a && 0 <= b
    ensures 0 <= a * b
  {
  }

  lemma {:induction false} MulMono(a: int, b: int, c: int)
    requires a <= b && 0 <= c
    ensures a * c <= b * c
  {
    assert b * c - a * c == (b - a) * c;
    MulNonNegative(b - a, c);
  }

  /** The row-major index of a position in the grid lies in the buffer. */
  lemma IndexBounds(w: int, h: int, x: int, y: int)
    requires 0 <= x < w && 0 <= y < h
    ensures 0 <= y * w + x < w * h
  {
    MulNonNegative(y, w);
    MulMono(y + 1, h, w);
    assert (y + 1) * w == y * w + w;
    assert h * w == w * h;
  }

  /** Distinct positions of the grid have distinct row-major indices. */
  lemma IndexUnique(w: int, x: int, y: int, x': int, y': int)
    requires 0 <= x < w && 0 <= x' < w && y * w + x == y' * w + x'
    ensures x == x' && y == y'
  {
    if y < y' {
      assert (y + 1) * w == y * w + w;
      MulMono(y + 1, y', w);
    } else if y' < y {
      assert (y' + 1) * w == y' * w + w;
      MulMono(y' + 1, y, w);
    }
  }
}
