/** The program's state and operations as it runs them: the Map struct with its cell buffer,
    the process-wide step counter, generateMap, markNeighbors and markBuildings. Each method
    is proved to compute what the functions of modules Flood and Scan describe. */
module BuildingMap {
  import opened Cells
  import opened Grids
  import opened Flood
  import opened Scan

  /** The process-wide step counter; it starts at 0. */
  class StepCounter {
    var value: int

    constructor ()
      ensures value == 0
    {
      value := 0;
    }
  }

  /** The map: width, height and the row-major buffer of width * height cells. */
  class Map {
    var width: int
    var height: int
    var data: array<int>

    predicate Valid()
      reads this
    {
      0 <= width && 0 <= height && data.Length == width * height
    }

    /** The grid value the map holds now. */
    function View(): (g: Grid)
      reads this, data
      ensures Valid() ==> g.Valid()
    {
      Grid(width, height, data[..])
    }

    /** A map of the given size whose buffer is width * height cells of '\0', as resizing
        an empty string leaves it. */
    constructor (width: int, height: int)
      requires 0 <= width && 0 <= height
      ensures Valid() && this.width == width && this.height == height && fresh(data)
      ensures forall i :: 0 <= i < data.Length ==> data[i] == InvalidPlace
    {
      this.width := width;
      this.height := height;
      MulNonNegative(width, height);
      data := new int[width * height](_ => InvalidPlace);
    }

    /** The unchecked accessor, read side: the caller guarantees (x, y) is in the map. */
    function At(x: int, y: int): (c: int)
      reads this, data
      requires Valid() && 0 <= x < width && 0 <= y < height
      ensures c == View().At(x, y)
    {
      IndexBounds(width, height, x, y);
      data[y * width + x]
    }

    /** The bounds-checked read. */
    function Get(x: int, y: int): (c: int)
      reads this, data
      ensures x < 0 || y < 0 || x >= width || y >= height ==> c == InvalidPlace
      ensures Valid() && 0 <= x < width && 0 <= y < height ==> c == At(x, y)
    {
      View().Get(x, y)
    }

    /** The unchecked accessor, write side: `at(x, y) = v`. */
    method SetAt(x: int, y: int, v: int)
      requires Valid() && 0 <= x < width && 0 <= y < height
      modifies data
      ensures View() == old(View()).Set(x, y, v)
    {
      IndexBounds(width, height, x, y);
      data[y * width + x] := v;
    }
  }

  /** The draw that decides cell (x, y): generateMap consumes one draw per cell, x in the
      outer loop and y in the inner one, so cell (x, y) gets draw number x * height + y. */
  function DrawFor(draws: seq<bool>, width: int, height: int, x: int, y: int): bool
    requires |draws| == width * height && 0 <= x < width && 0 <= y < height
  {
    IndexBounds(height, width, y, x);
    draws[DrawNumber(height, x, y)]
  }

  /** What generateMap writes at (x, y): '#' on a draw below the threshold, ' ' otherwise. */
  function DrawnCell(draws: seq<bool>, width: int, height: int, x: int, y: int): (c: int)
    requires |draws| == width * height && 0 <= x < width && 0 <= y < height
    ensures c == BuildingPlace || c == EmptyPlace
  {
    if DrawFor(draws, width, height, x, y) then BuildingPlace else EmptyPlace
  }

  /** The number of the draw that decides cell (x, y). */
  function DrawNumber(height: int, x: int, y: int): int {
    x * height + y
  }

  /** generateMap never consumes one draw for two cells: distinct cells take distinct draw
      numbers. */
  lemma DrawNumbersDistinct(width: int, height: int)
    ensures forall x, y, x', y' ::
              (0 <= x < width && 0 <= y < height && 0 <= x' < width && 0 <= y' < height
               && DrawNumber(height, x, y) == DrawNumber(height, x', y')) ==> x == x' && y == y'
  {
    forall x, y, x', y' | 0 <= x < width && 0 <= y < height && 0 <= x' < width && 0 <= y' < height
      && DrawNumber(height, x, y) == DrawNumber(height, x', y')
      ensures x == x' && y == y'
    {
      IndexUnique(height, y, x, y', x');
    }
  }

  /** generateMap leaves no draw unused: every draw number 0 .. width * height - 1 decides
      some cell. */
  lemma DrawOwner(width: int, height: int, k: int) returns (x: int, y: int)
    requires 0 <= width && 0 <= height && 0 <= k < width * height
    ensures 0 <= x < width && 0 <= y < height && DrawNumber(height, x, y) == k
  {
    x, y := k / height, k % height;
    if x >= width {
      MulMono(width, x, height);
      assert false;
    }
  }

  /** The loop invariant of generateMap: the cells visited before (x, y) hold their draw,
      every other cell still holds '\0'. */
  ghost predicate DrawnBefore(g: Grid, draws: seq<bool>, x: int, y: int)
    requires g.Valid() && |draws| == g.width * g.height
  {
    forall i, j :: 0 <= i < g.width && 0 <= j < g.height ==>
      g.At(i, j) == if Before((i, j), x, y) then DrawnCell(draws, g.width, g.height, i, j) else InvalidPlace
  }

  lemma BlankDrawn(g: Grid, draws: seq<bool>)
    requires g.Valid() && |draws| == g.width * g.height
    requires forall k :: 0 <= k < |g.cells| ==> g.cells[k] == InvalidPlace
    ensures DrawnBefore(g, draws, 0, 0)
  {
    forall i, j | 0 <= i < g.width && 0 <= j < g.height
      ensures g.At(i, j) == InvalidPlace
    {
      IndexBounds(g.width, g.height, i, j);
    }
  }

  lemma DrawnStep(g: Grid, draws: seq<bool>, x: int, y: int)
    requires g.Valid() && |draws| == g.width * g.height && g.InRange(x, y)
    requires DrawnBefore(g, draws, x, y)
    ensures DrawnBefore(g.Set(x, y, DrawnCell(draws, g.width, g.height, x, y)), draws, x, y + 1)
  {
  }

  lemma DrawnColumn(g: Grid, draws: seq<bool>, x: int)
    requires g.Valid() && |draws| == g.width * g.height
    requires DrawnBefore(g, draws, x, g.height)
    ensures DrawnBefore(g, draws, x + 1, 0)
  {
  }

  /** generateMap, with the random draws given in the order the program makes them:
      true stands for a draw below the building threshold. */
  method GenerateMap(width: int, height: int, draws: seq<bool>) returns (m: Map)
    requires 0 <= width && 0 <= height && |draws| == width * height
    ensures fresh(m) && fresh(m.data) && m.Valid() && m.width == width && m.height == height
    ensures forall x, y :: 0 <= x < width && 0 <= y < height ==> m.At(x, y) == DrawnCell(draws, width, height, x, y)
  {
    m := new Map(width, height);
    BlankDrawn(m.View(), draws);
    var next := 0;
    var x := 0;
    while x < width
      invariant 0 <= x <= width && next == x * height
      invariant fresh(m) && fresh(m.data) && m.Valid() && m.width == width && m.height == height
      invariant DrawnBefore(m.View(), draws, x, 0)
    {
      var y := 0;
      while y < height
        invariant 0 <= y <= height && next == x * height + y
        invariant fresh(m) && fresh(m.data) && m.Valid() && m.width == width && m.height == height
        invariant DrawnBefore(m.View(), draws, x, y)
      {
        IndexBounds(height, width, y, x);
        assert draws[next] == DrawFor(draws, width, height, x, y);
        DrawnStep(m.View(), draws, x, y);
        m.SetAt(x, y, if draws[next] then BuildingPlace else EmptyPlace);
        next := next + 1;
        y := y + 1;
      }
      DrawnColumn(m.View(), draws, x);
      x := x + 1;
    }
    forall i, j | 0 <= i < width && 0 <= j < height
      ensures m.At(i, j) == DrawnCell(draws, width, height, i, j)
    {
      assert Before((i, j), width, 0);
    }
  }

  /** markNeighbors: count a step, snapshot the four neighbours, then visit each in the
      order top, left, right, bottom. */
  method MarkNeighbors(m: Map, steps: StepCounter, x: int, y: int, index: int)
    requires m.Valid() && index != BuildingPlace
    modifies m.data, steps
    ensures m.View() == Fill(old(m.View()), x, y, index).grid
    ensures steps.value == old(steps.value) + Fill(old(m.View()), x, y, index).calls
    decreases Buildings(m.data[..]), 1
  {
    steps.value := steps.value + 1;
    ghost var g := m.View();
    var top := m.Get(x, y - 1);
    var left := m.Get(x - 1, y);
    var right := m.Get(x + 1, y);
    var bottom := m.Get(x, y + 1);
    assert top == g.Get(x, y - 1) && left == g.Get(x - 1, y);
    assert right == g.Get(x + 1, y) && bottom == g.Get(x, y + 1);
    ghost var c0 := steps.value;
    ghost var s1 := Branch(g, g, top, x, y - 1, index);
    Visit(m, steps, g, top, x, y - 1, index);
    assert m.View() == s1.grid && steps.value == c0 + s1.calls;
    ghost var s2 := Branch(g, s1.grid, left, x - 1, y, index);
    Visit(m, steps, g, left, x - 1, y, index);
    assert m.View() == s2.grid && steps.value == c0 + s1.calls + s2.calls;
    ghost var s3 := Branch(g, s2.grid, right, x + 1, y, index);
    Visit(m, steps, g, right, x + 1, y, index);
    assert m.View() == s3.grid && steps.value == c0 + s1.calls + s2.calls + s3.calls;
    ghost var s4 := Branch(g, s3.grid, bottom, x, y + 1, index);
    Visit(m, steps, g, bottom, x, y + 1, index);
    assert m.View() == s4.grid && steps.value == c0 + s1.calls + s2.calls + s3.calls + s4.calls;
    assert Fill(g, x, y, index) == FillResult(s4.grid, 1 + s1.calls + s2.calls + s3.calls + s4.calls);
  }

  /** One neighbour block of markNeighbors: if the snapshot `seen` of (x, y), taken from the
      map `g` of the enclosing call, was '#', write the mark there and recurse from it. */
  method Visit(m: Map, steps: StepCounter, ghost g: Grid, seen: int, x: int, y: int, index: int)
    requires m.Valid() && g.Valid() && index != BuildingPlace
    requires Relabels(g, m.View(), index) && seen == g.Get(x, y)
    modifies m.data, steps
    ensures m.View() == Branch(g, old(m.View()), seen, x, y, index).grid
    ensures steps.value == old(steps.value) + Branch(g, old(m.View()), seen, x, y, index).calls
    decreases Buildings(g.cells), 0
  {
    if seen == BuildingPlace {
      RelabelShrinks(g, m.View(), x, y, index);
      m.SetAt(x, y, index);
      MarkNeighbors(m, steps, x, y, index);
    }
  }

  /** One cell of markBuildings' scan: count a step and, when the cell is still '#', give
      it the next label and flood-fill from it. */
  method ScanCell(m: Map, steps: StepCounter, ghost g: Grid, ghost st: ScanState, x: int, y: int, counter: int)
      returns (counter': int)
    requires m.Valid() && g.Valid() && LabelsOnly(g, st.grid) && g.InRange(x, y)
    requires m.View() == st.grid && counter == st.count
    modifies m.data, steps
    ensures var r := ScanStep(g, st, x, y);
      m.View() == r.grid && counter' == r.count && steps.value == old(steps.value) + 1 + r.calls - st.calls
  {
    steps.value := steps.value + 1;
    counter' := counter;
    if m.At(x, y) == BuildingPlace {
      var index := counter' % (212 - 36) + 36;
      counter' := counter' + 1;
      m.SetAt(x, y, index);
      MarkNeighbors(m, steps, x, y, index);
    }
  }

  /** The inner loop of markBuildings: one ScanCell per position of column x. */
  method ScanColumn(m: Map, steps: StepCounter, ghost g: Grid, x: int, counter: int) returns (counter': int)
    requires m.Valid() && g.Valid() && g.width == m.width && g.height == m.height && 0 <= x < m.width
    requires m.View() == ScanTo(g, x, 0).grid && counter == ScanTo(g, x, 0).count
    modifies m.data, steps
    ensures m.View() == ScanTo(g, x + 1, 0).grid && counter' == ScanTo(g, x + 1, 0).count
    ensures steps.value == old(steps.value) + m.height + ScanTo(g, x + 1, 0).calls - ScanTo(g, x, 0).calls
  {
    counter' := counter;
    var y := 0;
    while y < m.height
      invariant 0 <= y <= m.height
      invariant m.View() == ScanTo(g, x, y).grid && counter' == ScanTo(g, x, y).count
      invariant steps.value == old(steps.value) + y + ScanTo(g, x, y).calls - ScanTo(g, x, 0).calls
    {
      ghost var st := ScanTo(g, x, y);
      counter' := ScanCell(m, steps, g, st, x, y, counter');
      ScanToNext(g, x, y);
      y := y + 1;
    }
    ScanToColumn(g, x);
  }

  /** markBuildings: scan x outer, y inner (ScanColumn), one ScanCell per position.
      Returns the number of groups found. */
  method MarkBuildings(m: Map, steps: StepCounter) returns (count: int)
    requires m.Valid()
    modifies m.data, steps
    ensures m.View() == MarkAll(old(m.View())).grid
    ensures count == MarkAll(old(m.View())).count
    ensures steps.value == old(steps.value) + m.width * m.height + MarkAll(old(m.View())).calls
  {
    ghost var g := m.View();
    var counter := 0;
    var x := 0;
    while x < m.width
      invariant 0 <= x <= m.width && g.Valid() && g.width == m.width && g.height == m.height
      invariant m.View() == ScanTo(g, x, 0).grid && counter == ScanTo(g, x, 0).count
      invariant steps.value == old(steps.value) + x * m.height + ScanTo(g, x, 0).calls
    {
      counter := ScanColumn(m, steps, g, x, counter);
      assert (x + 1) * m.height == x * m.height + m.height;
      x := x + 1;
    }
    count := counter;
  }
}
