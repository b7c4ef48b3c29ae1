/** 4-adjacency, walks through '#' cells, and the maximal 4-connected groups of '#' cells. */
module Paths {
  import opened Cells
  import opened Grids

  /** a and b are 4-neighbours: one step up, left, right or down. */
  predicate Adjacent(a: Pos, b: Pos) {
    || (a.0 == b.0 && (a.1 == b.1 + 1 || b.1 == a.1 + 1))
    || (a.1 == b.1 && (a.0 == b.0 + 1 || b.0 == a.0 + 1))
  }

  /** A walk that starts at p[0] and steps between 4-neighbours, every cell after the
      first reading '#' in g. */
  ghost predicate IsPath(g: Grid, p: seq<Pos>) {
    && |p| >= 1
    && forall i :: 0 < i < |p| ==> Adjacent(p[i - 1], p[i]) && g.GetPos(p[i]) == BuildingPlace
  }

  /** b can be reached from a in at least one step through '#' cells of g. */
  ghost predicate Reached(g: Grid, a: Pos, b: Pos) {
    exists p :: IsPath(g, p) && |p| >= 2 && p[0] == a && p[|p| - 1] == b
  }

  /** a and b are '#' cells of the same 4-connected group of g. */
  ghost predicate Connected(g: Grid, a: Pos, b: Pos) {
    g.GetPos(a) == BuildingPlace && exists p :: IsPath(g, p) && p[0] == a && p[|p| - 1] == b
  }

  /** The group of '#' cells connected to a (empty when a is not a '#' cell). */
  ghost function Component(g: Grid, a: Pos): set<Pos> {
    set x, y | 0 <= x < g.width && 0 <= y < g.height && Connected(g, a, (x, y)) :: (x, y)
  }

  /** All maximal 4-connected groups of '#' cells of g. */
  ghost function Components(g: Grid): set<set<Pos>> {
    set x, y | 0 <= x < g.width && 0 <= y < g.height && g.Get(x, y) == BuildingPlace :: Component(g, (x, y))
  }

  lemma AdjacentNotBuilding(g: Grid, a: Pos, b: Pos)
    requires NoBuildingNeighbour(g, a.0, a.1) && Adjacent(a, b)
    ensures g.GetPos(b) != BuildingPlace
  {
  }

  lemma PathAppend(g: Grid, p: seq<Pos>, b: Pos)
    requires IsPath(g, p) && Adjacent(p[|p| - 1], b) && g.GetPos(b) == BuildingPlace
    ensures IsPath(g, p + [b])
  {
  }

  lemma PathPrepend(g: Grid, a: Pos, p: seq<Pos>)
    requires IsPath(g, p) && Adjacent(a, p[0]) && g.GetPos(p[0]) == BuildingPlace
    ensures IsPath(g, [a] + p)
  {
    var q := [a] + p;
    forall i | 0 < i < |q| ensures Adjacent(q[i - 1], q[i]) && g.GetPos(q[i]) == BuildingPlace {
      if i > 1 {
        assert q[i - 1] == p[i - 2] && q[i] == p[i - 1];
      }
    }
  }

  lemma PathSuffix(g: Grid, p: seq<Pos>, j: int)
    requires IsPath(g, p) && 0 <= j < |p|
    ensures IsPath(g, p[j..])
  {
    var q := p[j..];
    forall i | 0 < i < |q| ensures Adjacent(q[i - 1], q[i]) && g.GetPos(q[i]) == BuildingPlace {
      assert q[i - 1] == p[j + i - 1] && q[i] == p[j + i];
    }
  }

  lemma PathConcat(g: Grid, p: seq<Pos>, q: seq<Pos>)
    requires IsPath(g, p) && IsPath(g, q) && p[|p| - 1] == q[0]
    ensures IsPath(g, p + q[1..])
  {
    var r := p + q[1..];
    forall i | 0 < i < |r| ensures Adjacent(r[i - 1], r[i]) && g.GetPos(r[i]) == BuildingPlace {
      if i >= |p| {
        assert r[i] == q[i - |p| + 1];
        assert r[i - 1] == q[i - |p|];
      }
    }
  }

  /** A walk of g' is a walk of g when g' has no '#' that g lacks. */
  lemma PathWeaken(g: Grid, g': Grid, p: seq<Pos>)
    requires NoNewBuildings(g, g') && IsPath(g', p)
    ensures IsPath(g, p)
  {
    forall i | 0 < i < |p| ensures g.GetPos(p[i]) == BuildingPlace {
      GetNoNew(g, g', p[i].0, p[i].1);
    }
  }

  function Reverse(p: seq<Pos>): (r: seq<Pos>)
    ensures |r| == |p| && forall i :: 0 <= i < |p| ==> r[i] == p[|p| - 1 - i]
  {
    if p == [] then [] else Reverse(p[1..]) + [p[0]]
  }

  lemma PathReverse(g: Grid, p: seq<Pos>)
    requires IsPath(g, p) && g.GetPos(p[0]) == BuildingPlace
    ensures IsPath(g, Reverse(p))
  {
    var r := Reverse(p);
    var n := |p|;
    forall i | 0 < i < n ensures Adjacent(r[i - 1], r[i]) && g.GetPos(r[i]) == BuildingPlace {
      assert r[i - 1] == p[n - i] && r[i] == p[n - 1 - i];
      assert Adjacent(p[n - i - 1], p[n - i]);
    }
  }

  lemma ConnectedRefl(g: Grid, a: Pos)
    requires g.GetPos(a) == BuildingPlace
    ensures Connected(g, a, a)
  {
    assert IsPath(g, [a]);
  }

  /** Both ends of a connection are '#' cells of the grid. */
  lemma ConnectedEnds(g: Grid, a: Pos, b: Pos)
    requires Connected(g, a, b)
    ensures g.GetPos(a) == BuildingPlace && g.GetPos(b) == BuildingPlace
    ensures g.InRange(a.0, a.1) && g.InRange(b.0, b.1)
  {
  }

  lemma ConnectedSym(g: Grid, a: Pos, b: Pos)
    requires Connected(g, a, b)
    ensures Connected(g, b, a)
  {
    var p :| IsPath(g, p) && p[0] == a && p[|p| - 1] == b;
    PathReverse(g, p);
    var r := Reverse(p);
    assert r[0] == b && r[|r| - 1] == a;
  }

  lemma ConnectedTrans(g: Grid, a: Pos, b: Pos, c: Pos)
    requires Connected(g, a, b) && Connected(g, b, c)
    ensures Connected(g, a, c)
  {
    var p :| IsPath(g, p) && p[0] == a && p[|p| - 1] == b;
    var q :| IsPath(g, q) && q[0] == b && q[|q| - 1] == c;
    PathConcat(g, p, q);
    var r := p + q[1..];
    assert r[0] == a && r[|r| - 1] == c;
  }

  /** One more step to a '#' neighbour stays in the same group. */
  lemma ConnectedStep(g: Grid, a: Pos, b: Pos, c: Pos)
    requires Connected(g, a, b) && Adjacent(b, c) && g.GetPos(c) == BuildingPlace
    ensures Connected(g, a, c)
  {
    var p :| IsPath(g, p) && p[0] == a && p[|p| - 1] == b;
    PathAppend(g, p, c);
    assert (p + [c])[0] == a;
  }

  lemma ComponentMember(g: Grid, a: Pos, b: Pos)
    ensures b in Component(g, a) <==> Connected(g, a, b)
  {
    if Connected(g, a, b) {
      ConnectedEnds(g, a, b);
      assert (b.0, b.1) in Component(g, a);
    }
  }

  /** Two '#' cells have the same group exactly when they are connected. */
  lemma ComponentEq(g: Grid, a: Pos, b: Pos)
    requires g.GetPos(a) == BuildingPlace && g.GetPos(b) == BuildingPlace
    ensures Component(g, a) == Component(g, b) <==> Connected(g, a, b)
  {
    if Connected(g, a, b) {
      forall c ensures c in Component(g, a) <==> c in Component(g, b) {
        ComponentMember(g, a, c);
        ComponentMember(g, b, c);
        ConnectedSym(g, a, b);
        if Connected(g, a, c) { ConnectedTrans(g, b, a, c); }
        if Connected(g, b, c) { ConnectedTrans(g, a, b, c); }
      }
    } else {
      ConnectedRefl(g, b);
      ComponentMember(g, a, b);
      ComponentMember(g, b, b);
    }
  }

  /** Every group is a maximal 4-connected set of '#' cells: it holds its own cell, any two
      of its cells are connected, and every '#' neighbour of a cell in it belongs to it. */
  lemma ComponentIsMaximalGroup(g: Grid, a: Pos)
    requires g.GetPos(a) == BuildingPlace
    ensures a in Component(g, a)
    ensures forall b, c :: b in Component(g, a) && c in Component(g, a) ==> Connected(g, b, c)
    ensures forall b, c :: b in Component(g, a) && Adjacent(b, c) && g.GetPos(c) == BuildingPlace
              ==> c in Component(g, a)
  {
    ConnectedRefl(g, a);
    ComponentMember(g, a, a);
    forall b, c | b in Component(g, a) && c in Component(g, a) ensures Connected(g, b, c) {
      ComponentMember(g, a, b);
      ComponentMember(g, a, c);
      ConnectedSym(g, a, b);
      ConnectedTrans(g, b, a, c);
    }
    forall b, c | b in Component(g, a) && Adjacent(b, c) && g.GetPos(c) == BuildingPlace
      ensures c in Component(g, a)
    {
      ComponentMember(g, a, b);
      ConnectedStep(g, a, b, c);
      ComponentMember(g, a, c);
    }
  }

  /** Distinct groups share no cell, and every '#' cell lies in a group. */
  lemma ComponentsPartition(g: Grid)
    ensures forall c1, c2 :: c1 in Components(g) && c2 in Components(g) && c1 != c2 ==> c1 * c2 == {}
    ensures forall x, y :: g.Get(x, y) == BuildingPlace ==> exists c :: c in Components(g) && (x, y) in c
  {
    forall c1, c2 | c1 in Components(g) && c2 in Components(g) && c1 != c2 ensures c1 * c2 == {} {
      var x1, y1 :| 0 <= x1 < g.width && 0 <= y1 < g.height && g.Get(x1, y1) == BuildingPlace
        && c1 == Component(g, (x1, y1));
      var x2, y2 :| 0 <= x2 < g.width && 0 <= y2 < g.height && g.Get(x2, y2) == BuildingPlace
        && c2 == Component(g, (x2, y2));
      if b :| b in c1 * c2 {
        ComponentMember(g, (x1, y1), b);
        ComponentMember(g, (x2, y2), b);
        ConnectedSym(g, (x2, y2), b);
        ConnectedTrans(g, (x1, y1), b, (x2, y2));
        ComponentEq(g, (x1, y1), (x2, y2));
        assert false;
      }
    }
    forall x, y | g.Get(x, y) == BuildingPlace ensures exists c :: c in Components(g) && (x, y) in c {
      ComponentIsMaximalGroup(g, (x, y));
      assert Component(g, (x, y)) in Components(g);
    }
  }
}
