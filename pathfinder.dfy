/**
 * main.py as it runs: the vertices are objects whose fields the setup and
 * the search update in place. Each method here is one function or one loop
 * of the source, proved to compute the value-level function of module
 * SearchSpec that describes it.
 */
module Pathfinder {
  import opened Wrappers
  import opened Distances
  import opened Vertices
  import opened Lattice
  import SearchSpec
  import opened SearchInvariant
  import SearchOptimal

  /** The snapshots of a list of vertices, in order. */
  function Snaps(vl: seq<Vertex>): (r: seq<Node>)
    reads vl
    ensures |r| == |vl| && forall i :: 0 <= i < |vl| ==> r[i] == vl[i].Snapshot()
  {
    seq(|vl|, i requires 0 <= i < |vl| reads vl => vl[i].Snapshot())
  }

  /** Two lists of vertices, each without repetition and sharing no object: what `copy.deepcopy` gives. */
  predicate Separate(vl: seq<Vertex>, cl: seq<Vertex>) {
    && Distinct(vl) && Distinct(cl)
    && forall i, j :: 0 <= i < |vl| && 0 <= j < |cl| ==> vl[i] != cl[j]
  }

  lemma {:induction false} PointsSnoc(xs: seq<int>, x: int, ys: seq<int>)
    ensures Points(xs + [x], ys) == Points(xs, ys) + Column(x, ys)
  {
    if xs != [] {
      assert (xs + [x])[1..] == xs[1..] + [x];
      PointsSnoc(xs[1..], x, ys);
    } else {
      assert Points([x][1..], ys) == [];
    }
  }

  /** `generate_vertices`: a new vertex for every point of the lattice, in x-major order. */
  method GenerateVertices(xLo: int, xHi: int, yLo: int, yHi: int) returns (vl: seq<Vertex>)
    ensures Distinct(vl) && forall v :: v in vl ==> fresh(v)
    ensures Snaps(vl) == SearchSpec.InitialNodes(Grid(xLo, xHi, yLo, yHi))
  {
    var xs, ys := Range(xLo, xHi), Range(yLo, yHi);
    vl := [];
    for i := 0 to |xs|
      invariant Distinct(vl) && forall v :: v in vl ==> fresh(v)
      invariant Snaps(vl) == SearchSpec.InitialNodes(Points(xs[..i], ys))
    {
      vl := AddColumn(vl, xs[i], ys);
      PointsSnoc(xs[..i], xs[i], ys);
      InitialNodesAppend(Points(xs[..i], ys), Column(xs[i], ys));
      assert xs[..i + 1] == xs[..i] + [xs[i]];
      assert ys[..|ys|] == ys;
    }
    assert xs[..|xs|] == xs;
  }

  lemma InitialNodesAppend(ps: seq<Point>, qs: seq<Point>)
    ensures SearchSpec.InitialNodes(ps + qs) == SearchSpec.InitialNodes(ps) + SearchSpec.InitialNodes(qs)
  {
  }

  /** The inner loop of `generate_vertices`: a new vertex for each `y` at column `x`. */
  method AddColumn(vl0: seq<Vertex>, x: int, ys: seq<int>) returns (vl: seq<Vertex>)
    requires Distinct(vl0)
    ensures Distinct(vl) && forall v :: v in vl ==> v in vl0 || fresh(v)
    ensures Snaps(vl) == Snaps(vl0) + SearchSpec.InitialNodes(Column(x, ys))
  {
    vl := vl0;
    for j := 0 to |ys|
      invariant Distinct(vl) && forall v :: v in vl ==> v in vl0 || fresh(v)
      invariant Snaps(vl) == Snaps(vl0) + SearchSpec.InitialNodes(Column(x, ys[..j]))
    {
      var v := new Vertex(x, ys[j]);
      vl := vl + [v];
      assert Column(x, ys[..j + 1]) == Column(x, ys[..j]) + [(x, ys[j])];
    }
    assert ys[..|ys|] == ys;
  }

  /** `copy.deepcopy` of a list of fresh vertices: new objects with the same fields. */
  method DeepCopy(vl: seq<Vertex>) returns (cl: seq<Vertex>)
    ensures Distinct(vl) ==> Separate(vl, cl)
    ensures forall v :: v in cl ==> fresh(v)
    ensures Snaps(cl) == Snaps(vl)
  {
    cl := [];
    for i := 0 to |vl|
      invariant |cl| == i
      invariant Distinct(cl) && forall v :: v in cl ==> fresh(v)
      invariant forall a, b :: 0 <= a < |vl| && 0 <= b < |cl| ==> vl[a] != cl[b]
      invariant forall k :: 0 <= k < i ==> cl[k].Snapshot() == vl[k].Snapshot()
    {
      var v := new Vertex(vl[i].x, vl[i].y);
      v.current, v.distance, v.visited := vl[i].current, vl[i].distance, vl[i].visited;
      v.previous, v.path, v.wall := vl[i].previous, vl[i].path, vl[i].wall;
      cl := cl + [v];
    }
  }

  /**
   * `generate_walls`: each vertex other than the two endpoints takes the next
   * wall draw (`random.randrange(0, WALL_CHANCE)`, given here as the stream
   * `draws`) and becomes a wall when it is 0.
   */
  method GenerateWalls(vl: seq<Vertex>, src: Point, dest: Point, draws: nat -> int)
    requires Distinct(vl)
    modifies vl
    ensures Snaps(vl) == SearchSpec.GenerateWalls(old(Snaps(vl)), src, dest, draws)
  {
    ghost var before := Snaps(vl);
    var k := 0;
    for i := 0 to |vl|
      invariant k == SearchSpec.DrawsBefore(before, src, dest, i)
      invariant forall j :: 0 <= j < i ==> vl[j].Snapshot() == SearchSpec.GenerateWalls(before, src, dest, draws)[j]
      invariant forall j :: i <= j < |vl| ==> vl[j].Snapshot() == before[j]
    {
      var v := vl[i];
      if v.ReturnCoordinates() != src && v.ReturnCoordinates() != dest {
        var wallDecision := draws(k);
        k := k + 1;
        if wallDecision == 0 {
          v.wall := true;
        }
      }
    }
  }

  /** `set_src_to_current`: the vertex at the source becomes current at distance 0. */
  method SetSrcToCurrent(vl: seq<Vertex>, src: Point)
    requires Distinct(vl)
    modifies vl
    ensures Snaps(vl) == SearchSpec.SetSrcToCurrent(old(Snaps(vl)), src)
  {
    ghost var before := Snaps(vl);
    for i := 0 to |vl|
      invariant forall j :: 0 <= j < i ==> vl[j].Snapshot() == SearchSpec.SetSrcToCurrent(before, src)[j]
      invariant forall j :: i <= j < |vl| ==> vl[j].Snapshot() == before[j]
    {
      var v := vl[i];
      if v.ReturnCoordinates() == src {
        v.current := true;
        v.distance := Fin(0.0);
      }
    }
  }

  /** The part of `draw()` the search depends on: every wall is marked visited. */
  method DrawWalls(vl: seq<Vertex>)
    requires Distinct(vl)
    modifies vl
    ensures Snaps(vl) == SearchSpec.DrawWalls(old(Snaps(vl)))
  {
    ghost var before := Snaps(vl);
    for i := 0 to |vl|
      invariant forall j :: 0 <= j < i ==> vl[j].Snapshot() == SearchSpec.DrawWalls(before)[j]
      invariant forall j :: i <= j < |vl| ==> vl[j].Snapshot() == before[j]
    {
      var v := vl[i];
      if v.wall {
        v.visited := true;
      }
    }
  }

  /**
   * `create_shortest_path(v, path)` for the vertex at `i`: appends the
   * coordinates of each predecessor in turn. The stored links descend, so
   * the walk ends, and it appends exactly `PathFrom`.
   */
  method CreateShortestPath(vl: seq<Vertex>, i: nat, path: seq<Point>) returns (r: seq<Point>)
    requires i < |vl| && Descending(Snaps(vl))
    ensures r == path + SearchSpec.PathFrom(SearchSpec.Links(Snaps(vl)), i)
    decreases |SearchSpec.Below(SearchSpec.Links(Snaps(vl)), i)|
  {
    ghost var ls := SearchSpec.Links(Snaps(vl));
    var v := vl[i];
    match v.previous
    case None =>
      r := path;
    case Some(j) =>
      assert ls[j].distance.Less(ls[i].distance) by { assert Snaps(vl)[i] == v.Snapshot(); }
      SearchSpec.BelowShrinks(ls, i, j);
      r := CreateShortestPath(vl, j, path + [vl[j].ReturnCoordinates()]);
  }

  /**
   * Lines 100-110: the source is drawn by index from the locator list (a deep
   * copy of `copy_list`, of which only the coordinates are read), its entry
   * is popped, and the destination is drawn from what is left.
   */
  method PickEndpoints(cl: seq<Vertex>, srcDraw: nat, destDraw: nat) returns (src: Point, dest: Point)
    requires srcDraw < |cl| && destDraw < |cl| - 1
    ensures src == SearchSpec.CoordsOf(Snaps(cl))[srcDraw]
    ensures dest == SearchSpec.Pop(SearchSpec.CoordsOf(Snaps(cl)), srcDraw)[destDraw]
    ensures Distinct(SearchSpec.CoordsOf(Snaps(cl))) ==> src != dest
  {
    var locator := seq(|cl|, i requires 0 <= i < |cl| reads cl => cl[i].ReturnCoordinates());
    assert locator == SearchSpec.CoordsOf(Snaps(cl));
    src := locator[srcDraw];
    locator := locator[..srcDraw] + locator[srcDraw + 1..];
    dest := locator[destDraw];
    if Distinct(SearchSpec.CoordsOf(Snaps(cl))) {
      SearchSpec.EndpointsDiffer(SearchSpec.CoordsOf(Snaps(cl)), srcDraw, destDraw);
    }
  }

  /**
   * Lines 96-114: the lattice, its deep copy, the endpoints drawn by index
   * from the locator list (the source's entry popped first), the walls, and
   * the source made current.
   */
  method Setup(xLo: int, xHi: int, yLo: int, yHi: int, srcDraw: nat, destDraw: nat, wallDraws: nat -> int)
    returns (vl: seq<Vertex>, cl: seq<Vertex>, src: Point, dest: Point)
    requires srcDraw < |Grid(xLo, xHi, yLo, yHi)| && destDraw < |Grid(xLo, xHi, yLo, yHi)| - 1
    ensures Separate(vl, cl) && (forall v :: v in vl ==> fresh(v)) && (forall v :: v in cl ==> fresh(v))
    ensures var su := SearchSpec.InitialSetup(Grid(xLo, xHi, yLo, yHi), srcDraw, destDraw, wallDraws);
      src == su.src && dest == su.dest && Snaps(vl) == su.start.vs && Snaps(cl) == su.start.cs
  {
    ghost var ps := Grid(xLo, xHi, yLo, yHi);
    GridDistinct(xLo, xHi, yLo, yHi);
    vl := GenerateVertices(xLo, xHi, yLo, yHi);
    cl := DeepCopy(vl);
    src, dest := PickEndpoints(cl, srcDraw, destDraw);
    ghost var ns := SearchSpec.InitialNodes(ps);
    assert src == ps[srcDraw] && dest == SearchSpec.Pop(ps, srcDraw)[destDraw] by {
      assert SearchSpec.CoordsOf(ns) == ps;
    }
    assert fresh(set v | v in vl);
    ghost var cs := Snaps(cl);
    GenerateWalls(vl, src, dest, wallDraws);
    SetSrcToCurrent(vl, src);
    assert Snaps(cl) == cs by {
      forall i | 0 <= i < |cl| ensures cl[i].Snapshot() == cs[i] {
        assert cl[i] !in vl;
      }
    }
  }

  /** Lines 152 and 156 on one vertex of `vertex_list`: the new distance, and `previous` set to vertex `c`. */
  method Improve(u: Vertex, d: Dist, c: nat)
    modifies u
    ensures u.Snapshot() == old(u.Snapshot()).(distance := d, previous := Some(c))
  {
    u.distance := d;
    u.previous := Some(c);
  }

  /**
   * One iteration of the inner loop at lines 143-156: `x`, entry `i` of
   * `copy_list`, against the current vertex `v`, entry `c` of `vertex_list`;
   * `u` is entry `i` of `vertex_list`. Both entries `i` become what the whole
   * loop makes of them, and `v` keeps its value.
   */
  method RelaxAt(v: Vertex, x: Vertex, u: Vertex, c: nat, i: nat, edge: nat -> real,
                 ghost vs0: seq<Node>, ghost cs0: seq<Node>)
    requires c < |vs0| == |cs0| && i < |vs0| && x != u && x != v && (u == v <==> i == c)
    requires v.Snapshot() == vs0[c] && u.Snapshot() == vs0[i] && x.Snapshot() == cs0[i]
    requires SearchSpec.At(vs0[c]) == SearchSpec.At(cs0[c])
    modifies x, u
    ensures u.Snapshot() == SearchSpec.RelaxV(vs0, cs0, c, edge)[i]
    ensures x.Snapshot() == SearchSpec.RelaxC(vs0, cs0, c, edge)[i]
    ensures v.Snapshot() == vs0[c]
  {
    var d := v.CalcDistance(x);
    SqDistSymmetric((x.x, x.y), (v.x, v.y));
    if 0 < d < SearchSpec.NeighbourLimit {
      if !x.visited {
        var newDistance := v.distance.Plus(edge(d));
        if newDistance.Less(x.distance) {
          Improve(u, newDistance, c);
          x.distance := newDistance;
        }
      }
    }
  }

  /**
   * The search of main.py: the global `vertex_list` and `copy_list`, the
   * endpoints `src` and `dest`, and the two loop flags of `main()`. The
   * weight `edge` stands for `calc_distance` as a function of the squared
   * distance; `g` records the lattice and the endpoints' indices, and
   * `model` the same search state as values.
   */
  class Search {
    const vertexList: seq<Vertex>
    const copyList: seq<Vertex>
    const src: Point
    const dest: Point
    const edge: nat -> real
    ghost const g: Config
    var destNotReached: bool
    var notAllVisited: bool
    ghost var model: SearchSpec.State

    /** The two lists and the two flags as values. */
    function View(): SearchSpec.State
      reads this, vertexList, copyList
    {
      SearchSpec.State(Snaps(vertexList), Snaps(copyList), destNotReached, notAllVisited)
    }

    /** `model` is what the objects hold. */
    ghost predicate Mirrors()
      reads this, vertexList, copyList
    {
      && |vertexList| == |model.vs| && |copyList| == |model.cs|
      && destNotReached == model.destNotReached && notAllVisited == model.notAllVisited
      && (forall i {:trigger vertexList[i].Snapshot()} :: 0 <= i < |vertexList| ==> vertexList[i].Snapshot() == model.vs[i])
      && (forall i {:trigger copyList[i].Snapshot()} :: 0 <= i < |copyList| ==> copyList[i].Snapshot() == model.cs[i])
    }

    ghost predicate Valid()
      reads this, vertexList, copyList
    {
      && Separate(vertexList, copyList) && edge == g.edge && Mirrors()
      && Inv(model, g) && dest == Dest(g) && src == g.points[g.s]
    }

    /** `Valid` once the walls are retired: what every pass of the search keeps. */
    ghost predicate Ready()
      reads this, vertexList, copyList
    {
      Valid() && SearchSpec.WallsVisited(model.vs)
    }

    /** Objects that hold `model` have it as their values. */
    lemma ViewIsModel()
      requires Mirrors()
      ensures View() == model
    {
      assert Snaps(vertexList) == model.vs && Snaps(copyList) == model.cs;
    }

    /** Objects whose values are `model` hold it. */
    lemma ModelIsView()
      requires View() == model
      ensures Mirrors()
    {
    }

    /**
     * Lines 96-114 and the start of `main()`, on the lattice between the
     * given bounds; the 800 x 600 window's are `XLow`, `XHigh`, `YLow` and
     * `YHigh` (`ScreenSize`).
     */
    constructor (xLo: int, xHi: int, yLo: int, yHi: int, srcDraw: nat, destDraw: nat, wallDraws: nat -> int, edge: nat -> real)
      requires srcDraw < |Grid(xLo, xHi, yLo, yHi)| && destDraw < |Grid(xLo, xHi, yLo, yHi)| - 1 && SearchSpec.PositiveEdges(edge)
      ensures Valid() && SearchOptimal.Optimal(model, g)
      ensures g == SetupConfig(Grid(xLo, xHi, yLo, yHi), srcDraw, destDraw, edge)
      ensures model == SearchSpec.InitialSetup(Grid(xLo, xHi, yLo, yHi), srcDraw, destDraw, wallDraws).start
      ensures forall v :: v in vertexList ==> fresh(v)
      ensures forall v :: v in copyList ==> fresh(v)
    {
      GridDistinct(xLo, xHi, yLo, yHi);
      var vl, cl, s, d := Setup(xLo, xHi, yLo, yHi, srcDraw, destDraw, wallDraws);
      vertexList, copyList, src, dest, this.edge := vl, cl, s, d, edge;
      g := SetupConfig(Grid(xLo, xHi, yLo, yHi), srcDraw, destDraw, edge);
      destNotReached, notAllVisited := true, true;
      model := SearchSpec.InitialSetup(Grid(xLo, xHi, yLo, yHi), srcDraw, destDraw, wallDraws).start;
      new;
      SetupEstablishes(Grid(xLo, xHi, yLo, yHi), srcDraw, destDraw, wallDraws, edge);
      SearchOptimal.SetupOptimal(Grid(xLo, xHi, yLo, yHi), srcDraw, destDraw, wallDraws, edge);
    }

    /**
     * Lines 143-156: every vertex of `copy_list` that is a neighbour of the
     * current vertex, unvisited in the copy, and closer through it, takes the
     * new distance in both lists and the current vertex as `previous`.
     */
    method RelaxNeighbours(c: nat)
      requires Separate(vertexList, copyList) && c < |vertexList| == |copyList|
      requires vertexList[c].x == copyList[c].x && vertexList[c].y == copyList[c].y
      modifies vertexList, copyList
      ensures Snaps(vertexList) == SearchSpec.RelaxV(old(Snaps(vertexList)), old(Snaps(copyList)), c, edge)
      ensures Snaps(copyList) == SearchSpec.RelaxC(old(Snaps(vertexList)), old(Snaps(copyList)), c, edge)
    {
      ghost var vs0, cs0 := Snaps(vertexList), Snaps(copyList);
      var v := vertexList[c];
      for i := 0 to |copyList|
        invariant v.Snapshot() == vs0[c]
        invariant forall k :: 0 <= k < i ==>
          vertexList[k].Snapshot() == SearchSpec.RelaxV(vs0, cs0, c, edge)[k]
          && copyList[k].Snapshot() == SearchSpec.RelaxC(vs0, cs0, c, edge)[k]
        invariant forall k :: i <= k < |copyList| ==> vertexList[k].Snapshot() == vs0[k] && copyList[k].Snapshot() == cs0[k]
      {
        RelaxAt(v, copyList[i], vertexList[i], c, i, edge, vs0, cs0);
      }
    }

    /**
     * Lines 174-180: the least distance among unvisited vertices (infinite
     * when there is none) and how many are unvisited.
     */
    method SmallestUnvisited() returns (smallest: Dist, count: nat)
      ensures smallest == SearchSpec.Smallest(Snaps(vertexList), |vertexList|)
      ensures count == SearchSpec.UnvisitedCount(Snaps(vertexList), |vertexList|)
      ensures count > 0 <==> exists i :: 0 <= i < |vertexList| && !vertexList[i].visited
      ensures forall i :: 0 <= i < |vertexList| && !vertexList[i].visited ==> !vertexList[i].distance.Less(smallest)
      ensures count > 0 ==> exists i :: 0 <= i < |vertexList| && !vertexList[i].visited && vertexList[i].distance == smallest
    {
      ghost var vs := Snaps(vertexList);
      smallest, count := Inf, 0;
      for i := 0 to |vertexList|
        invariant smallest == SearchSpec.Smallest(vs, i) && count == SearchSpec.UnvisitedCount(vs, i)
      {
        var vertex := vertexList[i];
        if !vertex.visited {
          count := count + 1;
          if vertex.distance.Less(smallest) {
            smallest := vertex.distance;
          }
        }
      }
      SmallestFacts(vs, |vs|);
    }

    /** Lines 188-193: the first unvisited vertex at distance `smallest` becomes current. */
    method MarkFirstCurrent(smallest: Dist)
      requires Distinct(vertexList)
      modifies vertexList
      ensures Snaps(vertexList) == SearchSpec.MarkFirst(old(Snaps(vertexList)), smallest)
    {
      ghost var vs0 := Snaps(vertexList);
      var newCurrentFound := false;
      for i := 0 to |vertexList|
        invariant newCurrentFound == SearchSpec.FirstAt(vs0, smallest, i).Some?
        invariant forall k :: 0 <= k < |vertexList| ==>
          vertexList[k].Snapshot() == if SearchSpec.FirstAt(vs0, smallest, i) == Some(k) then vs0[k].(current := true) else vs0[k]
      {
        var vertex := vertexList[i];
        ghost var first := SearchSpec.FirstAt(vs0, smallest, i);
        assert vertex.Snapshot() == vs0[i] by {
          assert first != Some(i);
        }
        assert SearchSpec.FirstAt(vs0, smallest, i + 1) ==
          if first.Some? then first
          else if !vs0[i].visited && vs0[i].distance == smallest then Some(i) else None;
        if !vertex.visited {
          if vertex.distance == smallest && !newCurrentFound {
            vertex.current := true;
            newCurrentFound := true;
          }
        }
      }
    }

    /**
     * Lines 141-162 for the current vertex at `c`: relax its neighbours, then
     * retire it in both lists.
     */
    method RelaxAndRetire(c: nat)
      requires Separate(vertexList, copyList) && c < |vertexList| == |copyList|
      requires vertexList[c].x == copyList[c].x && vertexList[c].y == copyList[c].y
      modifies vertexList, copyList
      ensures View() == Retired(old(View()), c, edge)
    {
      RelaxNeighbours(c);
      RetireAt(c);
    }

    /** Lines 158-162: the vertex at `c` is visited and no longer current, in both lists. */
    method RetireAt(c: nat)
      requires Separate(vertexList, copyList) && c < |vertexList| == |copyList|
      modifies vertexList[c], copyList[c]
      ensures Snaps(vertexList) == SearchSpec.MarkProcessed(old(Snaps(vertexList)), c)
      ensures Snaps(copyList) == SearchSpec.MarkProcessed(old(Snaps(copyList)), c)
    {
      ghost var vs, cs := Snaps(vertexList), Snaps(copyList);
      Retire(vertexList[c], copyList[c]);
      forall k | 0 <= k < |vertexList|
        ensures vertexList[k].Snapshot() == SearchSpec.MarkProcessed(vs, c)[k]
        ensures copyList[k].Snapshot() == SearchSpec.MarkProcessed(cs, c)[k]
      {
        assert k != c ==> vertexList[k] != vertexList[c] && vertexList[k] != copyList[c];
        assert k != c ==> copyList[k] != vertexList[c] && copyList[k] != copyList[c];
      }
    }

    /**
     * Lines 141-193 for the current vertex at `c`: relax its neighbours,
     * retire it in both lists, then either store its path and stop, or stop
     * when nothing is unvisited, or make the next vertex current.
     */
    method ProcessVertex(c: nat)
      requires Valid() && SearchSpec.WallsVisited(model.vs) && c < |vertexList| && vertexList[c].current
      modifies vertexList, copyList, this`destNotReached, this`notAllVisited, this`model
      ensures model == SearchSpec.Process(old(model), c, dest, edge)
      ensures Valid() && SearchSpec.WallsVisited(model.vs)
    {
      ghost var st := model;
      ViewIsModel();
      model := SearchSpec.Process(st, c, dest, edge);
      ProcessAt(c, st);
      ModelIsView();
      ProcessPreserves(st, g, c);
    }

    /** `ProcessVertex` on the objects alone, from the state `st` they hold. */
    method ProcessAt(c: nat, ghost st: SearchSpec.State)
      requires Separate(vertexList, copyList) && View() == st && Inv(st, g) && edge == g.edge && dest == Dest(g)
      requires SearchSpec.WallsVisited(st.vs) && c < |vertexList| && vertexList[c].current
      modifies vertexList, copyList, this`destNotReached, this`notAllVisited
      ensures View() == SearchSpec.Process(st, c, dest, edge)
    {
      assert vertexList[c].x == copyList[c].x && vertexList[c].y == copyList[c].y by {
        assert SearchSpec.CoordsOf(st.vs)[c] == SearchSpec.CoordsOf(st.cs)[c];
      }
      RelaxAndRetire(c);
      ghost var w := View();
      RetiredFacts(st, g, c);
      ProcessUnfold(st, c, dest, edge);
      if vertexList[c].ReturnCoordinates() == dest {
        LinkedDescending(w.vs, w.cs, edge);
        StorePath(c);
      } else {
        SelectNext();
      }
    }

    /** Lines 82-83 of `draw()`: every wall is marked visited. */
    method Draw()
      requires Valid()
      modifies vertexList, this`model
      ensures model == old(model).(vs := SearchSpec.DrawWalls(old(model).vs))
      ensures Valid() && SearchSpec.WallsVisited(model.vs)
    {
      ghost var st := model;
      ViewIsModel();
      model := st.(vs := SearchSpec.DrawWalls(st.vs));
      DrawWalls(vertexList);
      ModelIsView();
      DrawPreserves(st, g);
    }

    /**
     * Lines 140-193: one pass of `for index, v in enumerate(vertex_list)`,
     * processing each vertex that is current when the pass reaches it.
     */
    method Tick()
      requires Valid() && SearchSpec.WallsVisited(model.vs)
      modifies vertexList, copyList, this`destNotReached, this`notAllVisited, this`model
      ensures model == SearchSpec.Tick(old(model), dest, edge)
      ensures Valid() && SearchSpec.WallsVisited(model.vs)
    {
      ghost var trace := SearchSpec.Trace(model, |vertexList|, dest, edge);
      for index := 0 to |vertexList|
        invariant Ready() && model == trace[index]
      {
        Visit(index, trace);
      }
      SearchSpec.TraceEnd(trace, dest, edge);
    }

    /** One iteration of the loop at line 140: the vertex at `index` is processed if it is current. */
    method Visit(index: nat, ghost trace: seq<SearchSpec.State>)
      requires Valid() && SearchSpec.WallsVisited(model.vs) && index < |vertexList|
      requires SearchSpec.Follows(trace, dest, edge) && index + 1 < |trace| && model == trace[index]
      modifies vertexList, copyList, this`destNotReached, this`notAllVisited, this`model
      ensures Valid() && SearchSpec.WallsVisited(model.vs)
      ensures model == trace[index + 1]
      ensures !old(model.vs[index].current) ==> model == old(model)
      ensures old(model.vs[index].current) ==> model.vs[index].visited && model.cs[index].visited
    {
      ghost var before := model;
      var v := vertexList[index];
      assert v.Snapshot() == model.vs[index];
      if v.current {
        ProcessVertex(index);
      }
      assert model == SearchSpec.PassStep(before, index, dest, edge);
    }

    /**
     * Lines 134-193: `while dest_not_reached and not_all_visited`, drawing
     * every frame and ticking once the countdown passes `FPS * 3`. The loop
     * ends, and it ends with the destination reached.
     */
    method Run()
      requires Valid() && SearchOptimal.Optimal(model, g)
      modifies vertexList, copyList, this`destNotReached, this`notAllVisited, this`model
      ensures Valid() && !destNotReached && notAllVisited
      ensures SearchOptimal.Optimal(model, g) && model.vs[g.d].path.Some?
      ensures forall w :: SearchOptimal.Walk(model.vs, g, w) && SearchOptimal.Last(w) == g.d ==>
        SearchOptimal.Within(model.vs[g.d].distance, SearchOptimal.WalkCost(g, w))
    {
      var countdown: nat := 0;
      while destNotReached && notAllVisited
        invariant Valid() && SearchOptimal.Optimal(model, g)
        decreases SearchSpec.Unprocessed(model.cs), SearchSpec.StartDelay - countdown
      {
        ghost var before := model;
        NextFrame(countdown);
        SearchOptimal.FrameOptimal(before, g, countdown);
        countdown := countdown + 1;
      }
      SearchOptimal.ReachedShortest(model, g);
    }

    /** One iteration of the loop at line 134, with `countdown` frames already drawn. */
    method NextFrame(countdown: nat)
      requires Valid()
      modifies vertexList, copyList, this`destNotReached, this`notAllVisited, this`model
      ensures model == Frame(old(model), g, countdown)
      ensures Valid()
    {
      Draw();
      if countdown + 1 > SearchSpec.StartDelay {
        Tick();
      }
    }

    /** Lines 170-171: the vertex at `c` stores the path back from it, and the search stops. */
    method StorePath(c: nat)
      requires Separate(vertexList, copyList) && c < |vertexList| && Descending(Snaps(vertexList))
      modifies vertexList[c], this`destNotReached
      ensures var vs := old(Snaps(vertexList));
        View() == old(View()).(vs := vs[c := vs[c].(path := Some(SearchSpec.Route(vs, c)))], destNotReached := false)
    {
      var v := vertexList[c];
      var path := CreateShortestPath(vertexList, c, [v.ReturnCoordinates()]);
      v.path := Some(path);
      destNotReached := false;
    }

    /**
     * Lines 174-193: when some vertex is unvisited, the first unvisited one
     * at the least distance becomes current; otherwise the search stops.
     */
    method SelectNext()
      requires Separate(vertexList, copyList)
      modifies vertexList, this`notAllVisited
      ensures var vs := old(Snaps(vertexList));
        View() == if SearchSpec.UnvisitedCount(vs, |vs|) == 0
        then old(View()).(notAllVisited := false)
        else old(View()).(vs := SearchSpec.MarkFirst(vs, SearchSpec.Smallest(vs, |vs|)))
    {
      ghost var cs := Snaps(copyList);
      var smallest, count := SmallestUnvisited();
      if count == 0 {
        notAllVisited := false;
      } else {
        MarkFirstCurrent(smallest);
      }
      assert Snaps(copyList) == cs by {
        forall i | 0 <= i < |copyList| ensures copyList[i].Snapshot() == cs[i] {
          assert copyList[i] !in vertexList;
        }
      }
    }
  }

  /** Lines 158-162: the vertex is visited and no longer current, in both lists. */
  method Retire(v: Vertex, x: Vertex)
    requires v != x
    modifies v, x
    ensures v.Snapshot() == old(v.Snapshot()).(visited := true, current := false)
    ensures x.Snapshot() == old(x.Snapshot()).(visited := true, current := false)
  {
    v.visited := true;
    x.visited := true;
    v.current := false;
    x.current := false;
  }
}
