/**
 * The search finds shortest routes. A route is a walk over lattice indices
 * from the source that never enters a wall and steps only between
 * neighbours. Every vertex that is processed or current has a distance no
 * larger than the cost of any route to it, and an unprocessed vertex that
 * is not a wall is never farther than through any processed neighbour.
 * Together these give the classical argument for Dijkstra's algorithm with
 * positive weights, here for the loop at lines 134-193 of main.py, with
 * its tie-break at line 191 and the walls that `draw()` marks visited.
 */
module SearchOptimal {
  import opened Distances
  import opened Vertices
  import opened Lattice
  import opened SearchSpec
  import opened SearchInvariant

  function Last(w: seq<nat>): nat
    requires |w| > 0
  {
    w[|w| - 1]
  }

  /** A route from the source: no wall on it, and each step to a neighbour. */
  ghost predicate Walk(vs: seq<Node>, g: Config, w: seq<nat>) {
    && |w| > 0 && w[0] == g.s && |vs| == |g.points|
    && (forall k :: 0 <= k < |w| ==> w[k] < |vs| && !vs[w[k]].wall)
    && (forall k :: 1 <= k < |w| ==> IsNeighbour(g.points[w[k - 1]], g.points[w[k]]))
  }

  /** The sum of the edge weights along a walk, added from the source on. */
  ghost function WalkCost(g: Config, w: seq<nat>): real
    requires forall k :: 0 <= k < |w| ==> w[k] < |g.points|
  {
    if |w| < 2 then 0.0
    else WalkCost(g, w[..|w| - 1]) + g.edge(SqDist(g.points[w[|w| - 2]], g.points[w[|w| - 1]]))
  }

  /** A finite distance no larger than `r`. */
  predicate Within(d: Dist, r: real) {
    d.Fin? && d.value <= r
  }

  /** Processed (retired in the copy) or current: the vertices whose distance is final. */
  ghost predicate Fixed(st: State, i: nat) {
    i < |st.vs| && i < |st.cs| && (st.cs[i].visited || st.vs[i].current)
  }

  /** Every fixed vertex is no farther than any route to it. */
  ghost predicate Shortest(st: State, g: Config) {
    forall w :: Walk(st.vs, g, w) && Fixed(st, Last(w)) ==>
      Within(st.vs[Last(w)].distance, WalkCost(g, w))
  }

  /** An unprocessed vertex that is not a wall is no farther than through any processed neighbour. */
  ghost predicate Frontier(st: State, g: Config) {
    && |st.vs| == |g.points| && |st.cs| == |g.points|
    && forall u, v ::
         (0 <= u < |g.points| && 0 <= v < |g.points|
          && st.cs[u].visited && !st.cs[v].visited && !st.vs[v].wall && IsNeighbour(g.points[u], g.points[v]))
         ==> !Candidate(st.vs[u], st.vs[v], g.edge).Less(st.vs[v].distance)
  }

  /** A vertex that is not a wall is visited only once it is processed. */
  ghost predicate OnlyProcessed(st: State) {
    forall i :: 0 <= i < |st.vs| && st.vs[i].visited && !st.vs[i].wall ==> i < |st.cs| && st.cs[i].visited
  }

  ghost predicate Optimal(st: State, g: Config) {
    Shortest(st, g) && Frontier(st, g) && OnlyProcessed(st)
  }

  // ------------------------------------------------------------ walks

  lemma WalkFrame(a: seq<Node>, b: seq<Node>, g: Config, w: seq<nat>)
    requires |a| == |b| && forall i :: 0 <= i < |a| ==> a[i].wall == b[i].wall
    ensures Walk(a, g, w) == Walk(b, g, w)
  {
  }

  /** A walk cut after its first `n` steps is a walk. */
  lemma WalkPrefix(vs: seq<Node>, g: Config, w: seq<nat>, n: nat)
    requires Walk(vs, g, w) && 1 <= n <= |w|
    ensures Walk(vs, g, w[..n]) && Last(w[..n]) == w[n - 1]
  {
    var p := w[..n];
    forall k | 1 <= k < |p| ensures IsNeighbour(g.points[p[k - 1]], g.points[p[k]]) {
      assert p[k - 1] == w[k - 1] && p[k] == w[k];
    }
  }

  /** With positive weights, a longer walk costs at least as much as its prefix. */
  lemma {:induction false} WalkCostPrefix(vs: seq<Node>, g: Config, w: seq<nat>, n: nat)
    requires Walk(vs, g, w) && PositiveEdges(g.edge) && 1 <= n <= |w|
    ensures WalkCost(g, w[..n]) <= WalkCost(g, w)
    decreases |w| - n
  {
    if n < |w| {
      var v := w[..|w| - 1];
      WalkPrefix(vs, g, w, |w| - 1);
      WalkCostPrefix(vs, g, v, n);
      assert v[..n] == w[..n];
      assert IsNeighbour(g.points[w[|w| - 2]], g.points[w[|w| - 1]]);
      assert g.edge(SqDist(g.points[w[|w| - 2]], g.points[w[|w| - 1]])) > 0.0;
    } else {
      assert w[..n] == w;
    }
  }

  /** A walk from a processed vertex to an unprocessed one crosses from processed to unprocessed at some step. */
  lemma {:induction false} Crossing(cs: seq<Node>, w: seq<nat>) returns (p: nat)
    requires |w| > 0 && (forall k :: 0 <= k < |w| ==> w[k] < |cs|)
    requires cs[w[0]].visited && !cs[Last(w)].visited
    ensures 0 < p < |w| && cs[w[p - 1]].visited && !cs[w[p]].visited
    decreases |w|
  {
    if cs[w[|w| - 2]].visited {
      p := |w| - 1;
    } else {
      p := Crossing(cs, w[..|w| - 1]);
    }
  }

  /** A distance that is not above one within a bound is within it too. */
  lemma WithinBelow(a: Dist, b: Dist, r: real)
    requires Within(b, r) && !b.Less(a)
    ensures Within(a, r)
  {
  }

  // ------------------------------------------------------------ frames

  /**
   * A state that keeps the copy, the distances, coordinates and walls, makes
   * no vertex current that was not, and marks visited only walls keeps the
   * property.
   */
  lemma OptimalFrame(a: State, b: State, g: Config)
    requires Optimal(a, g) && |a.vs| == |b.vs| == |g.points| && b.cs == a.cs
    requires forall i :: 0 <= i < |a.vs| ==>
      && b.vs[i].distance == a.vs[i].distance && b.vs[i].wall == a.vs[i].wall && At(b.vs[i]) == At(a.vs[i])
      && (b.vs[i].current ==> a.vs[i].current) && (b.vs[i].visited ==> a.vs[i].visited || a.vs[i].wall)
    ensures Optimal(b, g)
  {
    forall w | Walk(b.vs, g, w) && Fixed(b, Last(w)) ensures Within(b.vs[Last(w)].distance, WalkCost(g, w)) {
      WalkFrame(a.vs, b.vs, g, w);
    }
    forall u, v | 0 <= u < |g.points| && 0 <= v < |g.points|
      && b.cs[u].visited && !b.cs[v].visited && !b.vs[v].wall && IsNeighbour(g.points[u], g.points[v])
      ensures !Candidate(b.vs[u], b.vs[v], g.edge).Less(b.vs[v].distance)
    {
      assert Candidate(b.vs[u], b.vs[v], g.edge) == Candidate(a.vs[u], a.vs[v], g.edge);
    }
  }

  /** Making a vertex current that is no farther than any route to it keeps the property. */
  lemma MarkOptimal(a: State, g: Config, j: nat)
    requires Optimal(a, g) && |a.vs| == |g.points| && j < |a.vs| && !a.vs[j].visited
    requires forall w :: Walk(a.vs, g, w) && Last(w) == j ==> Within(a.vs[j].distance, WalkCost(g, w))
    ensures Optimal(a.(vs := a.vs[j := a.vs[j].(current := true)]), g)
  {
    var b := a.(vs := a.vs[j := a.vs[j].(current := true)]);
    forall w | Walk(b.vs, g, w) && Fixed(b, Last(w)) ensures Within(b.vs[Last(w)].distance, WalkCost(g, w)) {
      WalkFrame(a.vs, b.vs, g, w);
    }
    forall u, v | 0 <= u < |g.points| && 0 <= v < |g.points|
      && b.cs[u].visited && !b.cs[v].visited && !b.vs[v].wall && IsNeighbour(g.points[u], g.points[v])
      ensures !Candidate(b.vs[u], b.vs[v], g.edge).Less(b.vs[v].distance)
    {
      assert Candidate(b.vs[u], b.vs[v], g.edge) == Candidate(a.vs[u], a.vs[v], g.edge);
    }
  }

  // ------------------------------------------------------------ one vertex

  /** Relaxing and retiring the current vertex keeps the property: its distance was already final. */
  lemma RetireOptimal(st: State, g: Config, c: nat)
    requires Inv(st, g) && WallsVisited(st.vs) && Optimal(st, g) && c < |st.vs| && st.vs[c].current
    ensures Optimal(Retired(st, c, g.edge), g)
  {
    RelaxEffects(st, g, c);
    RetiredFacts(st, g, c);
    var w := Retired(st, c, g.edge);
    forall p | Walk(w.vs, g, p) && Fixed(w, Last(p)) ensures Within(w.vs[Last(p)].distance, WalkCost(g, p)) {
      WalkFrame(st.vs, w.vs, g, p);
      var i := Last(p);
      assert Fixed(st, i) && w.vs[i].distance == st.vs[i].distance by {
        if i != c {
          assert !Relaxes(st.vs[c], st.cs[i], g.edge);
        }
      }
    }
    RetireFrontier(st, g, c);
  }

  lemma RetireFrontier(st: State, g: Config, c: nat)
    requires Inv(st, g) && WallsVisited(st.vs) && Optimal(st, g) && c < |st.vs| && st.vs[c].current
    ensures Frontier(Retired(st, c, g.edge), g) && OnlyProcessed(Retired(st, c, g.edge))
  {
    RelaxEffects(st, g, c);
    RetiredFacts(st, g, c);
    var w := Retired(st, c, g.edge);
    forall u, v | 0 <= u < |g.points| && 0 <= v < |g.points|
      && w.cs[u].visited && !w.cs[v].visited && !w.vs[v].wall && IsNeighbour(g.points[u], g.points[v])
      ensures !Candidate(w.vs[u], w.vs[v], g.edge).Less(w.vs[v].distance)
    {
      assert At(st.vs[u]) == g.points[u] && At(st.vs[v]) == g.points[v] by {
        assert CoordsOf(st.vs)[u] == g.points[u] && CoordsOf(st.vs)[v] == g.points[v];
      }
      assert At(st.cs[v]) == g.points[v] by { assert CoordsOf(st.cs)[v] == g.points[v]; }
      assert v != c && !st.cs[v].visited && !st.vs[v].current;
      var cand := Candidate(w.vs[u], w.vs[v], g.edge);
      if u == c {
        assert cand == Candidate(st.vs[c], st.vs[v], g.edge) == Candidate(st.vs[c], st.cs[v], g.edge);
      } else {
        assert st.cs[u].visited && w.vs[u] == st.vs[u];
        assert cand == Candidate(st.vs[u], st.vs[v], g.edge);
        if Relaxes(st.vs[c], st.cs[v], g.edge) && cand.Less(w.vs[v].distance) {
          LessTransitive(cand, w.vs[v].distance, st.vs[v].distance);
        }
      }
    }
  }

  /**
   * The vertex the selection picks, with nothing current and every unvisited
   * vertex at least as far, is no farther than any route to it: such a route
   * leaves the processed vertices somewhere, and the vertex it enters is
   * already no farther than the route up to it.
   */
  lemma SelectOptimal(w: State, g: Config, j: nat)
    requires Shape(w, g) && Flags(w) && Rooted(w, g.s) && Optimal(w, g)
    requires forall i :: 0 <= i < |w.vs| ==> !w.vs[i].current
    requires j < |w.vs| && !w.vs[j].visited
    requires forall i :: 0 <= i < |w.vs| && !w.vs[i].visited ==> !w.vs[i].distance.Less(w.vs[j].distance)
    ensures forall p :: Walk(w.vs, g, p) && Last(p) == j ==> Within(w.vs[j].distance, WalkCost(g, p))
  {
    forall p | Walk(w.vs, g, p) && Last(p) == j ensures Within(w.vs[j].distance, WalkCost(g, p)) {
      var k := Crossing(w.cs, p);
      var u, v := p[k - 1], p[k];
      WalkPrefix(w.vs, g, p, k);
      assert Fixed(w, Last(p[..k]));
      var before := WalkCost(g, p[..k]);
      assert Within(w.vs[u].distance, before);
      WalkPrefix(w.vs, g, p, k + 1);
      assert p[..k + 1][..k] == p[..k];
      var e := g.edge(SqDist(g.points[u], g.points[v]));
      assert WalkCost(g, p[..k + 1]) == before + e;
      assert At(w.vs[u]) == g.points[u] && At(w.vs[v]) == g.points[v] by {
        assert CoordsOf(w.vs)[u] == g.points[u] && CoordsOf(w.vs)[v] == g.points[v];
      }
      var cand := Candidate(w.vs[u], w.vs[v], g.edge);
      assert Within(cand, before + e);
      WithinBelow(w.vs[v].distance, cand, before + e);
      WalkCostPrefix(w.vs, g, p, k + 1);
      WithinBelow(w.vs[j].distance, w.vs[v].distance, WalkCost(g, p));
    }
  }

  /** Processing the current vertex keeps the property. */
  lemma ProcessOptimal(st: State, g: Config, c: nat)
    requires Inv(st, g) && WallsVisited(st.vs) && Optimal(st, g) && c < |st.vs| && st.vs[c].current
    ensures Optimal(Process(st, c, Dest(g), g.edge), g)
  {
    RetireOptimal(st, g, c);
    RetiredFacts(st, g, c);
    ProcessUnfold(st, c, Dest(g), g.edge);
    var w := Retired(st, c, g.edge);
    var r := Process(st, c, Dest(g), g.edge);
    if At(w.vs[c]) == Dest(g) {
      OptimalFrame(w, r, g);
    } else if UnvisitedCount(w.vs, |w.vs|) == 0 {
      OptimalFrame(w, r, g);
    } else {
      SelectFirstMin(w.vs);
      var j := FirstAt(w.vs, Smallest(w.vs, |w.vs|), |w.vs|).value;
      SelectOptimal(w, g, j);
      MarkOptimal(w, g, j);
    }
  }

  // ------------------------------------------------------------ the loop

  lemma PassStepOptimal(st: State, g: Config, k: nat)
    requires Inv(st, g) && WallsVisited(st.vs) && Optimal(st, g) && k < |st.vs|
    ensures Optimal(PassStep(st, k, Dest(g), g.edge), g)
  {
    if st.vs[k].current {
      ProcessOptimal(st, g, k);
    }
  }

  /** The rest of a pass keeps the property. */
  lemma PassOptimal(st: State, g: Config, k: nat)
    requires Inv(st, g) && WallsVisited(st.vs) && Optimal(st, g) && k <= |st.vs|
    ensures Optimal(PassFrom(st, k, Dest(g), g.edge), g)
  {
    var P := (q: State) => Inv(q, g) && WallsVisited(q.vs) && Optimal(q, g);
    forall q: State, c: nat | |q.vs| == |q.cs| && c < |q.vs| && P(q)
      ensures P(PassStep(q, c, Dest(g), g.edge))
    {
      PassStepKeeps(q, g, c);
      PassStepOptimal(q, g, c);
    }
    PassInduction(st, k, Dest(g), g.edge, P);
  }

  /** `draw()` marking walls visited keeps the property. */
  lemma DrawOptimal(st: State, g: Config)
    requires Inv(st, g) && Optimal(st, g)
    ensures Optimal(st.(vs := DrawWalls(st.vs)), g)
  {
    DrawPreserves(st, g);
    OptimalFrame(st, st.(vs := DrawWalls(st.vs)), g);
  }

  /** One frame of the loop at line 134 keeps the property. */
  lemma FrameOptimal(st: State, g: Config, countdown: nat)
    requires Inv(st, g) && Optimal(st, g)
    ensures Optimal(Frame(st, g, countdown), g)
  {
    var d := st.(vs := DrawWalls(st.vs));
    DrawPreserves(st, g);
    DrawOptimal(st, g);
    if countdown + 1 > StartDelay {
      PassOptimal(d, g, 0);
    }
  }

  /** The whole loop keeps the property. */
  lemma {:induction false} RunOptimal(st: State, g: Config, countdown: nat)
    requires Inv(st, g) && Optimal(st, g)
    ensures Optimal(RunFrom(st, g, countdown), g)
    decreases Unprocessed(st.cs), StartDelay - countdown
  {
    if st.destNotReached && st.notAllVisited {
      FrameOptimal(st, g, countdown);
      RunOptimal(Frame(st, g, countdown), g, countdown + 1);
    }
  }

  /** Lines 96-114: nothing is processed and the source, the only current vertex, is at distance 0. */
  lemma SetupOptimal(ps: seq<Point>, srcDraw: nat, destDraw: nat, draws: nat -> int, edge: nat -> real)
    requires Distinct(ps) && srcDraw < |ps| && destDraw < |ps| - 1 && PositiveEdges(edge)
    ensures Optimal(InitialSetup(ps, srcDraw, destDraw, draws).start, SetupConfig(ps, srcDraw, destDraw, edge))
  {
    var g, st := SetupConfig(ps, srcDraw, destDraw, edge), InitialSetup(ps, srcDraw, destDraw, draws).start;
    SetupEstablishes(ps, srcDraw, destDraw, draws, edge);
    forall w | Walk(st.vs, g, w) && Fixed(st, Last(w)) ensures Within(st.vs[Last(w)].distance, WalkCost(g, w)) {
      assert !st.cs[Last(w)].visited;
      assert Last(w) == g.s;
      WalkCostPrefix(st.vs, g, w, 1);
    }
  }

  // ------------------------------------------------------------ the result

  /**
   * Once the destination is reached its distance is no larger than the cost
   * of any route from the source to it; in particular an infinite distance
   * means that there is no such route, and a finite one is the cost of the
   * stored path, which is then a shortest route.
   */
  lemma ReachedShortest(st: State, g: Config)
    requires Inv(st, g) && Optimal(st, g) && !st.destNotReached
    ensures forall w :: Walk(st.vs, g, w) && Last(w) == g.d ==> Within(st.vs[g.d].distance, WalkCost(g, w))
    ensures st.vs[g.d].path.Some?
    ensures st.vs[g.d].distance.Fin? ==> forall w :: Walk(st.vs, g, w) && Last(w) == g.d ==>
      PathCost(st.vs[g.d].path.value, g.edge) <= WalkCost(g, w)
  {
    ReachedRoute(st, g);
    assert Fixed(st, g.d);
  }

  /** The loop from any state with the property, such as the one at setup, ends with a shortest route or none. */
  lemma RunShortest(st: State, g: Config, countdown: nat)
    requires Inv(st, g) && Optimal(st, g)
    ensures var r := RunFrom(st, g, countdown);
      && r.vs[g.d].path.Some?
      && (forall w :: Walk(r.vs, g, w) && Last(w) == g.d ==> Within(r.vs[g.d].distance, WalkCost(g, w)))
      && (r.vs[g.d].distance.Fin? ==> forall w :: Walk(r.vs, g, w) && Last(w) == g.d ==>
            PathCost(r.vs[g.d].path.value, g.edge) <= WalkCost(g, w))
  {
    RunOptimal(st, g, countdown);
    ReachedShortest(RunFrom(st, g, countdown), g);
  }
}
