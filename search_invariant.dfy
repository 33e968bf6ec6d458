/**
 * What stays true of the search from setup to the end, and what each step
 * does to it: distances only fall, at most one vertex is current, each
 * processed vertex is retired in both lists, the predecessor links lead to
 * the source along strictly falling distances, and each tick retires at
 * least one vertex.
 */
module SearchInvariant {
  import opened Wrappers
  import opened Distances
  import opened Vertices
  import opened Lattice
  import opened SearchSpec

  /** The fixed data of one run: the lattice, the source and destination indices, the edge weights. */
  datatype Config = Config(points: seq<Point>, s: nat, d: nat, edge: nat -> real)

  function Dest(g: Config): Point
    requires g.d < |g.points|
  {
    g.points[g.d]
  }

  /** Both lists hold the lattice in order; the endpoints differ. */
  ghost predicate Shape(st: State, g: Config) {
    && |st.vs| == |g.points| && |st.cs| == |g.points|
    && g.s < |g.points| && g.d < |g.points| && g.s != g.d
    && CoordsOf(st.vs) == g.points && CoordsOf(st.cs) == g.points
    && Distinct(g.points) && PositiveEdges(g.edge)
  }

  /**
   * No copy is ever current; at most one vertex is current, and it is
   * unvisited and not a wall; a vertex retired in the copy is visited and
   * not a wall.
   */
  ghost predicate Flags(st: State) {
    && |st.vs| == |st.cs|
    && (forall i :: 0 <= i < |st.cs| ==> !st.cs[i].current)
    && (forall i, j :: 0 <= i < |st.vs| && 0 <= j < |st.vs| && st.vs[i].current && st.vs[j].current ==> i == j)
    && (forall i :: 0 <= i < |st.vs| && st.vs[i].current ==> !st.vs[i].visited && !st.vs[i].wall)
    && (forall i :: 0 <= i < |st.cs| && st.cs[i].visited ==> st.vs[i].visited && !st.vs[i].wall)
  }

  /** The two lists agree on the distance of an unprocessed vertex, except the current one. */
  ghost predicate Agree(st: State) {
    && |st.vs| == |st.cs|
    && forall i :: 0 <= i < |st.vs| ==> st.cs[i].visited || st.vs[i].current || st.cs[i].distance == st.vs[i].distance
  }

  /** A predecessor is a processed neighbour with a finite distance, and the link's weight accounts for the distance. */
  predicate LinkOK(vs: seq<Node>, cs: seq<Node>, k: nat, edge: nat -> real)
    requires k < |vs| == |cs|
  {
    match vs[k].previous
    case None => true
    case Some(j) =>
      && j < |vs| && cs[j].visited && vs[j].distance.Fin?
      && IsNeighbour(At(vs[j]), At(vs[k]))
      && vs[k].distance == Candidate(vs[j], vs[k], edge)
  }

  ghost predicate Linked(st: State, edge: nat -> real)
    requires |st.vs| == |st.cs|
  {
    forall k :: 0 <= k < |st.vs| ==> LinkOK(st.vs, st.cs, k, edge)
  }

  /** The source keeps distance 0 and no predecessor, and is the only finite vertex without one. */
  ghost predicate Rooted(st: State, s: nat)
    requires s < |st.vs| == |st.cs|
  {
    && st.vs[s].distance == Fin(0.0) && st.vs[s].previous.None? && !st.vs[s].wall
    && (!st.cs[s].visited ==> st.vs[s].current)
    && forall k :: 0 <= k < |st.vs| && st.vs[k].distance.Fin? && st.vs[k].previous.None? ==> k == s
  }

  /**
   * While the destination is not reached it is unvisited and some vertex is
   * current; once it is reached nothing is current and the destination holds
   * its path. The loop never finds every vertex visited.
   */
  ghost predicate Progress(st: State, g: Config)
    requires Shape(st, g)
  {
    && st.notAllVisited && !st.vs[g.d].wall
    && (st.destNotReached ==> !st.vs[g.d].visited && exists i :: 0 <= i < |st.vs| && st.vs[i].current)
    && (!st.destNotReached ==>
          && (forall i :: 0 <= i < |st.vs| ==> !st.vs[i].current)
          && st.vs[g.d].visited
          && st.vs[g.d].path == Some(Route(st.vs, g.d)))
  }

  ghost predicate Inv(st: State, g: Config) {
    && Shape(st, g) && Flags(st) && Agree(st) && Linked(st, g.edge) && Rooted(st, g.s) && Progress(st, g)
  }

  // ------------------------------------------------------------ relaxation

  /** The inner loop changes only distances and predecessors, and only of improved neighbours. */
  lemma RelaxEffects(st: State, g: Config, c: nat)
    requires Inv(st, g) && c < |st.vs| && st.vs[c].current
    ensures var vs', cs' := RelaxV(st.vs, st.cs, c, g.edge), RelaxC(st.vs, st.cs, c, g.edge);
      && vs'[c] == st.vs[c] && cs'[c] == st.cs[c]
      && CoordsOf(vs') == g.points && CoordsOf(cs') == g.points
      && (forall i :: 0 <= i < |vs'| ==>
            vs'[i] == st.vs[i].(distance := vs'[i].distance, previous := vs'[i].previous)
            && cs'[i] == st.cs[i].(distance := cs'[i].distance))
      && (forall i :: 0 <= i < |vs'| && !Relaxes(st.vs[c], st.cs[i], g.edge) ==> vs'[i] == st.vs[i] && cs'[i] == st.cs[i])
      && (forall i :: 0 <= i < |vs'| && Relaxes(st.vs[c], st.cs[i], g.edge) ==>
            && i != c && !st.cs[i].visited && !st.vs[i].current && st.vs[c].distance.Fin?
            && vs'[i].previous == Some(c)
            && vs'[i].distance == cs'[i].distance == Candidate(st.vs[c], st.vs[i], g.edge)
            && vs'[i].distance.Less(st.vs[i].distance))
  {
    var vs', cs' := RelaxV(st.vs, st.cs, c, g.edge), RelaxC(st.vs, st.cs, c, g.edge);
    assert At(st.vs[c]) == At(st.cs[c]) by { assert CoordsOf(st.vs)[c] == CoordsOf(st.cs)[c]; }
    SqDistZero(At(st.vs[c]), At(st.cs[c]));
    assert CoordsOf(vs') == g.points by {
      forall i | 0 <= i < |vs'| ensures CoordsOf(vs')[i] == g.points[i] {
        assert CoordsOf(st.vs)[i] == g.points[i];
      }
    }
    assert CoordsOf(cs') == g.points by {
      forall i | 0 <= i < |cs'| ensures CoordsOf(cs')[i] == g.points[i] {
        assert CoordsOf(st.cs)[i] == g.points[i];
      }
    }
    forall i | 0 <= i < |vs'| && Relaxes(st.vs[c], st.cs[i], g.edge)
      ensures && i != c && !st.cs[i].visited && !st.vs[i].current && st.vs[c].distance.Fin?
              && vs'[i].distance == cs'[i].distance == Candidate(st.vs[c], st.vs[i], g.edge)
              && vs'[i].distance.Less(st.vs[i].distance)
    {
      assert At(st.vs[i]) == At(st.cs[i]) by { assert CoordsOf(st.vs)[i] == CoordsOf(st.cs)[i]; }
    }
  }

  // ------------------------------------------------------------ selection

  lemma LessTransitive(a: Dist, b: Dist, c: Dist)
    requires a.Less(b) && b.Less(c)
    ensures a.Less(c)
  {
  }

  /**
   * The selection loop's `smallest_dist` is no larger than the distance of
   * any unvisited vertex and, when some vertex is unvisited, is the distance
   * of one of them; `inf` is a possible minimum.
   */
  lemma {:induction false} SmallestFacts(vs: seq<Node>, k: nat)
    requires k <= |vs|
    ensures forall i :: 0 <= i < k && !vs[i].visited ==> !vs[i].distance.Less(Smallest(vs, k))
    ensures UnvisitedCount(vs, k) > 0 <==> exists i :: 0 <= i < k && !vs[i].visited
    ensures UnvisitedCount(vs, k) > 0 ==> exists i :: 0 <= i < k && !vs[i].visited && vs[i].distance == Smallest(vs, k)
    ensures UnvisitedCount(vs, k) == 0 ==> Smallest(vs, k) == Inf
  {
    if k > 0 {
      SmallestFacts(vs, k - 1);
      var m := Smallest(vs, k - 1);
      if !vs[k - 1].visited && vs[k - 1].distance.Less(m) {
        forall i | 0 <= i < k - 1 && !vs[i].visited
          ensures !vs[i].distance.Less(vs[k - 1].distance)
        {
          if vs[i].distance.Less(vs[k - 1].distance) {
            LessTransitive(vs[i].distance, vs[k - 1].distance, m);
          }
        }
      } else if !vs[k - 1].visited && UnvisitedCount(vs, k - 1) == 0 {
        assert vs[k - 1].distance == m;
      }
    }
  }

  /**
   * When some vertex is unvisited, the marking loop picks index `j`: an
   * unvisited vertex whose distance is the unvisited minimum (possibly `inf`),
   * with no unvisited vertex before it at that distance. Being unvisited, a
   * wall already visited by `draw()` is never picked.
   */
  lemma SelectFirstMin(vs: seq<Node>)
    requires UnvisitedCount(vs, |vs|) > 0
    ensures FirstAt(vs, Smallest(vs, |vs|), |vs|).Some?
    ensures var j := FirstAt(vs, Smallest(vs, |vs|), |vs|).value;
      && j < |vs| && !vs[j].visited
      && MarkFirst(vs, Smallest(vs, |vs|)) == vs[j := vs[j].(current := true)]
      && (forall i :: 0 <= i < |vs| && !vs[i].visited ==> !vs[i].distance.Less(vs[j].distance))
      && (forall i :: 0 <= i < j && !vs[i].visited ==> vs[i].distance != vs[j].distance)
  {
    SmallestFacts(vs, |vs|);
  }

  /** With nothing unvisited the marking loop is never reached; `UnvisitedCount` counts exactly the unvisited. */
  lemma NothingUnvisited(vs: seq<Node>)
    ensures UnvisitedCount(vs, |vs|) == 0 <==> forall i :: 0 <= i < |vs| ==> vs[i].visited
  {
    SmallestFacts(vs, |vs|);
  }

  // ------------------------------------------------------------ one vertex

  /** The state once lines 143-162 are done for the current vertex `c`: relaxed and retired. */
  function Retired(st: State, c: nat, edge: nat -> real): (w: State)
    requires c < |st.vs| == |st.cs|
    ensures |w.vs| == |st.vs| && |w.cs| == |st.cs|
  {
    State(MarkProcessed(RelaxV(st.vs, st.cs, c, edge), c), MarkProcessed(RelaxC(st.vs, st.cs, c, edge), c),
          st.destNotReached, st.notAllVisited)
  }

  /** `Process` as the retired state followed by one of its three branches. */
  lemma ProcessUnfold(st: State, c: nat, dest: Point, edge: nat -> real)
    requires c < |st.vs| == |st.cs|
    ensures var w := Retired(st, c, edge);
      Process(st, c, dest, edge) ==
        if At(w.vs[c]) == dest then State(w.vs[c := w.vs[c].(path := Some(Route(w.vs, c)))], w.cs, false, st.notAllVisited)
        else if UnvisitedCount(w.vs, |w.vs|) == 0 then State(w.vs, w.cs, st.destNotReached, false)
        else State(MarkFirst(w.vs, Smallest(w.vs, |w.vs|)), w.cs, st.destNotReached, st.notAllVisited)
  {
  }

  lemma RetiredFacts(st: State, g: Config, c: nat)
    requires Inv(st, g) && WallsVisited(st.vs) && c < |st.vs| && st.vs[c].current
    ensures var w := Retired(st, c, g.edge);
      && st.destNotReached && c in Unprocessed(st.cs)
      && Shape(w, g) && Agree(w) && Linked(w, g.edge) && Rooted(w, g.s) && WallsVisited(w.vs)
      && (forall i :: 0 <= i < |w.vs| ==> !w.vs[i].current && !w.cs[i].current)
      && (forall i :: 0 <= i < |w.cs| && w.cs[i].visited ==> w.vs[i].visited && !w.vs[i].wall)
      && w.vs[c].visited && w.cs[c].visited
      && Unprocessed(w.cs) == Unprocessed(st.cs) - {c}
      && (forall i :: 0 <= i < |w.vs| ==> w.vs[i].visited == (st.vs[i].visited || i == c) && w.vs[i].wall == st.vs[i].wall)
  {
    RelaxEffects(st, g, c);
    RetiredCoords(st, g, c);
    RetiredLinked(st, g, c);
    var w := Retired(st, c, g.edge);
    var vs1, cs1 := w.vs, w.cs;
    assert st.destNotReached;
    assert Rooted(w, g.s) by {
      if !st.cs[g.s].visited {
        assert g.s == c;
      } else {
        assert !Relaxes(st.vs[c], st.cs[g.s], g.edge);
      }
    }
    assert Unprocessed(cs1) == Unprocessed(st.cs) - {c};
  }

  /** Retiring keeps both lists on the lattice. */
  lemma RetiredCoords(st: State, g: Config, c: nat)
    requires Inv(st, g) && c < |st.vs| && st.vs[c].current
    ensures var w := Retired(st, c, g.edge); CoordsOf(w.vs) == g.points && CoordsOf(w.cs) == g.points
  {
    RelaxEffects(st, g, c);
    var vr, cr := RelaxV(st.vs, st.cs, c, g.edge), RelaxC(st.vs, st.cs, c, g.edge);
    var w := Retired(st, c, g.edge);
    forall i | 0 <= i < |w.vs| ensures CoordsOf(w.vs)[i] == g.points[i] {
      assert CoordsOf(vr)[i] == g.points[i];
    }
    forall i | 0 <= i < |w.cs| ensures CoordsOf(w.cs)[i] == g.points[i] {
      assert CoordsOf(cr)[i] == g.points[i];
    }
  }

  /** Every link of the retired state still checks: new links point at `c`, whose distance is unchanged. */
  lemma RetiredLinked(st: State, g: Config, c: nat)
    requires Inv(st, g) && c < |st.vs| && st.vs[c].current
    ensures Linked(Retired(st, c, g.edge), g.edge)
  {
    RelaxEffects(st, g, c);
    RetiredCoords(st, g, c);
    var w := Retired(st, c, g.edge);
    var vs1, cs1 := w.vs, w.cs;
    forall k | 0 <= k < |vs1| ensures LinkOK(vs1, cs1, k, g.edge) {
      assert At(vs1[k]) == At(st.vs[k]) by { assert CoordsOf(vs1)[k] == CoordsOf(st.vs)[k]; }
      if Relaxes(st.vs[c], st.cs[k], g.edge) {
        assert vs1[c].distance == st.vs[c].distance && At(vs1[c]) == At(st.vs[c]);
      } else {
        assert LinkOK(st.vs, st.cs, k, g.edge);
        match st.vs[k].previous
        case None =>
        case Some(j) =>
          assert !Relaxes(st.vs[c], st.cs[j], g.edge);
          assert j != c;
          assert At(vs1[j]) == At(st.vs[j]) by { assert CoordsOf(vs1)[j] == CoordsOf(st.vs)[j]; }
      }
    }
  }

  /** Predecessor checks read only coordinates, distances and links, never flags or paths. */
  lemma LinkedFrame(a: seq<Node>, b: seq<Node>, cs: seq<Node>, edge: nat -> real)
    requires |a| == |b| == |cs| && Links(a) == Links(b)
    ensures forall k :: 0 <= k < |a| ==> (LinkOK(a, cs, k, edge) <==> LinkOK(b, cs, k, edge))
  {
    forall k | 0 <= k < |a| ensures LinkOK(a, cs, k, edge) <==> LinkOK(b, cs, k, edge) {
      assert Links(a)[k] == Links(b)[k];
      match a[k].previous
      case None =>
      case Some(j) =>
        if j < |a| {
          assert Links(a)[j] == Links(b)[j];
        }
    }
  }

  /** Unique coordinates: the only vertex at the destination's point is the destination. */
  lemma AtDest(vs: seq<Node>, g: Config, c: nat)
    requires |vs| == |g.points| && g.d < |g.points| && CoordsOf(vs) == g.points && Distinct(g.points)
    requires c < |vs| && At(vs[c]) == Dest(g)
    ensures c == g.d
  {
    assert CoordsOf(vs)[c] == g.points[c];
  }

  /** What `RetiredFacts` establishes, as one predicate on the retired state. */
  ghost predicate RetiredOK(w: State, g: Config) {
    && Shape(w, g) && Agree(w) && Linked(w, g.edge) && Rooted(w, g.s) && WallsVisited(w.vs)
    && w.destNotReached && w.notAllVisited && !w.vs[g.d].wall
    && (forall i :: 0 <= i < |w.vs| ==> !w.vs[i].current && !w.cs[i].current)
    && (forall i :: 0 <= i < |w.cs| && w.cs[i].visited ==> w.vs[i].visited && !w.vs[i].wall)
  }

  /** The destination branch (lines 167-171): the path is stored and the search stops. */
  lemma ReachedKeeps(w: State, g: Config, c: nat)
    requires RetiredOK(w, g) && c < |w.vs| && At(w.vs[c]) == Dest(g) && w.vs[c].visited
    ensures var vs2 := w.vs[c := w.vs[c].(path := Some(Route(w.vs, c)))];
      Inv(State(vs2, w.cs, false, w.notAllVisited), g) && WallsVisited(vs2)
  {
    AtDest(w.vs, g, c);
    var vs2 := w.vs[c := w.vs[c].(path := Some(Route(w.vs, c)))];
    var r := State(vs2, w.cs, false, w.notAllVisited);
    assert Links(vs2) == Links(w.vs);
    LinkedFrame(w.vs, vs2, w.cs, g.edge);
    assert CoordsOf(vs2) == g.points by {
      forall i | 0 <= i < |vs2| ensures CoordsOf(vs2)[i] == g.points[i] {
        assert CoordsOf(w.vs)[i] == g.points[i];
      }
    }
    assert Shape(r, g);
    assert Flags(r);
    assert Agree(r);
    assert Linked(r, g.edge);
    assert Rooted(r, g.s);
    assert Progress(r, g);
  }

  /** The selection branch (lines 176-193): the first unvisited vertex at the least distance becomes current. */
  lemma SelectKeeps(w: State, g: Config)
    requires RetiredOK(w, g) && !w.vs[g.d].visited
    ensures UnvisitedCount(w.vs, |w.vs|) > 0
    ensures var vs2 := MarkFirst(w.vs, Smallest(w.vs, |w.vs|));
      Inv(State(vs2, w.cs, w.destNotReached, w.notAllVisited), g) && WallsVisited(vs2)
  {
    NothingUnvisited(w.vs);
    SelectFirstMin(w.vs);
    var j := FirstAt(w.vs, Smallest(w.vs, |w.vs|), |w.vs|).value;
    assert MarkFirst(w.vs, Smallest(w.vs, |w.vs|)) == w.vs[j := w.vs[j].(current := true)];
    assert !w.vs[j].wall;
    MarkKeeps(w, g, j);
  }

  /** Making one unvisited vertex that is not a wall current restores the invariant. */
  lemma MarkKeeps(w: State, g: Config, j: nat)
    requires RetiredOK(w, g) && !w.vs[g.d].visited && j < |w.vs| && !w.vs[j].visited && !w.vs[j].wall
    ensures var vs2 := w.vs[j := w.vs[j].(current := true)];
      Inv(State(vs2, w.cs, w.destNotReached, w.notAllVisited), g) && WallsVisited(vs2)
  {
    var vs2 := w.vs[j := w.vs[j].(current := true)];
    var r := State(vs2, w.cs, w.destNotReached, w.notAllVisited);
    assert Links(vs2) == Links(w.vs);
    LinkedFrame(w.vs, vs2, w.cs, g.edge);
    assert CoordsOf(vs2) == g.points by {
      forall i | 0 <= i < |vs2| ensures CoordsOf(vs2)[i] == g.points[i] {
        assert CoordsOf(w.vs)[i] == g.points[i];
      }
    }
    assert Shape(r, g);
    assert Flags(r);
    assert Agree(r) by {
      forall i | 0 <= i < |vs2| ensures w.cs[i].visited || vs2[i].current || w.cs[i].distance == vs2[i].distance {
        assert vs2[i].distance == w.vs[i].distance;
      }
    }
    assert Rooted(r, g.s) by {
      assert w.cs[g.s].visited;
    }
    assert vs2[j].current;
  }

  /** Processing the current vertex keeps the invariant, and walls stay visited. */
  lemma ProcessPreserves(st: State, g: Config, c: nat)
    requires Inv(st, g) && WallsVisited(st.vs) && c < |st.vs| && st.vs[c].current
    ensures Inv(Process(st, c, Dest(g), g.edge), g)
    ensures WallsVisited(Process(st, c, Dest(g), g.edge).vs)
  {
    RetiredFacts(st, g, c);
    var w := Retired(st, c, g.edge);
    assert RetiredOK(w, g);
    if At(w.vs[c]) == Dest(g) {
      ReachedKeeps(w, g, c);
    } else {
      assert c != g.d;
      SelectKeeps(w, g);
    }
  }

  /** A distance that is the same as before or strictly smaller. */
  predicate NoWorse(now: Dist, before: Dist) {
    now == before || now.Less(before)
  }

  /** After retiring `c`, the three branches change only `path`, `current` and the flags. */
  lemma ProcessFrame(st: State, c: nat, dest: Point, edge: nat -> real)
    requires c < |st.vs| == |st.cs|
    ensures var w, r := Retired(st, c, edge), Process(st, c, dest, edge);
      && r.cs == w.cs
      && forall i :: 0 <= i < |r.vs| ==> r.vs[i] == w.vs[i].(path := r.vs[i].path, current := r.vs[i].current)
  {
  }

  /**
   * Processing `c` retires it in both lists and in nothing else, leaves every
   * wall as it was, and only lowers distances, each lowered one now pointing
   * back at `c`.
   */
  lemma ProcessEffects(st: State, g: Config, c: nat)
    requires Inv(st, g) && WallsVisited(st.vs) && c < |st.vs| && st.vs[c].current
    ensures var r := Process(st, c, Dest(g), g.edge);
      && c in Unprocessed(st.cs) && Unprocessed(r.cs) == Unprocessed(st.cs) - {c}
      && r.vs[c].visited && !r.vs[c].current && r.cs[c].visited && !r.cs[c].current
      && (forall i :: 0 <= i < |r.vs| ==> r.vs[i].wall == st.vs[i].wall)
      && (forall i :: 0 <= i < |r.vs| ==>
            r.vs[i].distance == st.vs[i].distance
            || (r.vs[i].distance.Less(st.vs[i].distance) && r.vs[i].previous == Some(c)))
  {
    RetiredFacts(st, g, c);
    RelaxEffects(st, g, c);
    ProcessFrame(st, c, Dest(g), g.edge);
    ProcessPreserves(st, g, c);
  }

  /** The indices before the current vertex leave the state as it is: only that vertex is current. */
  lemma {:induction false} PassBefore(st: State, dest: Point, edge: nat -> real, c: nat, k: nat)
    requires |st.vs| == |st.cs| && c < |st.vs| && k <= c
    requires forall i :: 0 <= i < |st.vs| && st.vs[i].current ==> i == c
    ensures PassFrom(st, k, dest, edge) == PassFrom(st, c, dest, edge)
    decreases c - k
  {
    if k < c {
      assert PassStep(st, k, dest, edge) == st;
      PassBefore(st, dest, edge, c, k + 1);
    }
  }

  /** From `before` to `after` no vertex is un-retired, no distance rises and no wall changes. */
  ghost predicate Advances(before: State, after: State) {
    && |after.vs| == |before.vs| && |after.cs| == |before.cs|
    && Unprocessed(after.cs) <= Unprocessed(before.cs)
    && forall i :: 0 <= i < |after.vs| ==>
         NoWorse(after.vs[i].distance, before.vs[i].distance) && after.vs[i].wall == before.vs[i].wall
  }

  lemma AdvancesReflexive(a: State)
    requires |a.vs| == |a.cs|
    ensures Advances(a, a)
  {
  }

  lemma AdvancesTransitive(a: State, b: State, c: State)
    requires Advances(a, b) && Advances(b, c)
    ensures Advances(a, c)
  {
    forall i | 0 <= i < |c.vs| ensures NoWorse(c.vs[i].distance, a.vs[i].distance) {
      if c.vs[i].distance != b.vs[i].distance && b.vs[i].distance != a.vs[i].distance {
        LessTransitive(c.vs[i].distance, b.vs[i].distance, a.vs[i].distance);
      }
    }
  }

  lemma PassStepKeeps(p: State, g: Config, c: nat)
    requires Inv(p, g) && WallsVisited(p.vs) && c < |p.vs|
    ensures var r := PassStep(p, c, Dest(g), g.edge);
      Inv(r, g) && WallsVisited(r.vs) && Advances(p, r)
  {
    if p.vs[c].current {
      ProcessPreserves(p, g, c);
      ProcessEffects(p, g, c);
    }
  }

  /**
   * The rest of the pass from index `k` keeps the invariant, keeps walls
   * visited, never un-retires a vertex, never raises a distance and never
   * changes a wall.
   */
  lemma PassPreserves(st: State, g: Config, k: nat)
    requires Inv(st, g) && WallsVisited(st.vs) && k <= |st.vs|
    ensures var r := PassFrom(st, k, Dest(g), g.edge);
      Inv(r, g) && WallsVisited(r.vs) && Advances(st, r)
  {
    var P := (q: State) => Inv(q, g) && WallsVisited(q.vs) && Advances(st, q);
    forall q: State, c: nat | |q.vs| == |q.cs| && c < |q.vs| && P(q)
      ensures P(PassStep(q, c, Dest(g), g.edge))
    {
      PassStepKeeps(q, g, c);
      AdvancesTransitive(st, q, PassStep(q, c, Dest(g), g.edge));
    }
    AdvancesReflexive(st);
    PassInduction(st, k, Dest(g), g.edge, P);
  }

  /** A tick keeps the invariant and never raises a distance. */
  lemma TickPreserves(st: State, g: Config)
    requires Inv(st, g) && WallsVisited(st.vs)
    ensures var r := Tick(st, Dest(g), g.edge);
      Inv(r, g) && WallsVisited(r.vs) && Advances(st, r)
  {
    PassPreserves(st, g, 0);
  }

  /** While the destination is not reached, each tick retires at least one more vertex, so the loop at line 134 ends. */
  lemma TickProgress(st: State, g: Config)
    requires Inv(st, g) && WallsVisited(st.vs) && st.destNotReached
    ensures Unprocessed(Tick(st, Dest(g), g.edge).cs) < Unprocessed(st.cs)
  {
    var c :| 0 <= c < |st.vs| && st.vs[c].current;
    TickRetires(st, g, c);
  }

  /** The tick retires the current vertex `c` itself. */
  lemma TickRetires(st: State, g: Config, c: nat)
    requires Inv(st, g) && WallsVisited(st.vs) && c < |st.vs| && st.vs[c].current
    ensures c in Unprocessed(st.cs) && Unprocessed(Tick(st, Dest(g), g.edge).cs) <= Unprocessed(st.cs) - {c}
  {
    var p := TickReaches(st, g, c);
    PassPreserves(p, g, c + 1);
  }

  /** The tick's pass reaches `c` unchanged and processes it there. */
  lemma TickReaches(st: State, g: Config, c: nat) returns (p: State)
    requires Inv(st, g) && WallsVisited(st.vs) && c < |st.vs| && st.vs[c].current
    ensures c < |p.vs| == |p.cs| && Inv(p, g) && WallsVisited(p.vs)
    ensures c in Unprocessed(st.cs) && Unprocessed(p.cs) == Unprocessed(st.cs) - {c}
    ensures Tick(st, Dest(g), g.edge) == PassFrom(p, c + 1, Dest(g), g.edge)
  {
    PassBefore(st, Dest(g), g.edge, c, 0);
    ProcessPreserves(st, g, c);
    ProcessEffects(st, g, c);
    p := Process(st, c, Dest(g), g.edge);
    assert PassFrom(st, c, Dest(g), g.edge) == PassFrom(p, c + 1, Dest(g), g.edge);
  }

  /** Once the destination is reached nothing is current, so a further tick changes nothing. */
  lemma TickIdle(st: State, g: Config)
    requires Inv(st, g) && !st.destNotReached
    ensures Tick(st, Dest(g), g.edge) == st
  {
    PassIdle(st, g, 0);
  }

  lemma {:induction false} PassIdle(st: State, g: Config, k: nat)
    requires Inv(st, g) && !st.destNotReached && k <= |st.vs|
    ensures PassFrom(st, k, Dest(g), g.edge) == st
    decreases |st.vs| - k
  {
    if k < |st.vs| {
      PassIdle(st, g, k + 1);
    }
  }
  /** `draw()` marking walls visited keeps the invariant: a current vertex and the destination are never walls. */
  lemma DrawPreserves(st: State, g: Config)
    requires Inv(st, g)
    ensures var r := st.(vs := DrawWalls(st.vs));
      Inv(r, g) && WallsVisited(r.vs) && r.cs == st.cs
      && (forall i :: 0 <= i < |r.vs| ==> r.vs[i] == st.vs[i].(visited := r.vs[i].visited))
  {
    var r := st.(vs := DrawWalls(st.vs));
    assert Links(r.vs) == Links(st.vs);
    LinkedFrame(st.vs, r.vs, st.cs, g.edge);
    assert CoordsOf(r.vs) == g.points by {
      forall i | 0 <= i < |r.vs| ensures CoordsOf(r.vs)[i] == g.points[i] {
        assert CoordsOf(st.vs)[i] == g.points[i];
      }
    }
    assert Flags(r);
    assert Progress(r, g);
  }

  // ------------------------------------------------------------ setup

  /** The configuration `InitialSetup` describes: the destination's index in the full list is `SkipIndex`. */
  function SetupConfig(ps: seq<Point>, srcDraw: nat, destDraw: nat, edge: nat -> real): Config {
    Config(ps, srcDraw, SkipIndex(srcDraw, destDraw), edge)
  }

  /** Lines 96-114 establish the invariant, with the source as the only current vertex. */
  lemma SetupEstablishes(ps: seq<Point>, srcDraw: nat, destDraw: nat, draws: nat -> int, edge: nat -> real)
    requires Distinct(ps) && srcDraw < |ps| && destDraw < |ps| - 1 && PositiveEdges(edge)
    ensures var g, su := SetupConfig(ps, srcDraw, destDraw, edge), InitialSetup(ps, srcDraw, destDraw, draws);
      && Inv(su.start, g) && su.src == g.points[g.s] && su.dest == Dest(g)
      && (forall i :: 0 <= i < |ps| ==> (su.start.vs[i].current <==> i == g.s))
  {
    var g, su := SetupConfig(ps, srcDraw, destDraw, edge), InitialSetup(ps, srcDraw, destDraw, draws);
    PopAt(ps, srcDraw, destDraw);
    var ns := InitialNodes(ps);
    var wl := GenerateWalls(ns, su.src, su.dest, draws);
    assert CoordsOf(wl) == ps by {
      forall i | 0 <= i < |wl| ensures CoordsOf(wl)[i] == ps[i] {
        assert At(wl[i]) == At(ns[i]);
      }
    }
    assert At(wl[g.s]) == su.src;
    SourceIsCurrent(wl, g.s);
    var st := su.start;
    assert st.vs == SetSrcToCurrent(wl, su.src);
    assert forall i :: 0 <= i < |ps| ==> (st.vs[i].current <==> i == g.s);
    assert !st.vs[g.d].wall by {
      assert At(ns[g.d]) == su.dest;
    }
    assert Shape(st, g);
    assert Flags(st);
    assert Rooted(st, g.s);
    assert Progress(st, g);
  }

  // ------------------------------------------------------------ the whole run

  /**
   * One iteration of the loop at lines 134-193 with `countdown` frames
   * already drawn: draw, count, and past the delay run one tick, which
   * retires a vertex while the destination is not reached (`TickProgress`).
   */
  ghost function Frame(st: State, g: Config, countdown: nat): (r: State)
    requires Inv(st, g)
    ensures Inv(r, g) && Unprocessed(r.cs) <= Unprocessed(st.cs)
    ensures countdown + 1 > StartDelay && st.destNotReached ==> Unprocessed(r.cs) < Unprocessed(st.cs)
  {
    var d := st.(vs := DrawWalls(st.vs));
    DrawPreserves(st, g);
    if countdown + 1 > StartDelay then
      var t := Tick(d, Dest(g), g.edge);
      TickPreserves(d, g);
      if d.destNotReached then TickProgress(d, g); t else t
    else d
  }

  /**
   * The loop at lines 134-193 from state `st` with `countdown` frames drawn.
   * It ends because the ticks retire vertices, and it always ends with the
   * destination reached, never with `not_all_visited` cleared.
   */
  ghost function RunFrom(st: State, g: Config, countdown: nat): (r: State)
    requires Inv(st, g)
    ensures Inv(r, g) && !r.destNotReached && r.notAllVisited
    decreases Unprocessed(st.cs), StartDelay - countdown
  {
    if !(st.destNotReached && st.notAllVisited) then st
    else RunFrom(Frame(st, g, countdown), g, countdown + 1)
  }

  // ------------------------------------------------------------ the path

  /** The points of the vertices retired in the copy. */
  ghost function Settled(st: State): set<Point>
    requires |st.vs| == |st.cs|
  {
    set j | 0 <= j < |st.cs| && st.cs[j].visited :: At(st.vs[j])
  }

  /** Every stored predecessor is strictly closer to the source than the vertex pointing at it. */
  ghost predicate Descending(vs: seq<Node>) {
    forall k :: 0 <= k < |vs| && vs[k].previous.Some? ==>
      vs[k].previous.value < |vs| && vs[vs[k].previous.value].distance.Less(vs[k].distance)
  }

  /** The links the search stores descend, because edge weights are positive. */
  lemma LinkedDescending(vs: seq<Node>, cs: seq<Node>, edge: nat -> real)
    requires |vs| == |cs| && PositiveEdges(edge)
    requires forall k :: 0 <= k < |vs| ==> LinkOK(vs, cs, k, edge)
    ensures Descending(vs)
  {
    forall k | 0 <= k < |vs| && vs[k].previous.Some?
      ensures vs[k].previous.value < |vs| && vs[vs[k].previous.value].distance.Less(vs[k].distance)
    {
      assert LinkOK(vs, cs, k, edge);
      var j := vs[k].previous.value;
      assert edge(SqDist(At(vs[j]), At(vs[k]))) > 0.0;
      PlusPositive(vs[j].distance, edge(SqDist(At(vs[j]), At(vs[k]))));
    }
  }

  /**
   * Walking the stored links from vertex `i`: every step is to a neighbour
   * retired earlier; a finite vertex's walk ends at the source and its edge
   * weights sum to its distance (path-cost consistency); an infinite one has
   * no predecessor and its route is itself alone.
   */
  lemma {:induction false} RouteFacts(st: State, g: Config, i: nat)
    requires Shape(st, g) && Linked(st, g.edge) && Rooted(st, g.s) && i < |st.vs|
    ensures var p := Route(st.vs, i);
      && (st.vs[i].distance == Inf ==> p == [At(st.vs[i])])
      && (st.vs[i].distance.Fin? ==> p[|p| - 1] == g.points[g.s] && st.vs[i].distance == Fin(PathCost(p, g.edge)))
      && (forall k :: 0 <= k < |p| - 1 ==> IsNeighbour(p[k], p[k + 1]))
      && (forall k :: 1 <= k < |p| ==> p[k] in Settled(st))
    decreases |Below(Links(st.vs), i)|
  {
    var ls := Links(st.vs);
    var p := Route(st.vs, i);
    assert LinkOK(st.vs, st.cs, i, g.edge);
    match st.vs[i].previous
    case None =>
      assert p == [At(st.vs[i])];
      if st.vs[i].distance.Fin? {
        assert i == g.s;
        assert At(st.vs[i]) == g.points[g.s] by { assert CoordsOf(st.vs)[i] == g.points[i]; }
      }
    case Some(j) =>
      var a, b := At(st.vs[i]), At(st.vs[j]);
      SqDistSymmetric(b, a);
      assert g.edge(SqDist(b, a)) > 0.0;
      PlusPositive(st.vs[j].distance, g.edge(SqDist(b, a)));
      assert ls[j].distance.Less(ls[i].distance);
      BelowShrinks(ls, i, j);
      RouteFacts(st, g, j);
      var q := Route(st.vs, j);
      assert PathFrom(ls, i) == q;
      assert p == [a] + q;
      assert p[1..] == q;
      assert b in Settled(st);
  }

  /**
   * Once the search stops, the destination holds its route: it starts at the
   * destination, steps between neighbours through vertices retired before it
   * and none of them a wall, and, unless the destination's distance is still
   * infinite, ends at the source with the edge weights summing to that distance.
   */
  lemma ReachedRoute(st: State, g: Config)
    requires Inv(st, g) && !st.destNotReached
    ensures st.vs[g.d].path.Some?
    ensures var p := st.vs[g.d].path.value;
      && p == Route(st.vs, g.d) && p[0] == Dest(g)
      && (st.vs[g.d].distance == Inf ==> p == [Dest(g)])
      && (st.vs[g.d].distance.Fin? ==> p[|p| - 1] == g.points[g.s] && st.vs[g.d].distance == Fin(PathCost(p, g.edge)))
      && (forall k :: 0 <= k < |p| - 1 ==> IsNeighbour(p[k], p[k + 1]))
      && (forall k, m :: 0 <= k < |p| && 0 <= m < |st.vs| && At(st.vs[m]) == p[k] ==> !st.vs[m].wall)
  {
    assert At(st.vs[g.d]) == Dest(g) by { assert CoordsOf(st.vs)[g.d] == g.points[g.d]; }
    RouteFacts(st, g, g.d);
    var p := st.vs[g.d].path.value;
    forall k, m | 0 <= k < |p| && 0 <= m < |st.vs| && At(st.vs[m]) == p[k] ensures !st.vs[m].wall {
      if k == 0 {
        assert m == g.d by { assert CoordsOf(st.vs)[m] == CoordsOf(st.vs)[g.d]; }
      } else {
        assert p[k] in Settled(st);
        var j :| 0 <= j < |st.cs| && st.cs[j].visited && At(st.vs[j]) == p[k];
        assert m == j by { assert CoordsOf(st.vs)[m] == CoordsOf(st.vs)[j]; }
      }
    }
  }
}
