/**
 * The search of main.py on values. A `State` holds the two parallel lists
 * of vertex snapshots, `vertex_list` (`vs`) and its deep copy `copy_list`
 * (`cs`), with the loop flags `dest_not_reached` and `not_all_visited`.
 * Each function here is one loop or one statement block of the source,
 * and the imperative model in module Pathfinder is proved to compute it.
 */
module SearchSpec {
  import opened Wrappers
  import opened Distances
  import opened Vertices
  import opened Lattice

  /** `(1.5 * SQUARE_SIZE) ** 2`: `calc_distance < 30` exactly when the squared distance is below 900. */
  const NeighbourLimit := 900

  /** `FPS`, the frames per second of the loop at line 134. */
  const Fps: nat := 8

  /** `FPS * 3`: the search starts on the frame after the first 24. */
  const StartDelay: nat := Fps * 3

  datatype State = State(vs: seq<Node>, cs: seq<Node>, destNotReached: bool, notAllVisited: bool)

  /** `return_coordinates` of a snapshot. */
  function At(n: Node): Point {
    (n.x, n.y)
  }

  function CoordsOf(ns: seq<Node>): (r: seq<Point>)
    ensures |r| == |ns| && forall i :: 0 <= i < |ns| ==> r[i] == At(ns[i])
  {
    seq(|ns|, i requires 0 <= i < |ns| => At(ns[i]))
  }

  /** The stand-in for `math.sqrt` is strictly positive on every positive squared distance. */
  ghost predicate PositiveEdges(edge: nat -> real) {
    forall d: nat :: d > 0 ==> edge(d) > 0.0
  }

  // ---------------------------------------------------------------- setup

  /** `generate_vertices` on values: each vertex as `Vertex(x, y)` builds it. */
  function InitialNodes(ps: seq<Point>): (r: seq<Node>)
    ensures |r| == |ps| && CoordsOf(r) == ps
    ensures forall i :: 0 <= i < |ps| ==> r[i] == Initial(ps[i])
  {
    seq(|ps|, i requires 0 <= i < |ps| => Initial(ps[i]))
  }

  /** `locator_list.pop(i)`. */
  function Pop<T>(s: seq<T>, i: nat): (r: seq<T>)
    requires i < |s|
    ensures |r| == |s| - 1
  {
    s[..i] + s[i + 1..]
  }

  /** The position in the full list of element `k` of the list once `i` is popped. */
  function SkipIndex(i: nat, k: nat): nat {
    if k < i then k else k + 1
  }

  lemma PopAt<T>(s: seq<T>, i: nat, k: nat)
    requires i < |s| && k < |s| - 1
    ensures SkipIndex(i, k) < |s| && SkipIndex(i, k) != i
    ensures Pop(s, i)[k] == s[SkipIndex(i, k)]
  {
  }

  /**
   * The destination is drawn from the list with the source's entry popped, and
   * lattice coordinates are unique, so the two endpoints have different coordinates.
   */
  lemma EndpointsDiffer(ps: seq<Point>, srcDraw: nat, destDraw: nat)
    requires Distinct(ps) && srcDraw < |ps| && destDraw < |ps| - 1
    ensures ps[srcDraw] != Pop(ps, srcDraw)[destDraw]
  {
    PopAt(ps, srcDraw, destDraw);
  }

  predicate Terminal(p: Point, src: Point, dest: Point) {
    p == src || p == dest
  }

  /** How many wall draws `generate_walls` has made before it reaches vertex `i`. */
  function DrawsBefore(ns: seq<Node>, src: Point, dest: Point, i: nat): nat
    requires i <= |ns|
  {
    if i == 0 then 0
    else DrawsBefore(ns, src, dest, i - 1) + (if Terminal(At(ns[i - 1]), src, dest) then 0 else 1)
  }

  /** Later non-terminal vertices use later draws: every draw decides exactly one vertex. */
  lemma {:induction false} DrawsIncrease(ns: seq<Node>, src: Point, dest: Point, i: nat, j: nat)
    requires i < j <= |ns| && !Terminal(At(ns[i]), src, dest)
    ensures DrawsBefore(ns, src, dest, i) < DrawsBefore(ns, src, dest, j)
  {
    if j > i + 1 {
      DrawsIncrease(ns, src, dest, i, j - 1);
    }
  }

  /**
   * `generate_walls`: every vertex other than the two endpoints takes the
   * next draw and becomes a wall when it is 0. Nothing but `wall` changes,
   * `wall` is only ever set, and the endpoints never become walls.
   */
  function GenerateWalls(ns: seq<Node>, src: Point, dest: Point, draws: nat -> int): (r: seq<Node>)
    ensures |r| == |ns|
    ensures forall i :: 0 <= i < |ns| ==> r[i] == ns[i].(wall := r[i].wall)
    ensures forall i :: 0 <= i < |ns| ==> ns[i].wall ==> r[i].wall
    ensures forall i :: 0 <= i < |ns| && Terminal(At(ns[i]), src, dest) ==> r[i].wall == ns[i].wall
    ensures forall i :: 0 <= i < |ns| && !ns[i].wall ==>
              (r[i].wall <==> !Terminal(At(ns[i]), src, dest) && draws(DrawsBefore(ns, src, dest, i)) == 0)
  {
    seq(|ns|, i requires 0 <= i < |ns| =>
      if !Terminal(At(ns[i]), src, dest) && draws(DrawsBefore(ns, src, dest, i)) == 0
      then ns[i].(wall := true) else ns[i])
  }

  /** `set_src_to_current`: the vertex at the source becomes current with distance 0. */
  function SetSrcToCurrent(ns: seq<Node>, src: Point): (r: seq<Node>)
    ensures |r| == |ns| && CoordsOf(r) == CoordsOf(ns)
  {
    seq(|ns|, i requires 0 <= i < |ns| =>
      if At(ns[i]) == src then ns[i].(current := true, distance := Fin(0.0)) else ns[i])
  }

  /**
   * With unique coordinates, after `set_src_to_current` the source vertex is
   * current at distance 0 and every other vertex is as it was.
   */
  lemma SourceIsCurrent(ns: seq<Node>, s: nat)
    requires Distinct(CoordsOf(ns)) && s < |ns|
    ensures SetSrcToCurrent(ns, At(ns[s]))[s] == ns[s].(current := true, distance := Fin(0.0))
    ensures forall i :: 0 <= i < |ns| && i != s ==> SetSrcToCurrent(ns, At(ns[s]))[i] == ns[i]
  {
    forall i | 0 <= i < |ns| && i != s
      ensures SetSrcToCurrent(ns, At(ns[s]))[i] == ns[i]
    {
      assert CoordsOf(ns)[i] != CoordsOf(ns)[s];
    }
  }

  /** Where the search starts: main.py's module-level statements, lines 96-114. */
  datatype Setup = Setup(src: Point, dest: Point, start: State)

  function InitialSetup(ps: seq<Point>, srcDraw: nat, destDraw: nat, draws: nat -> int): Setup
    requires srcDraw < |ps| && destDraw < |ps| - 1
  {
    var cs := InitialNodes(ps);
    var src := ps[srcDraw];
    var dest := Pop(ps, srcDraw)[destDraw];
    Setup(src, dest, State(SetSrcToCurrent(GenerateWalls(cs, src, dest, draws), src), cs, true, true))
  }

  /**
   * Where the search starts: the copy is the fresh lattice, both flags are
   * set, the source is the one current vertex, at distance 0, every other
   * vertex is at `inf`, nothing is visited or linked, and neither endpoint
   * is a wall.
   */
  lemma SetupState(ps: seq<Point>, srcDraw: nat, destDraw: nat, draws: nat -> int)
    requires srcDraw < |ps| && destDraw < |ps| - 1
    ensures var su := InitialSetup(ps, srcDraw, destDraw, draws);
      && su.src == ps[srcDraw] && su.dest in ps
      && su.start.cs == InitialNodes(ps) && su.start.destNotReached && su.start.notAllVisited
      && |su.start.vs| == |ps| && CoordsOf(su.start.vs) == ps
      && forall i :: 0 <= i < |ps| ==>
           && (su.start.vs[i].current <==> ps[i] == su.src)
           && su.start.vs[i].distance == (if ps[i] == su.src then Fin(0.0) else Inf)
           && !su.start.vs[i].visited && su.start.vs[i].previous.None? && su.start.vs[i].path.None?
           && (su.start.vs[i].wall ==> ps[i] != su.src && ps[i] != su.dest)
  {
    PopAt(ps, srcDraw, destDraw);
  }

  // ---------------------------------------------------------------- one vertex

  predicate IsNeighbour(a: Point, b: Point) {
    0 < SqDist(a, b) < NeighbourLimit
  }

  /** `new_distance = v.calc_distance(x) + v.distance`. */
  function Candidate(v: Node, x: Node, edge: nat -> real): Dist {
    v.distance.Plus(edge(SqDist(At(v), At(x))))
  }

  /** The three tests of the inner loop: a neighbour, unvisited in the copy, and improved. */
  predicate Relaxes(v: Node, x: Node, edge: nat -> real) {
    IsNeighbour(At(v), At(x)) && !x.visited && Candidate(v, x, edge).Less(x.distance)
  }

  /** `vertex_list` after the inner loop over `copy_list` for the current vertex `c`. */
  function RelaxV(vs: seq<Node>, cs: seq<Node>, c: nat, edge: nat -> real): (r: seq<Node>)
    requires c < |vs| == |cs|
    ensures |r| == |vs|
  {
    seq(|vs|, i requires 0 <= i < |vs| =>
      if Relaxes(vs[c], cs[i], edge)
      then vs[i].(distance := Candidate(vs[c], cs[i], edge), previous := Some(c))
      else vs[i])
  }

  /** `copy_list` after the same loop. */
  function RelaxC(vs: seq<Node>, cs: seq<Node>, c: nat, edge: nat -> real): (r: seq<Node>)
    requires c < |vs| == |cs|
    ensures |r| == |cs|
  {
    seq(|cs|, i requires 0 <= i < |cs| =>
      if Relaxes(vs[c], cs[i], edge) then cs[i].(distance := Candidate(vs[c], cs[i], edge)) else cs[i])
  }

  /**
   * The inner loop changes entry `i` exactly when `Relaxes` holds for it: then
   * both lists take the same new distance, strictly below the copy's, and
   * `vertex_list` takes `c` as the predecessor. Nothing else changes, so no
   * distance in the copy rises, and the current vertex, a distance of 0 from
   * its own copy, is left alone.
   */
  lemma RelaxOutcome(vs: seq<Node>, cs: seq<Node>, c: nat, edge: nat -> real)
    requires c < |vs| == |cs|
    ensures var vs', cs' := RelaxV(vs, cs, c, edge), RelaxC(vs, cs, c, edge);
      && (forall i :: 0 <= i < |vs| ==>
            && vs'[i] == vs[i].(distance := vs'[i].distance, previous := vs'[i].previous)
            && cs'[i] == cs[i].(distance := cs'[i].distance)
            && (cs'[i].distance == cs[i].distance || cs'[i].distance.Less(cs[i].distance)))
      && (forall i :: 0 <= i < |vs| && Relaxes(vs[c], cs[i], edge) ==>
            && IsNeighbour(At(vs[c]), At(cs[i])) && !cs[i].visited
            && vs'[i].previous == Some(c) && vs'[i].distance == cs'[i].distance
            && cs'[i].distance.Less(cs[i].distance))
      && (forall i :: 0 <= i < |vs| && !Relaxes(vs[c], cs[i], edge) ==> vs'[i] == vs[i] && cs'[i] == cs[i])
      && (At(vs[c]) == At(cs[c]) ==> vs'[c] == vs[c] && cs'[c] == cs[c])
  {
    SqDistZero(At(vs[c]), At(cs[c]));
  }

  /** `visited = True` and `current = False` for the vertex at `c`. */
  function MarkProcessed(ns: seq<Node>, c: nat): (r: seq<Node>)
    requires c < |ns|
    ensures |r| == |ns|
  {
    ns[c := ns[c].(visited := true, current := false)]
  }

  /** `smallest_dist` after the first `k` vertices of the selection loop. */
  function Smallest(vs: seq<Node>, k: nat): Dist
    requires k <= |vs|
  {
    if k == 0 then Inf
    else
      var m := Smallest(vs, k - 1);
      if !vs[k - 1].visited && vs[k - 1].distance.Less(m) then vs[k - 1].distance else m
  }

  /** `unvisited_count` after the first `k` vertices. */
  function UnvisitedCount(vs: seq<Node>, k: nat): nat
    requires k <= |vs|
  {
    if k == 0 then 0 else UnvisitedCount(vs, k - 1) + (if vs[k - 1].visited then 0 else 1)
  }

  /** `unvisited_count` is the number of unvisited vertices among the first `k`. */
  lemma {:induction false} UnvisitedCountSet(vs: seq<Node>, k: nat)
    requires k <= |vs|
    ensures UnvisitedCount(vs, k) == |set i | 0 <= i < k && !vs[i].visited|
  {
    if k > 0 {
      UnvisitedCountSet(vs, k - 1);
      var before := set i | 0 <= i < k - 1 && !vs[i].visited;
      if vs[k - 1].visited {
        assert (set i | 0 <= i < k && !vs[i].visited) == before;
      } else {
        assert (set i | 0 <= i < k && !vs[i].visited) == before + {k - 1};
      }
    }
  }

  /** A count of 0 means every vertex is visited. */
  lemma AllVisited(vs: seq<Node>)
    requires UnvisitedCount(vs, |vs|) == 0
    ensures forall i :: 0 <= i < |vs| ==> vs[i].visited
  {
    UnvisitedCountSet(vs, |vs|);
    var unvisited := set k | 0 <= k < |vs| && !vs[k].visited;
    assert unvisited == {};
    forall i | 0 <= i < |vs| ensures vs[i].visited {
      assert i !in unvisited;
    }
  }

  /**
   * Retiring a vertex lowers the unvisited count by one when the vertex was
   * unvisited and leaves it alone otherwise; retiring it twice is retiring it once.
   */
  lemma MarkProcessedCount(ns: seq<Node>, c: nat)
    requires c < |ns|
    ensures MarkProcessed(MarkProcessed(ns, c), c) == MarkProcessed(ns, c)
    ensures UnvisitedCount(MarkProcessed(ns, c), |ns|) == UnvisitedCount(ns, |ns|) - (if ns[c].visited then 0 else 1)
  {
    var r := MarkProcessed(ns, c);
    UnvisitedCountSet(ns, |ns|);
    UnvisitedCountSet(r, |ns|);
    var before := set i | 0 <= i < |ns| && !ns[i].visited;
    var after := set i | 0 <= i < |ns| && !r[i].visited;
    assert after == before - {c};
  }

  /** The vertex the `new_current_found` loop marks among the first `k`: the first unvisited one at distance `m`. */
  function FirstAt(vs: seq<Node>, m: Dist, k: nat): (r: Option<nat>)
    requires k <= |vs|
    ensures r.Some? ==> r.value < k && !vs[r.value].visited && vs[r.value].distance == m
    ensures forall i :: 0 <= i < (if r.Some? then r.value else k) ==> vs[i].visited || vs[i].distance != m
  {
    if k == 0 then None
    else
      match FirstAt(vs, m, k - 1)
      case Some(j) => Some(j)
      case None => if !vs[k - 1].visited && vs[k - 1].distance == m then Some(k - 1) else None
  }

  /** The marking loop: the vertex `FirstAt` names becomes current. */
  function MarkFirst(vs: seq<Node>, m: Dist): (r: seq<Node>)
    ensures |r| == |vs|
    ensures forall i :: 0 <= i < |vs| ==> r[i] == vs[i].(current := r[i].current)
  {
    match FirstAt(vs, m, |vs|)
    case None => vs
    case Some(j) => vs[j := vs[j].(current := true)]
  }

  // ---------------------------------------------------------------- the path

  /** What `create_shortest_path` reads of a vertex. */
  datatype Link = Link(at: Point, distance: Dist, previous: Option<nat>)

  function Links(vs: seq<Node>): (r: seq<Link>)
    ensures |r| == |vs|
    ensures forall i :: 0 <= i < |vs| ==> r[i] == Link(At(vs[i]), vs[i].distance, vs[i].previous)
  {
    seq(|vs|, i requires 0 <= i < |vs| => Link(At(vs[i]), vs[i].distance, vs[i].previous))
  }

  /** The vertices strictly closer to the source than vertex `i`. */
  function Below(ls: seq<Link>, i: nat): set<nat>
    requires i < |ls|
  {
    set k | 0 <= k < |ls| && ls[k].distance.Less(ls[i].distance)
  }

  lemma {:induction false} SubsetSize<T>(a: set<T>, b: set<T>)
    requires a <= b
    ensures |a| <= |b|
    decreases a
  {
    if a != {} {
      var x :| x in a;
      SubsetSize(a - {x}, b - {x});
    }
  }

  lemma ProperSubsetSize<T>(a: set<T>, b: set<T>)
    requires a < b
    ensures |a| < |b|
  {
    assert b - a != {};
    var x :| x in b - a;
    SubsetSize(a, b - {x});
  }

  lemma BelowShrinks(ls: seq<Link>, i: nat, j: nat)
    requires i < |ls| && j < |ls| && ls[j].distance.Less(ls[i].distance)
    ensures Below(ls, j) < Below(ls, i) && |Below(ls, j)| < |Below(ls, i)|
  {
    assert j in Below(ls, i);
    ProperSubsetSize(Below(ls, j), Below(ls, i));
  }

  /**
   * The coordinates `create_shortest_path` appends, walking `previous`
   * from vertex `i`. Each predecessor the search stores is strictly closer
   * to the source (lemma `LinkedDescending`), which is what the walk
   * relies on to end; the walk stops if a link ever failed that.
   */
  function PathFrom(ls: seq<Link>, i: nat): seq<Point>
    requires i < |ls|
    decreases |Below(ls, i)|
  {
    match ls[i].previous
    case None => []
    case Some(j) =>
      if j < |ls| && ls[j].distance.Less(ls[i].distance) then
        BelowShrinks(ls, i, j);
        [ls[j].at] + PathFrom(ls, j)
      else []
  }

  /**
   * The walk passes only through vertices strictly closer to the source than
   * vertex `i`, so it is no longer than the number of those, and a vertex
   * without a predecessor adds nothing.
   */
  lemma {:induction false} PathFromBelow(ls: seq<Link>, i: nat)
    requires i < |ls|
    ensures |PathFrom(ls, i)| <= |Below(ls, i)|
    ensures forall k :: 0 <= k < |PathFrom(ls, i)| ==> exists j :: j in Below(ls, i) && PathFrom(ls, i)[k] == ls[j].at
    ensures ls[i].previous.None? ==> PathFrom(ls, i) == []
    decreases |Below(ls, i)|
  {
    match ls[i].previous
    case None =>
    case Some(j) =>
      if j < |ls| && ls[j].distance.Less(ls[i].distance) {
        BelowShrinks(ls, i, j);
        PathFromBelow(ls, j);
        var p := PathFrom(ls, i);
        assert p == [ls[j].at] + PathFrom(ls, j);
        forall k | 0 <= k < |p| ensures exists j' :: j' in Below(ls, i) && p[k] == ls[j'].at {
          if k == 0 {
            assert j in Below(ls, i);
          } else {
            var j' :| j' in Below(ls, j) && PathFrom(ls, j)[k - 1] == ls[j'].at;
            assert j' in Below(ls, i);
          }
        }
      }
  }

  /** The route from vertex `i`, as line 170 builds it: the vertex's own point, then its predecessors'. */
  function Route(vs: seq<Node>, i: nat): (p: seq<Point>)
    requires i < |vs|
    ensures |p| > 0 && p[0] == At(vs[i])
  {
    [At(vs[i])] + PathFrom(Links(vs), i)
  }

  /** The route's cost: the sum of the edge weights between successive points. */
  function PathCost(p: seq<Point>, edge: nat -> real): real {
    if |p| < 2 then 0.0 else edge(SqDist(p[0], p[1])) + PathCost(p[1..], edge)
  }

  // ---------------------------------------------------------------- one tick

  /**
   * Lines 141-193 for the vertex at `c`: relax its neighbours, retire it, then
   * either store the path and stop, or stop when nothing is unvisited, or
   * make the first unvisited vertex at the smallest distance current.
   */
  function Process(st: State, c: nat, dest: Point, edge: nat -> real): (r: State)
    requires c < |st.vs| == |st.cs|
    ensures |r.vs| == |st.vs| && |r.cs| == |st.cs|
  {
    var vs1 := MarkProcessed(RelaxV(st.vs, st.cs, c, edge), c);
    var cs1 := MarkProcessed(RelaxC(st.vs, st.cs, c, edge), c);
    if At(vs1[c]) == dest then
      State(vs1[c := vs1[c].(path := Some(Route(vs1, c)))], cs1, false, st.notAllVisited)
    else if UnvisitedCount(vs1, |vs1|) == 0 then
      State(vs1, cs1, st.destNotReached, false)
    else
      State(MarkFirst(vs1, Smallest(vs1, |vs1|)), cs1, st.destNotReached, st.notAllVisited)
  }

  /**
   * Processing retires vertex `c` in both lists, and it stays out of the
   * running: it is not current afterwards. Retired entries of the copy stay
   * retired, and no vertex changes its point or whether it is a wall.
   */
  lemma ProcessRetires(st: State, c: nat, dest: Point, edge: nat -> real)
    requires c < |st.vs| == |st.cs|
    ensures var r := Process(st, c, dest, edge);
      && r.vs[c].visited && !r.vs[c].current && r.cs[c].visited && !r.cs[c].current
      && (forall i :: 0 <= i < |st.cs| && st.cs[i].visited ==> r.cs[i].visited)
      && (forall i :: 0 <= i < |st.vs| ==> r.vs[i].wall == st.vs[i].wall && At(r.vs[i]) == At(st.vs[i]))
  {
    RelaxOutcome(st.vs, st.cs, c, edge);
    var vs1 := MarkProcessed(RelaxV(st.vs, st.cs, c, edge), c);
    var r := Process(st, c, dest, edge);
    if At(vs1[c]) != dest && UnvisitedCount(vs1, |vs1|) != 0 {
      assert r.vs == MarkFirst(vs1, Smallest(vs1, |vs1|));
    }
    assert forall i :: 0 <= i < |vs1| ==> r.vs[i] == vs1[i].(current := r.vs[i].current, path := r.vs[i].path);
  }

  /**
   * Processing clears `dest_not_reached` exactly when vertex `c` is at the
   * destination, and then stores there a path that starts at the
   * destination. It clears `not_all_visited` only when every vertex is then
   * visited, and it never sets a flag.
   */
  lemma ProcessFlags(st: State, c: nat, dest: Point, edge: nat -> real)
    requires c < |st.vs| == |st.cs|
    ensures var r := Process(st, c, dest, edge);
      && (r.destNotReached <==> st.destNotReached && At(st.vs[c]) != dest)
      && (At(st.vs[c]) == dest ==> r.vs[c].path.Some? && |r.vs[c].path.value| > 0 && r.vs[c].path.value[0] == dest)
      && (r.notAllVisited ==> st.notAllVisited)
      && (!r.notAllVisited && st.notAllVisited ==> forall i :: 0 <= i < |r.vs| ==> r.vs[i].visited)
  {
    RelaxOutcome(st.vs, st.cs, c, edge);
    var vs1 := MarkProcessed(RelaxV(st.vs, st.cs, c, edge), c);
    assert At(vs1[c]) == At(st.vs[c]);
    if At(vs1[c]) != dest && UnvisitedCount(vs1, |vs1|) == 0 {
      AllVisited(vs1);
    }
  }

  /** One iteration of the `for index, v in enumerate(vertex_list)` loop: process the vertex if it is current. */
  function PassStep(st: State, k: nat, dest: Point, edge: nat -> real): (r: State)
    requires k < |st.vs| == |st.cs|
    ensures |r.vs| == |st.vs| && |r.cs| == |st.cs|
  {
    if st.vs[k].current then Process(st, k, dest, edge) else st
  }

  /** The rest of that loop, from index `k` on. */
  function PassFrom(st: State, k: nat, dest: Point, edge: nat -> real): (r: State)
    requires |st.vs| == |st.cs| && k <= |st.vs|
    ensures |r.vs| == |st.vs| && |r.cs| == |st.cs|
    decreases |st.vs| - k
  {
    if k == |st.vs| then st else PassFrom(PassStep(st, k, dest, edge), k + 1, dest, edge)
  }

  /** A property every iteration of the `enumerate` loop keeps holds after the rest of the loop. */
  lemma {:induction false} PassInduction(st: State, k: nat, dest: Point, edge: nat -> real, P: State -> bool)
    requires |st.vs| == |st.cs| && k <= |st.vs| && P(st)
    requires forall q: State, c: nat :: |q.vs| == |q.cs| && c < |q.vs| && P(q) ==> P(PassStep(q, c, dest, edge))
    ensures P(PassFrom(st, k, dest, edge))
    decreases |st.vs| - k
  {
    if k < |st.vs| {
      PassInduction(PassStep(st, k, dest, edge), k + 1, dest, edge, P);
    }
  }

  /**
   * Over the rest of a pass the two flags are only ever cleared, retired
   * entries of the copy stay retired, and no wall changes.
   */
  lemma PassFlags(st: State, k: nat, dest: Point, edge: nat -> real)
    requires |st.vs| == |st.cs| && k <= |st.vs|
    ensures var r := PassFrom(st, k, dest, edge);
      && (r.destNotReached ==> st.destNotReached) && (r.notAllVisited ==> st.notAllVisited)
      && (forall i :: 0 <= i < |st.cs| && st.cs[i].visited ==> r.cs[i].visited)
      && (forall i :: 0 <= i < |st.vs| ==> r.vs[i].wall == st.vs[i].wall)
  {
    var P := (q: State) =>
      && |q.vs| == |st.vs| && |q.cs| == |st.cs|
      && (q.destNotReached ==> st.destNotReached) && (q.notAllVisited ==> st.notAllVisited)
      && (forall i :: 0 <= i < |st.cs| && st.cs[i].visited ==> q.cs[i].visited)
      && (forall i :: 0 <= i < |st.vs| ==> q.vs[i].wall == st.vs[i].wall);
    forall q: State, c: nat | |q.vs| == |q.cs| && c < |q.vs| && P(q)
      ensures P(PassStep(q, c, dest, edge))
    {
      if q.vs[c].current {
        ProcessRetires(q, c, dest, edge);
        ProcessFlags(q, c, dest, edge);
      }
    }
    PassInduction(st, k, dest, edge, P);
  }

  /** One frame of the algorithm (the body under `countdown > FPS * 3`). */
  function Tick(st: State, dest: Point, edge: nat -> real): (r: State)
    requires |st.vs| == |st.cs|
    ensures |r.vs| == |st.vs| && |r.cs| == |st.cs|
  {
    PassFrom(st, 0, dest, edge)
  }

  /**
   * `trace` follows the `enumerate` loop: every entry but the last becomes
   * the next one by the iteration at its own index.
   */
  ghost predicate Follows(trace: seq<State>, dest: Point, edge: nat -> real)
  {
    forall k {:trigger PassStep(trace[k], k, dest, edge)} ::
      0 <= k < |trace| - 1 && k < |trace[k].vs| == |trace[k].cs| ==> trace[k + 1] == PassStep(trace[k], k, dest, edge)
  }

  /** The states of one frame's loop, from `st` up to the iteration at index `k`. */
  ghost function Trace(st: State, k: nat, dest: Point, edge: nat -> real): (r: seq<State>)
    requires |st.vs| == |st.cs| && k <= |st.vs|
    ensures |r| == k + 1 && r[0] == st
    ensures forall j :: 0 <= j <= k ==> |r[j].vs| == |st.vs| && |r[j].cs| == |st.cs|
    ensures Follows(r, dest, edge)
    decreases k
  {
    if k == 0 then [st]
    else
      var t := Trace(st, k - 1, dest, edge);
      t + [PassStep(t[k - 1], k - 1, dest, edge)]
  }

  /** Every state on a frame's trace heads the rest of that frame's loop. */
  lemma {:induction false} TraceTick(trace: seq<State>, k: nat, dest: Point, edge: nat -> real)
    requires Follows(trace, dest, edge) && k < |trace|
    requires forall j :: 0 <= j < |trace| ==> |trace[j].vs| + 1 == |trace| && |trace[j].cs| + 1 == |trace|
    ensures PassFrom(trace[k], k, dest, edge) == Tick(trace[0], dest, edge)
  {
    if k > 0 {
      TraceTick(trace, k - 1, dest, edge);
      assert trace[k] == PassStep(trace[k - 1], k - 1, dest, edge);
    }
  }

  /** A frame's trace ends in the frame's result. */
  lemma TraceEnd(trace: seq<State>, dest: Point, edge: nat -> real)
    requires Follows(trace, dest, edge) && |trace| > 0
    requires forall j :: 0 <= j < |trace| ==> |trace[j].vs| + 1 == |trace| && |trace[j].cs| + 1 == |trace|
    ensures trace[|trace| - 1] == Tick(trace[0], dest, edge)
  {
    TraceTick(trace, |trace| - 1, dest, edge);
  }

  /** The one effect of `draw()` the search depends on: walls of `vertex_list` become visited. */
  function DrawWalls(vs: seq<Node>): (r: seq<Node>)
    ensures |r| == |vs| && WallsVisited(r)
    ensures forall i :: 0 <= i < |vs| ==>
              r[i] == vs[i].(visited := r[i].visited) && (r[i].visited <==> vs[i].visited || vs[i].wall)
  {
    seq(|vs|, i requires 0 <= i < |vs| => if vs[i].wall then vs[i].(visited := true) else vs[i])
  }

  predicate WallsVisited(vs: seq<Node>) {
    forall i :: 0 <= i < |vs| && vs[i].wall ==> vs[i].visited
  }

  /** The indices of `copy_list` not yet marked visited: the vertices not yet processed. */
  function Unprocessed(cs: seq<Node>): set<nat> {
    set i | 0 <= i < |cs| && !cs[i].visited
  }
}
