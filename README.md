# Pathfinding visualizer: a verified model of its Dijkstra search

The program lays out a lattice of vertices in an 800 x 600 window. It picks
a random source and destination and turns some vertices into walls. It then
runs Dijkstra's algorithm one frame at a time and, once the destination is
processed, stores the path back to the source on the destination vertex,
following the `previous` links.

This project models that logic in Dafny without the drawing:

- the `Vertex` record of `vertex.py`;
- lattice generation, endpoint selection, wall generation and making the
  source current;
- the part of `draw()` the search depends on: walls are marked visited
  before every frame;
- the search loop over the two parallel lists `vertex_list` and `copy_list`;
- path reconstruction.

The modules are:

- `Wrappers`, `Distances`, `Decimal`: the option type, tentative distances
  (`Fin(r)` or `Inf`, with `inf + w == inf` and `inf == inf`), and the
  integer text rendering used by `__str__`.
- `Vertices`: the `Vertex` class with its fields updated in place, and the
  `Node` datatype that is the value of those fields at one moment.
- `Lattice`: `range(lo, hi, 20)` and the x-major grid. For the window the
  bounds are x in `[80, 740)` and y in `[60, 560)`, which gives 33 x 25 = 825
  points.
- `SearchSpec`: every loop and statement block of `main.py` as a function
  on values. A `State` holds both lists and the two loop flags.
- `SearchInvariant`: the invariant of the search, the lemmas that every step
  keeps it, and the facts about the stored path.
- `SearchOptimal`: the search finds shortest routes. A route is a walk from
  the source that never enters a wall and steps only between neighbours.
  Every processed or current vertex is no farther than any route to it,
  which is the classical argument for Dijkstra's algorithm with positive
  weights, here with the tie-break of line 191 and the walls that `draw()`
  marks visited.
- `Pathfinder`: `main.py` as it runs. The vertices are objects and each loop
  is a method. Each method is proved to compute the `SearchSpec` function
  for its loop. Class `Search` holds the lists, the endpoints and the flags,
  and carries the same state as a ghost value `model`.

Modelling choices:

- `previous` holds the index of the predecessor in `vertex_list`, not an
  object reference. Every predecessor the program stores is an element of
  that list, and the list never changes shape.
- `calc_distance` is `math.sqrt` of the squared distance. The square root is
  kept as an abstract weight `edge`, a strictly positive function of the
  squared distance.
- The neighbour test `0 < calc_distance < 1.5 * SQUARE_SIZE` is the integer
  test `0 < dx^2 + dy^2 < 900`.
- The random draws are parameters:
  - the index of the source;
  - the index of the destination in the list left after the source is
    popped;
  - a stream of wall draws, one for each vertex that is neither endpoint.
- `copy.deepcopy` is a new list of new objects with the same field values.
  The copy is taken before walls are drawn, so walls are not visited in
  `copy_list`, and they can still receive a distance and a `previous`
  at lines 152 and 156. The source's entry in `copy_list` keeps an
  infinite distance.
- The countdown of `main()` is kept: the search ticks from the 25th frame
  on (`countdown > FPS * 3` after the increment).
- The constructor of `Pathfinder.Search` takes the bounds of the lattice as
  parameters. The 800 x 600 window's bounds are `Lattice.XLow`, `XHigh`,
  `YLow` and `YHigh`, and `Lattice.ScreenSize` states what they give.
- Each loop of one frame is followed through a ghost trace of states
  (`SearchSpec.Trace`): `Pathfinder.Search.Visit` moves the objects one
  entry along it, and `SearchSpec.TraceEnd` says that its last entry is the
  frame's result.

## Where the code and its comments differ

The comment at `main.py:119` says the loop ends when the destination is
reached or when all vertices have been visited because the destination is
unreachable. The second exit, lines 182-184 with its "Destination
unreachable" message, is never taken, and the model follows the code.

- The destination is never a wall. It stays unvisited until it is processed.
- So `unvisited_count` is never 0 at line 182, and `not_all_visited` is
  never cleared.
- Since `inf == inf` at line 191, the first unvisited vertex at infinite
  distance is made current once every finite one has been processed.
- An unreachable destination is therefore made current and processed in
  the end. The search stops with "Destination reached!" and the path
  `[dest]`.

`SearchInvariant.RunFrom` and `Pathfinder.Search.Run` state this outcome:
every run ends with the destination reached and `not_all_visited` still
true. `SearchOptimal.ReachedShortest` says that the destination's distance
is then no larger than the cost of any route to it, so an infinite distance
means that no route exists. `SearchInvariant.ReachedRoute` says that the
path stored in that case is the destination alone.

## Model

| member | source | states |
|---|---|---|
| Vertices.Vertex.constructor | vertex.py:22-34 | a new vertex has the given coordinates, is not current, has infinite distance, is unvisited, has no previous, no path and is not a wall |
| Vertices.Vertex.ReturnCoordinates | vertex.py:36-37 | the result is the pair `(x, y)`; as a function it changes nothing |
| Vertices.Vertex.Str | vertex.py:39-40 | the text is a bar, x, a bar, a newline, a bar, y, a bar and a newline, and both coordinates can be read back from it |
| Vertices.Format | vertex.py:39-40 | the text opens with a bar, ends with a bar and a newline, and is at least eight characters long |
| Vertices.FormatRoundTrip | vertex.py:39-40 | parsing the rendered text of a point gives the point back |
| Decimal.ParseNatToString | vertex.py:40 | the decimal digits of a natural number read back as that number |
| Decimal.IntToString | vertex.py:40 | the rendering is a non-empty numeral: digits, with a minus sign only in front |
| Decimal.IntRoundTrip | vertex.py:40 | the decimal rendering of any integer, minus sign included, reads back as that integer |
| Vertices.Vertex.Add | vertex.py:42-45 | `self` gains `other`'s coordinates in place, the new pair is returned, and a distinct `other` is unchanged |
| Vertices.Vertex.Sub | vertex.py:47-50 | `self` loses `other`'s coordinates in place, the new pair is returned, and a distinct `other` is unchanged |
| Vertices.AddThenSub | vertex.py:42-50 | `v + o` followed by `v - o` with a distinct `o` restores `v`'s coordinates |
| Vertices.AddThenSubSelf | vertex.py:42-50 | with `o` the same object as `v`, `v + v` then `v - v` leaves `v` at the origin |
| Vertices.Vertex.CalcDistance | vertex.py:52-53 | the squared distance is the same from either vertex and is zero exactly when the coordinates are equal |
| Vertices.SqDistSymmetric | vertex.py:52-53 | the squared distance is symmetric |
| Vertices.SqDistZero | vertex.py:52-53 | the squared distance is zero exactly for equal points |
| Distances.PlusPositive | main.py:149 | adding a positive weight to a finite distance gives a strictly larger finite distance |
| Lattice.RangeShape | main.py:39-40 | element k of `range(lo, hi, 20)` is `lo + 20k`, and the range stops at the first such value not below `hi` |
| Lattice.RangeMember | main.py:39-40 | a value is in the range exactly when it lies in `[lo, hi)` on the 20-step from `lo` |
| Lattice.RangeIncreasing | main.py:39-40 | the range is strictly increasing |
| Lattice.Points | main.py:38-42 | the list has one point for each pair of an x and a y |
| Lattice.PointsAt | main.py:38-42 | point number `i * rows + j` is `(xs[i], ys[j])`: x outer, y inner |
| Lattice.PointsMember | main.py:38-42 | a point occurs exactly when its x is in the x range and its y in the y range |
| Lattice.PointsDistinct | main.py:38-42 | repetition-free axes give repetition-free points |
| Lattice.GridDistinct | main.py:36-42 | no lattice point occurs twice |
| Lattice.ScreenSize | main.py:96 | the 800 x 600 window gives 825 = 33 x 25 points, none twice |
| Lattice.ScreenOrder | main.py:39-41 | point `i * 25 + j` of the window is `(80 + 20i, 60 + 20j)` |
| Lattice.ScreenMember | main.py:39-41 | a point is in the window's lattice exactly when it lies within the bounds on the 20-step |
| SearchSpec.InitialNodes | main.py:36-42 | one snapshot per lattice point, in order, at that point, with the defaults of `Vertex(x, y)` |
| Pathfinder.AddColumn | main.py:40-41 | the inner loop appends one new vertex for each y of the column, in order, as `Vertex(x, y)` builds it |
| Pathfinder.GenerateVertices | main.py:36-42 | the list holds distinct new vertices, one per lattice point in x-major order, each with the constructor's defaults |
| Pathfinder.DeepCopy | main.py:98 | the copy is new objects, sharing none with the original, that hold the same field values |
| SearchSpec.PopAt | main.py:105-107 | element k of the list with entry i popped is the original element at `SkipIndex(i, k)`, which is not i |
| SearchSpec.EndpointsDiffer | main.py:102-110 | with unique lattice coordinates, the destination drawn after popping the source differs from the source |
| Pathfinder.PickEndpoints | main.py:100-110 | the source is the drawn index of the locator list, the destination is the drawn index once it is popped, and the two differ when coordinates are unique |
| SearchSpec.GenerateWalls | main.py:45-51 | only `wall` changes, it is only ever set, the endpoints keep theirs, and a vertex becomes a wall exactly when it is neither endpoint and its draw is 0 |
| SearchSpec.DrawsIncrease | main.py:47-49 | later vertices that are not endpoints take later draws, so each draw decides exactly one vertex |
| Pathfinder.GenerateWalls | main.py:45-51 | the loop leaves the vertices as `SearchSpec.GenerateWalls` of their old values |
| SearchSpec.SetSrcToCurrent | main.py:54-59 | the list keeps its length and every vertex keeps its coordinates |
| SearchSpec.SourceIsCurrent | main.py:54-59 | with unique coordinates, the vertex at the source becomes current at distance 0 and every other vertex is unchanged |
| Pathfinder.SetSrcToCurrent | main.py:54-59 | the loop leaves the vertices as `SearchSpec.SetSrcToCurrent` of their old values |
| SearchSpec.SetupState | main.py:96-114 | the source is the drawn point and the destination a lattice point; the copy is the fresh lattice; both flags are set; the source is the one current vertex, at distance 0, every other vertex is at `inf`, nothing is visited or linked, and no wall is an endpoint |
| Pathfinder.Setup | main.py:96-114 | the two lists are separate new objects and hold the setup state, with the drawn endpoints |
| SearchInvariant.SetupEstablishes | main.py:96-114 | the setup state satisfies the search invariant, the source is the only current vertex, and the endpoints sit at their indices |
| Pathfinder.Search.constructor | main.py:96-121 | the object holds the initial state of `main()` for the lattice between the given bounds, satisfies its invariant, and every processed or current vertex is no farther than any route to it |
| Pathfinder.DrawWalls | main.py:82-83 | the loop marks exactly the walls visited |
| SearchSpec.DrawWalls | main.py:82-83 | only `visited` changes; a vertex is visited afterwards exactly when it was visited or is a wall, so every wall is visited |
| SearchInvariant.DrawPreserves | main.py:82-83 | marking walls visited keeps the invariant, leaves the copy alone, changes only `visited`, and leaves every wall visited |
| Pathfinder.Search.Draw | main.py:135 | the frame's `draw()` marks the walls visited and keeps the object's invariant |
| Pathfinder.Improve | main.py:152-156 | the neighbour takes the new distance and the current vertex as `previous` |
| Pathfinder.RelaxAt | main.py:143-156 | one iteration of the inner loop gives both entries `i` what the whole loop gives them, and leaves the current vertex alone |
| SearchSpec.RelaxOutcome | main.py:143-156 | an entry changes exactly when it is an unvisited neighbour whose distance the current vertex improves: both lists then take the same, strictly lower distance and `vertex_list` takes the current vertex as `previous`; no other field changes, no distance rises, and the current vertex itself is unchanged |
| Pathfinder.Search.RelaxNeighbours | main.py:143-156 | the inner loop leaves both lists as `RelaxV` and `RelaxC` of their old values |
| SearchInvariant.RelaxEffects | main.py:143-156 | relaxation changes only distances and predecessors; a changed vertex is an unvisited neighbour, its distance falls strictly and is the same in both lists, and its `previous` is the current vertex |
| SearchSpec.MarkProcessedCount | main.py:158-162 | retiring an unvisited vertex lowers the number of unvisited vertices by exactly one, and retiring twice is retiring once |
| Pathfinder.Retire | main.py:158-162 | the vertex and its copy become visited and not current, nothing else changes |
| Pathfinder.Search.RetireAt | main.py:158-162 | exactly the entry of the current vertex becomes visited and not current, in both lists |
| Pathfinder.Search.RelaxAndRetire | main.py:141-162 | the lists become the relaxed and retired state `Retired` of the old ones |
| SearchInvariant.RetiredFacts | main.py:141-162 | after relaxing and retiring, the lists keep their shape, agreement and links, nothing is current, and exactly the current vertex has left the unprocessed set |
| Pathfinder.Search.SmallestUnvisited | main.py:174-180 | the results are the least distance among unvisited vertices (infinite when there is none) and how many are unvisited; the count is positive exactly when some vertex is unvisited, and then some unvisited vertex has the least distance |
| SearchSpec.UnvisitedCountSet | main.py:175-178 | `unvisited_count` is the number of unvisited vertices |
| SearchSpec.AllVisited | main.py:182-183 | a count of 0 means that every vertex is visited |
| SearchInvariant.SmallestFacts | main.py:174-180 | `smallest_dist` is no larger than any unvisited distance and, when some vertex is unvisited, is the distance of one of them |
| SearchInvariant.NothingUnvisited | main.py:175-183 | `unvisited_count` is 0 exactly when every vertex is visited |
| SearchSpec.FirstAt | main.py:188-193 | the chosen index is unvisited at the given distance, and no unvisited vertex before it has that distance |
| SearchSpec.MarkFirst | main.py:188-193 | only `current` can change |
| Pathfinder.Search.MarkFirstCurrent | main.py:188-193 | the loop makes current exactly the first unvisited vertex at distance `smallest` |
| SearchInvariant.SelectFirstMin | main.py:174-193 | when some vertex is unvisited, one is marked: it is unvisited, no unvisited distance is below its own (even when that is infinite), and no earlier unvisited vertex ties with it |
| Pathfinder.Search.SelectNext | main.py:174-193 | either the first unvisited vertex at the least distance becomes current, or, when none is unvisited, `not_all_visited` is cleared |
| SearchInvariant.SelectKeeps | main.py:174-193 | when the destination is still unvisited, some vertex is unvisited and marking the next current vertex restores the invariant |
| SearchInvariant.MarkKeeps | main.py:188-193 | making an unvisited vertex that is not a wall current restores the invariant, so walls are never chosen |
| SearchInvariant.AtDest | main.py:167 | the only vertex at the destination's point is the destination |
| SearchInvariant.ReachedKeeps | main.py:167-171 | storing the path and clearing `dest_not_reached` keeps the invariant |
| SearchInvariant.ProcessFrame | main.py:164-193 | after retiring, the three branches change only `path`, `current` and the flags, and leave the copy alone |
| SearchInvariant.ProcessPreserves | main.py:141-193 | processing the current vertex keeps the invariant, and walls stay visited |
| SearchSpec.ProcessRetires | main.py:141-193 | processing leaves the vertex visited and not current in both lists, keeps retired copies retired, and changes no point and no wall |
| SearchSpec.ProcessFlags | main.py:164-193 | `dest_not_reached` is cleared exactly when the vertex is at the destination, and a path starting at the destination is then stored; `not_all_visited` is cleared only when every vertex is visited; no flag is ever set |
| SearchInvariant.ProcessEffects | main.py:141-193 | processing retires exactly the current vertex in both lists, changes no wall, and only lowers distances, each lowered one then pointing at the processed vertex |
| Pathfinder.Search.ProcessAt | main.py:141-193 | the objects end as `SearchSpec.Process` of the state they held |
| Pathfinder.Search.ProcessVertex | main.py:141-193 | the state becomes `SearchSpec.Process` of the old one, and the invariant and the visited walls are kept |
| SearchSpec.PassInduction | main.py:140-141 | a property that every iteration of the `enumerate` loop keeps holds after the rest of the loop |
| SearchSpec.PassFlags | main.py:140-193 | over the rest of a pass the flags are only ever cleared, retired copies stay retired and no wall changes |
| SearchSpec.Trace | main.py:140-141 | the trace starts at the given state, has one entry per iteration and one more, and each entry is the one before it after that iteration |
| SearchSpec.TraceTick | main.py:140-193 | every entry of a frame's trace leads, through the rest of the loop, to the frame's result |
| SearchSpec.TraceEnd | main.py:140-193 | the last entry of a frame's trace is the frame's result |
| SearchInvariant.PassBefore | main.py:140-141 | the indices before the current vertex change nothing, as only one vertex is current |
| SearchInvariant.PassStepKeeps | main.py:140-141 | one loop iteration keeps the invariant and never raises a distance, changes a wall or un-retires a vertex |
| SearchInvariant.PassPreserves | main.py:140-193 | the rest of a pass keeps the invariant and never raises a distance, changes a wall or un-retires a vertex |
| SearchInvariant.TickPreserves | main.py:140-193 | a whole pass keeps the invariant |
| SearchInvariant.TickReaches | main.py:140-162 | the pass reaches the current vertex unchanged and retires it there |
| SearchInvariant.TickRetires | main.py:140-162 | a pass retires at least the vertex that was current at its start |
| SearchInvariant.TickProgress | main.py:134-162 | while the destination is not reached, each pass strictly shrinks the set of unprocessed vertices |
| SearchInvariant.TickIdle | main.py:140-141 | once the destination is reached nothing is current, so a further pass changes nothing |
| SearchInvariant.PassIdle | main.py:140-141 | with nothing current, the rest of a pass changes nothing |
| Pathfinder.Search.Visit | main.py:140-141 | one iteration moves the objects from one entry of the frame's trace to the next, processing the vertex exactly when it is current, and keeps the invariant |
| Pathfinder.Search.Tick | main.py:140-193 | the pass leaves the state as `SearchSpec.Tick` of the old one and keeps the invariant |
| SearchInvariant.Frame | main.py:134-139 | one frame keeps the invariant, never adds an unprocessed vertex and, past the delay and before the destination is reached, removes one |
| Pathfinder.Search.NextFrame | main.py:134-139 | the frame's draw and, past the countdown, its pass leave the state as `Frame` of the old one |
| SearchInvariant.RunFrom | main.py:134-193 | the loop ends, with the invariant, the destination reached and `not_all_visited` still true |
| Pathfinder.Search.Run | main.py:134-193 | the `while` loop ends, with the invariant, the destination reached and `not_all_visited` still true; the destination has a path and its distance is no larger than the cost of any route to it |
| SearchSpec.BelowShrinks | main.py:64-66 | a predecessor strictly closer to the source has strictly fewer vertices below it, so the walk ends |
| SearchInvariant.LinkedDescending | main.py:62-67 | every stored predecessor is strictly closer to the source than the vertex that points at it |
| Pathfinder.CreateShortestPath | main.py:62-67 | the recursion appends exactly the coordinates of the successive predecessors to `path` |
| SearchSpec.PathFromBelow | main.py:62-67 | the walk passes only through vertices strictly closer to the source, so it is no longer than the number of those, and a vertex without a predecessor adds nothing |
| SearchSpec.Route | main.py:170 | the route starts at the vertex's own point |
| SearchInvariant.RouteFacts | main.py:62-67 | the route steps between neighbours through retired vertices; a finite vertex's route ends at the source and its weights sum to the vertex's distance; an infinite one's route is the vertex alone |
| Pathfinder.Search.StorePath | main.py:170-171 | the destination stores its route and `dest_not_reached` is cleared, nothing else changes |
| SearchInvariant.ReachedRoute | main.py:167-171 | once the search stops, the destination holds a route from itself through neighbours, none at a wall, ending at the source with the weights summing to its distance, or the destination alone when that distance is infinite |
| SearchOptimal.WalkFrame | main.py:82-83 | whether a sequence of indices is a route depends only on the walls |
| SearchOptimal.WalkPrefix | main.py:143-147 | a route cut after its first steps is a route |
| SearchOptimal.WalkCostPrefix | main.py:149 | with positive weights, a route costs at least as much as any of its prefixes |
| SearchOptimal.Crossing | main.py:158-159 | a route from a processed vertex to an unprocessed one has a step from a processed vertex to an unprocessed one |
| SearchOptimal.WithinBelow | main.py:151 | a distance no larger than one within a bound is within it too |
| SearchOptimal.OptimalFrame | main.py:164-193 | a change that keeps the copy, distances, points and walls, makes nothing newly current and marks only walls visited keeps the shortest-route property |
| SearchOptimal.MarkOptimal | main.py:188-193 | making current an unvisited vertex that is no farther than any route to it keeps the property |
| SearchOptimal.RetireOptimal | main.py:141-162 | relaxing and retiring the current vertex keeps every processed or current vertex no farther than any route to it |
| SearchOptimal.RetireFrontier | main.py:141-162 | after relaxing and retiring, no unprocessed vertex that is not a wall is farther than through a processed neighbour, and only processed vertices and walls are visited |
| SearchOptimal.SelectOptimal | main.py:174-193 | an unvisited vertex at the least unvisited distance is no farther than any route to it |
| SearchOptimal.ProcessOptimal | main.py:141-193 | processing the current vertex keeps the shortest-route property |
| SearchOptimal.PassStepOptimal | main.py:140-141 | one iteration of the `enumerate` loop keeps it |
| SearchOptimal.PassOptimal | main.py:140-193 | the rest of a pass keeps it |
| SearchOptimal.DrawOptimal | main.py:82-83 | marking walls visited keeps it |
| SearchOptimal.FrameOptimal | main.py:134-139 | one frame keeps it |
| SearchOptimal.RunOptimal | main.py:134-193 | the whole loop keeps it |
| SearchOptimal.SetupOptimal | main.py:96-114 | it holds after the setup, where only the source is current and at distance 0 |
| SearchOptimal.ReachedShortest | main.py:167-171 | once the destination is reached, its distance is no larger than the cost of any route to it, so an infinite distance means there is none, and a finite one is the cost of the stored path, which is no more than that of any route |
| SearchOptimal.RunShortest | main.py:134-193 | from a state with the property, such as the setup's, the loop ends with a stored path that is a shortest route, or with an infinite distance and no route |

## Left out

- pygame is not modelled: initialisation, the window, the caption, event polling and `clock.tick`. The outer `while run` loop is not modelled either, since it only redraws once the search has ended.
- Rendering is not modelled: `SCREEN.fill`, `draw_vertex`, the path lines, and colour, shape and size. Only the wall-to-visited step of `draw()` affects the search.
- The `print` calls are output only and are not modelled.
- The `random` module is not modelled. Its draws are parameters: the source index, the destination index and the stream of wall draws.
- Floating point is not modelled. `math.sqrt` is an abstract positive weight of the squared distance, and `math.inf` is `Inf`. The `0.1` and `0.9` factors are the integer bounds they evaluate to for the 800 x 600 window. Distances are exact reals, so the `<` at line 151 and the `==` at line 191 can come out differently from the program's rounded sums; that can change which `previous` is stored and which tied vertex is made current. `SearchSpec.PathCost` and `SearchOptimal.WalkCost` add the weights in their own order (the first from the destination end, the second from the source, as the program does), which is the same sum on reals but not always on floats.
- `copy.deepcopy` is modelled only by its result: new objects with the same field values. The locator list is modelled by the coordinates of its entries, the only thing that is read from it.
- The keyword overrides of `Vertex.__init__` are not modelled: every vertex the program builds uses the defaults.
- Vertices.Vertex.CalcDistance: returns the squared distance, not its square root. The search uses it only through the neighbour test, which is exact on squares, and through `edge`.
- Pathfinder.Search.Run: is proved to end with the invariant, the destination reached and no route shorter than its distance. It is not proved equal to `SearchInvariant.RunFrom`. `Pathfinder.Search.NextFrame` ties each iteration to `SearchInvariant.Frame`.
