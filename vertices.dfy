/**
 * The vertex record of vertex.py: a lattice point with the search flags
 * `current`, `visited`, `wall`, a tentative `distance`, the `previous`
 * back-pointer and the reconstructed `path` stored on the destination.
 * Colour, shape and size only feed the drawing and are not modelled.
 */
module Vertices {
  import opened Wrappers
  import opened Distances
  import opened Decimal

  type Point = (int, int)

  /**
   * The value of a vertex's fields at one moment. `previous` holds the index
   * of the predecessor in the vertex list: every predecessor the program ever
   * stores is an element of that one list.
   */
  datatype Node = Node(x: int, y: int, current: bool, distance: Dist, visited: bool,
                       previous: Option<nat>, path: Option<seq<Point>>, wall: bool)

  /** A vertex as `Vertex(x, y)` builds it, with the keyword defaults of `__init__`. */
  function Initial(p: Point): Node {
    Node(p.0, p.1, false, Inf, false, None, None, false)
  }

  /** The squared Euclidean distance; `calc_distance` is its square root. */
  function SqDist(p: Point, q: Point): nat {
    Square(p.0 - q.0) + Square(p.1 - q.1)
  }

  function Square(a: int): (r: nat)
    ensures r == 0 <==> a == 0
  {
    if a == 0 then 0 else
      assert a * a > 0 by { if a < 0 { assert (-a) * (-a) == a * a; } }
      a * a
  }

  /** `calc_distance` does not depend on which vertex it is called on. */
  lemma SqDistSymmetric(p: Point, q: Point)
    ensures SqDist(p, q) == SqDist(q, p)
  {
    assert Square(p.0 - q.0) == Square(q.0 - p.0) by { assert (p.0 - q.0) * (p.0 - q.0) == (q.0 - p.0) * (q.0 - p.0); }
    assert Square(p.1 - q.1) == Square(q.1 - p.1) by { assert (p.1 - q.1) * (p.1 - q.1) == (q.1 - p.1) * (q.1 - p.1); }
  }

  /** `calc_distance` is zero exactly for equal coordinates. */
  lemma SqDistZero(p: Point, q: Point)
    ensures SqDist(p, q) == 0 <==> p == q
  {
  }

  /** `__str__`: `"|x|\n|y|\n"`. */
  function Format(p: Point): (s: string)
    ensures |s| > 7 && s[0] == '|' && s[|s| - 2..] == "|\n"
  {
    var a, b := IntToString(p.0), IntToString(p.1);
    var s := "|" + a + "|\n|" + b + "|\n";
    assert s == ("|" + a + "|\n|" + b) + "|\n";
    s
  }

  /** The index of the first `'|'` in `t`, or `|t|` when there is none. */
  function FirstBar(t: string): (i: nat)
    ensures i <= |t|
    ensures forall k :: 0 <= k < i ==> t[k] != '|'
    ensures i < |t| ==> t[i] == '|'
  {
    if t == [] || t[0] == '|' then 0 else 1 + FirstBar(t[1..])
  }

  /** Reads the two coordinates back from the text `Format` produces; `None` for any other text. */
  function ParseFormat(s: string): Option<Point> {
    if |s| == 0 || s[0] != '|' then None
    else
      var t := s[1..];
      var i := FirstBar(t);
      if i + 3 > |t| || t[i..i + 3] != "|\n|" || !IsNumeral(t[..i]) then None
      else
        var u := t[i + 3..];
        var j := FirstBar(u);
        if u[j..] != "|\n" || !IsNumeral(u[..j]) then None
        else Some((ParseInt(t[..i]), ParseInt(u[..j])))
  }

  lemma FirstBarAfterNumeral(a: string, rest: string)
    requires IsNumeral(a)
    ensures FirstBar(a + "|" + rest) == |a|
  {
    var t := a + "|" + rest;
    assert t[|a|] == '|';
    forall k | 0 <= k < |a| ensures t[k] != '|' {
      assert t[k] == a[k];
    }
  }

  /** `__str__` loses nothing: the coordinates can be read back from it. */
  lemma {:induction false} FormatRoundTrip(p: Point)
    ensures ParseFormat(Format(p)) == Some(p)
  {
    var a, b := IntToString(p.0), IntToString(p.1);
    var s := Format(p);
    var t := s[1..];
    assert t == a + "|" + ("\n|" + b + "|\n");
    FirstBarAfterNumeral(a, "\n|" + b + "|\n");
    assert t[..|a|] == a;
    assert t == a + "|\n|" + (b + "|\n");
    assert t[|a|..|a| + 3] == "|\n|";
    var u := t[|a| + 3..];
    assert u == b + "|" + "\n";
    FirstBarAfterNumeral(b, "\n");
    assert u[..|b|] == b;
    assert u[|b|..] == "|\n";
    IntRoundTrip(p.0);
    IntRoundTrip(p.1);
  }

  class Vertex {
    var x: int
    var y: int
    var current: bool
    var distance: Dist
    var visited: bool
    var previous: Option<nat>
    var path: Option<seq<Point>>
    var wall: bool

    /** `Vertex(x, y)`: not current, distance infinite, unvisited, no previous, no path, not a wall. */
    constructor (x: int, y: int)
      ensures Snapshot() == Initial((x, y))
    {
      this.x, this.y := x, y;
      current, distance, visited := false, Inf, false;
      previous, path, wall := None, None, false;
    }

    function Snapshot(): Node
      reads this
    {
      Node(x, y, current, distance, visited, previous, path, wall)
    }

    /** `return_coordinates`: the pair `(x, y)`. */
    function ReturnCoordinates(): (p: Point)
      reads this
      ensures p.0 == x && p.1 == y
    {
      (x, y)
    }

    /** `__str__`: the text `Format` gives, from which both coordinates can be read back. */
    function Str(): (s: string)
      reads this
      ensures s == Format((x, y))
      ensures ParseFormat(s) == Some((x, y))
    {
      FormatRoundTrip((x, y));
      Format((x, y))
    }

    /**
     * `__add__`: adds the other vertex's coordinates into this one and
     * returns the new pair. When `other` is this very vertex both
     * coordinates double.
     */
    method Add(other: Vertex) returns (p: Point)
      modifies this`x, this`y
      ensures x == old(x) + old(other.x) && y == old(y) + old(other.y)
      ensures p == (x, y)
      ensures other != this ==> other.x == old(other.x) && other.y == old(other.y)
    {
      x := x + other.x;
      y := y + other.y;
      p := (x, y);
    }

    /** `__sub__`: subtracts the other vertex's coordinates from this one, in place. */
    method Sub(other: Vertex) returns (p: Point)
      modifies this`x, this`y
      ensures x == old(x) - old(other.x) && y == old(y) - old(other.y)
      ensures p == (x, y)
      ensures other != this ==> other.x == old(other.x) && other.y == old(other.y)
    {
      x := x - other.x;
      y := y - other.y;
      p := (x, y);
    }

    /**
     * `calc_distance`, squared: the same from either end, and zero exactly
     * when the two vertices have the same coordinates.
     */
    function CalcDistance(other: Vertex): (d: nat)
      reads this, other
      ensures d == SqDist((other.x, other.y), (x, y))
      ensures d == 0 <==> x == other.x && y == other.y
    {
      SqDistSymmetric((x, y), (other.x, other.y));
      SqDist((x, y), (other.x, other.y))
    }
  }

  /** `v + o` followed by `v - o` restores `v`'s coordinates when `o` is another vertex. */
  method AddThenSub(v: Vertex, o: Vertex) returns (p: Point)
    requires v != o
    modifies v`x, v`y
    ensures p == (old(v.x), old(v.y)) && v.x == old(v.x) && v.y == old(v.y)
  {
    var _ := v.Add(o);
    p := v.Sub(o);
  }

  /** With `o` the same object as `v`, `v + v` then `v - v` leaves the origin instead. */
  method AddThenSubSelf(v: Vertex) returns (p: Point)
    modifies v`x, v`y
    ensures p == (0, 0) && v.x == 0 && v.y == 0
  {
    var _ := v.Add(v);
    p := v.Sub(v);
  }
}
