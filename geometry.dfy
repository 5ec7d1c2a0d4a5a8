/**
 * Land containment for the globe's halftone dots (src/components/Globe.tsx):
 * the ray-casting point-in-ring test, containment in a GeoJSON Polygon or
 * MultiPolygon, and the bounding-box grid that keeps only the contained points.
 * Coordinates are exact reals; the bounding box is an input.
 */
module Geometry {
  import opened Wrappers

  /** A GeoJSON position: longitude is x, latitude is y. */
  datatype Point = Point(lng: real, lat: real)

  /** A linear ring, as in GeoJSON (it may or may not repeat its first vertex at the end). */
  type Ring = seq<Point>

  /** The geometry of a land feature: rings[0] is the outer ring, the others are holes. */
  datatype Geometry =
    | Polygon(rings: seq<Ring>)
    | MultiPolygon(parts: seq<seq<Ring>>)
    | Other

  // ---------------------------------------------------------------------------
  // Point in ring
  // ---------------------------------------------------------------------------

  /** The vertex that vertex i is paired with: its predecessor, and the last vertex for the first. */
  function Pred(n: nat, i: nat): (j: nat)
    requires i < n
    ensures j < n
  {
    if i == 0 then n - 1 else i - 1
  }

  /**
   * The edge from a to b straddles the latitude of p, and the eastward ray from p
   * meets it strictly east of p. The division is only evaluated once the straddle
   * test holds, so its divisor is never zero.
   */
  predicate Crosses(p: Point, a: Point, b: Point)
  {
    (a.lat > p.lat) != (b.lat > p.lat) &&
    p.lng < (b.lng - a.lng) * (p.lat - a.lat) / (b.lat - a.lat) + a.lng
  }

  /** Edge i of the ring joins vertex i to its predecessor. */
  predicate EdgeCrosses(p: Point, ring: Ring, i: nat)
    requires i < |ring|
  {
    Crosses(p, ring[i], ring[Pred(|ring|, i)])
  }

  /** How many of the edges 0..k-1 of the ring the eastward ray from p crosses. */
  function Crossings(p: Point, ring: Ring, k: nat): (c: nat)
    requires k <= |ring|
    ensures c <= k
  {
    if k == 0 then 0
    else Crossings(p, ring, k - 1) + (if EdgeCrosses(p, ring, k - 1) then 1 else 0)
  }

  /** The ray-casting verdict: an odd number of crossings. */
  predicate InRing(p: Point, ring: Ring)
  {
    Crossings(p, ring, |ring|) % 2 == 1
  }

  /** The indices of the crossed edges among the first k. */
  ghost function CrossedEdges(p: Point, ring: Ring, k: nat): set<nat>
    requires k <= |ring|
  {
    set i: nat | i < k && EdgeCrosses(p, ring, i)
  }

  /** The running count is the number of crossed edges among the first k. */
  lemma {:induction false} CrossingsCountsCrossedEdges(p: Point, ring: Ring, k: nat)
    requires k <= |ring|
    ensures Crossings(p, ring, k) == |CrossedEdges(p, ring, k)|
  {
    if k == 0 {
      assert CrossedEdges(p, ring, 0) == {};
    } else {
      CrossingsCountsCrossedEdges(p, ring, k - 1);
      var before := CrossedEdges(p, ring, k - 1);
      if EdgeCrosses(p, ring, k - 1) {
        assert CrossedEdges(p, ring, k) == before + {k - 1};
        assert k - 1 !in before;
      } else {
        assert CrossedEdges(p, ring, k) == before;
      }
    }
  }

  /** pointInPolygon: toggle `inside` once per crossed edge, pairing vertex i with vertex j = i - 1. */
  method PointInPolygon(p: Point, ring: Ring) returns (inside: bool)
    ensures inside <==> |CrossedEdges(p, ring, |ring|)| % 2 == 1
    ensures inside == InRing(p, ring)
  {
    inside := false;
    var i, j := 0, |ring| - 1;
    while i < |ring|
      invariant 0 <= i <= |ring|
      invariant j == if i == 0 then |ring| - 1 else i - 1
      invariant inside == (Crossings(p, ring, i) % 2 == 1)
    {
      if Crosses(p, ring[i], ring[j]) {
        inside := !inside;
      }
      j, i := i, i + 1;
    }
    CrossingsCountsCrossedEdges(p, ring, |ring|);
  }

  /** A horizontal edge never counts as a crossing. */
  lemma HorizontalEdgeNeverCrosses(p: Point, a: Point, b: Point)
    requires a.lat == b.lat
    ensures !Crosses(p, a, b)
  {
  }

  /** The ring with its first vertex moved to the end. */
  function RotateRing(ring: Ring): (r: Ring)
    requires |ring| > 0
    ensures |r| == |ring| && multiset(r) == multiset(ring)
  {
    assert ring == [ring[0]] + ring[1..];
    ring[1..] + [ring[0]]
  }

  /** Edge i of the rotated ring is edge i + 1 of the ring (wrapping round). */
  lemma RotatedEdge(p: Point, ring: Ring, i: nat)
    requires i < |ring|
    ensures EdgeCrosses(p, RotateRing(ring), i) == EdgeCrosses(p, ring, (i + 1) % |ring|)
  {
    var n := |ring|;
    var r := RotateRing(ring);
    if i + 1 < n {
      assert (i + 1) % n == i + 1;
      assert r[i] == ring[i + 1];
      assert r[Pred(n, i)] == ring[Pred(n, i + 1)];
    } else {
      assert (i + 1) % n == 0;
      assert r[i] == ring[0];
      assert r[Pred(n, i)] == ring[Pred(n, 0)];
    }
  }

  lemma {:induction false} RotatedCrossingsPrefix(p: Point, ring: Ring, k: nat)
    requires 0 < |ring| && k < |ring|
    ensures Crossings(p, RotateRing(ring), k) + Crossings(p, ring, 1) == Crossings(p, ring, k + 1)
  {
    if k > 0 {
      RotatedCrossingsPrefix(p, ring, k - 1);
      RotatedEdge(p, ring, k - 1);
    }
  }

  /** The verdict does not depend on which vertex the ring starts at. */
  lemma {:induction false} InRingRotationInvariant(p: Point, ring: Ring)
    requires |ring| > 0
    ensures InRing(p, RotateRing(ring)) == InRing(p, ring)
  {
    var n := |ring|;
    RotatedCrossingsPrefix(p, ring, n - 1);
    RotatedEdge(p, ring, n - 1);
    assert Crossings(p, RotateRing(ring), n) == Crossings(p, ring, n);
  }

  /** Edges 1..k-1 of the explicitly closed ring are the ring's own edges. */
  lemma {:induction false} ClosedCrossingsPrefix(p: Point, ring: Ring, k: nat)
    requires 0 < k <= |ring|
    ensures Crossings(p, ring + [ring[0]], k) + Crossings(p, ring, 1) == Crossings(p, ring, k)
  {
    var closed := ring + [ring[0]];
    if k == 1 {
      HorizontalEdgeNeverCrosses(p, closed[0], closed[|ring|]);
    } else {
      ClosedCrossingsPrefix(p, ring, k - 1);
      assert EdgeCrosses(p, closed, k - 1) == EdgeCrosses(p, ring, k - 1);
    }
  }

  /**
   * Repeating the first vertex at the end, as GeoJSON rings do, does not change the
   * verdict: the extra edge is degenerate and the closing edge is the one the
   * open ring already pairs its first vertex with.
   */
  lemma {:induction false} InRingClosingVertexInvariant(p: Point, ring: Ring)
    requires |ring| > 0
    ensures InRing(p, ring + [ring[0]]) == InRing(p, ring)
  {
    var n := |ring|;
    var closed := ring + [ring[0]];
    ClosedCrossingsPrefix(p, ring, n);
    assert EdgeCrosses(p, closed, n) == EdgeCrosses(p, ring, 0);
    assert Crossings(p, closed, n + 1) == Crossings(p, ring, n);
  }

  // ---------------------------------------------------------------------------
  // Point in feature
  // ---------------------------------------------------------------------------

  /** The point lies in one of the holes rings[1..]. */
  predicate InSomeHole(p: Point, rings: seq<Ring>)
  {
    exists i :: 1 <= i < |rings| && InRing(p, rings[i])
  }

  /** The polygon has an outer ring, the point is inside it and in none of the holes. */
  predicate InPolygon(p: Point, rings: seq<Ring>)
  {
    |rings| > 0 && InRing(p, rings[0]) && !InSomeHole(p, rings)
  }

  /**
   * The parts are tried in order; the first part holding the point answers true.
   * Reaching a part without rings reads `polygon[0]` as undefined, and the ring
   * test then throws: None.
   */
  function PartsContain(p: Point, parts: seq<seq<Ring>>): Option<bool>
  {
    if |parts| == 0 then Some(false)
    else if |parts[0]| == 0 then None
    else if InPolygon(p, parts[0]) then Some(true)
    else PartsContain(p, parts[1..])
  }

  /**
   * pointInFeature: Some(verdict), or None where the source throws because a
   * Polygon (or a MultiPolygon part it reaches) has no rings at all.
   */
  function Contains(p: Point, g: Geometry): Option<bool>
  {
    match g
    case Polygon(rings) => if |rings| == 0 then None else Some(InPolygon(p, rings))
    case MultiPolygon(parts) => PartsContain(p, parts)
    case Other => Some(false)
  }

  /** Every polygon has an outer ring: what GeoJSON requires of land data. */
  predicate WellFormed(g: Geometry)
  {
    match g
    case Polygon(rings) => |rings| > 0
    case MultiPolygon(parts) => forall k :: 0 <= k < |parts| ==> |parts[k]| > 0
    case Other => true
  }

  /** A MultiPolygon throws exactly when an empty part comes before every part that holds the point. */
  lemma {:induction false} PartsContainSpec(p: Point, parts: seq<seq<Ring>>)
    ensures PartsContain(p, parts) == None <==>
      exists k :: 0 <= k < |parts| && |parts[k]| == 0 &&
        forall m :: 0 <= m < k ==> !InPolygon(p, parts[m])
    ensures (forall k :: 0 <= k < |parts| ==> |parts[k]| > 0) ==>
      PartsContain(p, parts) == Some(exists k :: 0 <= k < |parts| && InPolygon(p, parts[k]))
  {
    if |parts| > 0 && |parts[0]| > 0 && !InPolygon(p, parts[0]) {
      var rest := parts[1..];
      PartsContainSpec(p, rest);
      if PartsContain(p, rest) == None {
        var k :| 0 <= k < |rest| && |rest[k]| == 0 && forall m :: 0 <= m < k ==> !InPolygon(p, rest[m]);
        assert |parts[k + 1]| == 0;
        assert forall m :: 0 <= m < k + 1 ==> !InPolygon(p, parts[m]) by {
          forall m | 0 <= m < k + 1 ensures !InPolygon(p, parts[m]) {
            if m > 0 { assert parts[m] == rest[m - 1]; }
          }
        }
      } else {
        forall k | 0 <= k < |parts| && |parts[k]| == 0
          ensures exists m :: 0 <= m < k && InPolygon(p, parts[m])
        {
          assert k > 0 && rest[k - 1] == parts[k];
          var m :| 0 <= m < k - 1 && InPolygon(p, rest[m]);
          assert InPolygon(p, parts[m + 1]);
        }
      }
      if forall k :: 0 <= k < |parts| ==> |parts[k]| > 0 {
        assert forall k :: 0 <= k < |rest| ==> |rest[k]| > 0 by {
          forall k | 0 <= k < |rest| ensures |rest[k]| > 0 {
            assert rest[k] == parts[k + 1];
          }
        }
        if exists k :: 0 <= k < |parts| && InPolygon(p, parts[k]) {
          var k :| 0 <= k < |parts| && InPolygon(p, parts[k]);
          assert k > 0 && InPolygon(p, rest[k - 1]);
        }
        if exists k :: 0 <= k < |rest| && InPolygon(p, rest[k]) {
          var k :| 0 <= k < |rest| && InPolygon(p, rest[k]);
          assert InPolygon(p, parts[k + 1]);
        }
      }
    }
  }

  /** On well-formed geometry the test never throws, and means "in some part, outside its holes". */
  lemma ContainsWellFormed(p: Point, g: Geometry)
    requires WellFormed(g)
    ensures g.Polygon? ==>
      Contains(p, g) == Some(InRing(p, g.rings[0]) && forall i :: 1 <= i < |g.rings| ==> !InRing(p, g.rings[i]))
    ensures g.MultiPolygon? ==>
      Contains(p, g) == Some(exists k :: 0 <= k < |g.parts| && InPolygon(p, g.parts[k]))
    ensures g.Other? ==> Contains(p, g) == Some(false)
  {
    if g.MultiPolygon? {
      PartsContainSpec(p, g.parts);
    }
  }

  /** pointInFeature with its early returns and the `inHole` flag. */
  method PointInFeature(p: Point, g: Geometry) returns (r: Option<bool>)
    ensures r == Contains(p, g)
  {
    match g {
      case Polygon(rings) =>
        if |rings| == 0 {
          return None;
        }
        var outer := PointInPolygon(p, rings[0]);
        if !outer {
          return Some(false);
        }
        var i := 1;
        while i < |rings|
          invariant 1 <= i <= |rings|
          invariant forall k :: 1 <= k < i ==> !InRing(p, rings[k])
        {
          var hole := PointInPolygon(p, rings[i]);
          if hole {
            return Some(false);
          }
          i := i + 1;
        }
        return Some(true);
      case MultiPolygon(parts) =>
        var k := 0;
        while k < |parts|
          invariant 0 <= k <= |parts|
          invariant PartsContain(p, parts) == PartsContain(p, parts[k..])
        {
          var polygon := parts[k];
          assert parts[k..][1..] == parts[k + 1..];
          if |polygon| == 0 {
            return None;
          }
          var outer := PointInPolygon(p, polygon[0]);
          if outer {
            var inHole := false;
            var i := 1;
            while i < |polygon|
              invariant 1 <= i <= |polygon|
              invariant forall m :: 1 <= m < i ==> !InRing(p, polygon[m])
              invariant !inHole
            {
              var hole := PointInPolygon(p, polygon[i]);
              if hole {
                inHole := true;
                break;
              }
              i := i + 1;
            }
            if !inHole {
              return Some(true);
            }
          }
          k := k + 1;
        }
        return Some(false);
      case Other =>
        return Some(false);
    }
  }

  // ---------------------------------------------------------------------------
  // A square with a square hole
  // ---------------------------------------------------------------------------

  const Square: Ring := [Point(0.0, 0.0), Point(4.0, 0.0), Point(4.0, 4.0), Point(0.0, 4.0)]
  const Hole: Ring := [Point(1.0, 1.0), Point(3.0, 1.0), Point(3.0, 3.0), Point(1.0, 3.0)]

  /** A point strictly inside the square is in, one outside is out, and one in the hole is out. */
  lemma SquareWithHoleExamples()
    ensures InRing(Point(2.0, 2.0), Square)
    ensures !InRing(Point(5.0, 2.0), Square)
    ensures Contains(Point(2.0, 2.0), Polygon([Square, Hole])) == Some(false)
    ensures Contains(Point(0.5, 2.0), Polygon([Square, Hole])) == Some(true)
  {
    assert Crossings(Point(2.0, 2.0), Square, 4) == 1;
    assert Crossings(Point(5.0, 2.0), Square, 4) == 0;
    assert Crossings(Point(2.0, 2.0), Hole, 4) == 1;
    assert InRing(Point(2.0, 2.0), [Square, Hole][1]);
    assert Crossings(Point(0.5, 2.0), Square, 4) == 1;
    assert Crossings(Point(0.5, 2.0), Hole, 4) == 2;
  }

  // ---------------------------------------------------------------------------
  // The dot grid
  // ---------------------------------------------------------------------------

  /** The box d3.geoBounds returns for a feature: [[minLng, minLat], [maxLng, maxLat]]. */
  datatype Bounds = Bounds(minLng: real, minLat: real, maxLng: real, maxLat: real)

  /** The factor that turns the spacing parameter into an angular step. */
  const StepFactor: real := 0.08

  /** The spacing the globe passes for every feature. */
  const DefaultSpacing: real := 18.0

  /** The angular step of the grid: stepSize = dotSpacing * 0.08. */
  function Step(spacing: real): real
  {
    spacing * StepFactor
  }

  /** The k-th value of `x := lo; x += step; ...`, the accumulation the scan performs. */
  function Lattice(lo: real, step: real, k: nat): real
  {
    if k == 0 then lo else Lattice(lo, step, k - 1) + step
  }

  lemma {:induction false} LatticeIsLinear(lo: real, step: real, k: nat)
    ensures Lattice(lo, step, k) == lo + k as real * step
  {
    if k > 0 {
      LatticeIsLinear(lo, step, k - 1);
      assert k as real * step == (k - 1) as real * step + step;
    }
  }

  /** How many values lo, lo + step, lo + 2 step, ... are at most hi. */
  function Steps(lo: real, hi: real, step: real): nat
    requires step > 0.0
  {
    if hi < lo then 0 else ((hi - lo) / step).Floor + 1
  }

  /** Multiplying by a positive factor keeps the order. */
  lemma ScaleMonotone(a: real, b: real, s: real)
    requires s > 0.0
    ensures a <= b <==> a * s <= b * s
  {
    assert b * s - a * s == (b - a) * s;
  }

  /** The arithmetic behind the loop bound: lo + k step <= hi exactly for the first Steps values of k. */
  lemma StepsArithmetic(lo: real, hi: real, step: real, k: nat)
    requires step > 0.0
    ensures lo + k as real * step <= hi <==> k < Steps(lo, hi, step)
    ensures lo <= lo + k as real * step
  {
    var kr := k as real;
    ScaleMonotone(0.0, kr, step);
    if lo <= hi {
      var q := (hi - lo) / step;
      var f := q.Floor;
      assert q * step == hi - lo;
      ScaleMonotone(kr, q, step);
      assert kr <= q <==> k <= f;
    }
  }

  lemma StepsSpec(lo: real, hi: real, step: real, k: nat)
    requires step > 0.0
    ensures Lattice(lo, step, k) <= hi <==> k < Steps(lo, hi, step)
    ensures lo <= Lattice(lo, step, k)
  {
    LatticeIsLinear(lo, step, k);
    StepsArithmetic(lo, hi, step, k);
  }

  /** The sample point of column i and row j. */
  function GridPoint(b: Bounds, step: real, i: nat, j: nat): Point
  {
    Point(Lattice(b.minLng, step, i), Lattice(b.minLat, step, j))
  }

  function Cols(b: Bounds, step: real): nat
    requires step > 0.0
  {
    Steps(b.minLng, b.maxLng, step)
  }

  function Rows(b: Bounds, step: real): nat
    requires step > 0.0
  {
    Steps(b.minLat, b.maxLat, step)
  }

  /** Column i, south to north. */
  function Column(b: Bounds, step: real, i: nat): seq<Point>
    requires step > 0.0
  {
    seq(Rows(b, step), j requires 0 <= j => GridPoint(b, step, i, j))
  }

  /** The first `cols` columns, west to east: the order of the nested loops. */
  function GridColumns(b: Bounds, step: real, cols: nat): seq<Point>
    requires step > 0.0
  {
    if cols == 0 then [] else GridColumns(b, step, cols - 1) + Column(b, step, cols - 1)
  }

  /** Every sample point of the box, in scan order. */
  function Grid(b: Bounds, step: real): seq<Point>
    requires step > 0.0
  {
    GridColumns(b, step, Cols(b, step))
  }

  /** The sampled points are exactly the grid points of the first `cols` columns. */
  lemma {:induction false} GridColumnsMembers(b: Bounds, step: real, cols: nat, q: Point)
    requires step > 0.0
    ensures q in GridColumns(b, step, cols) <==>
      exists i: nat, j: nat :: i < cols && j < Rows(b, step) && q == GridPoint(b, step, i, j)
  {
    if cols > 0 {
      GridColumnsMembers(b, step, cols - 1, q);
      if q in Column(b, step, cols - 1) {
        var j :| 0 <= j < Rows(b, step) && Column(b, step, cols - 1)[j] == q;
        assert q == GridPoint(b, step, cols - 1, j);
      }
      if exists i: nat, j: nat :: i < cols && j < Rows(b, step) && q == GridPoint(b, step, i, j) {
        var i: nat, j: nat :| i < cols && j < Rows(b, step) && q == GridPoint(b, step, i, j);
        if i == cols - 1 {
          assert Column(b, step, cols - 1)[j] == q;
        }
      }
    }
  }

  /** The grid points are the lattice points (minLng + i step, minLat + j step) that lie in the box. */
  lemma GridMembers(b: Bounds, step: real, q: Point)
    requires step > 0.0
    ensures q in Grid(b, step) <==>
      b.minLng <= q.lng <= b.maxLng && b.minLat <= q.lat <= b.maxLat &&
      exists i: nat, j: nat :: q == GridPoint(b, step, i, j)
  {
    GridColumnsMembers(b, step, Cols(b, step), q);
    if q in Grid(b, step) {
      var i: nat, j: nat :| i < Cols(b, step) && j < Rows(b, step) && q == GridPoint(b, step, i, j);
      StepsSpec(b.minLng, b.maxLng, step, i);
      StepsSpec(b.minLat, b.maxLat, step, j);
    }
    if b.minLng <= q.lng <= b.maxLng && b.minLat <= q.lat <= b.maxLat &&
      exists i: nat, j: nat :: q == GridPoint(b, step, i, j)
    {
      var i: nat, j: nat :| q == GridPoint(b, step, i, j);
      StepsSpec(b.minLng, b.maxLng, step, i);
      StepsSpec(b.minLat, b.maxLat, step, j);
    }
  }

  /**
   * The points of `pts` that the feature contains, in order; None once a point's
   * test throws.
   */
  function Keep(g: Geometry, pts: seq<Point>): Option<seq<Point>>
  {
    if |pts| == 0 then Some([])
    else
      var last := pts[|pts| - 1];
      match Keep(g, pts[..|pts| - 1])
      case None => None
      case Some(ds) =>
        match Contains(last, g)
        case None => None
        case Some(inside) => Some(if inside then ds + [last] else ds)
  }

  /** The kept points are exactly the contained ones, and the scan fails exactly when some test throws. */
  lemma {:induction false} KeepSpec(g: Geometry, pts: seq<Point>)
    ensures Keep(g, pts).None? <==> exists q :: q in pts && Contains(q, g).None?
    ensures Keep(g, pts).Some? ==>
      forall q :: q in Keep(g, pts).value <==> q in pts && Contains(q, g) == Some(true)
  {
    if |pts| > 0 {
      var init := pts[..|pts| - 1];
      var last := pts[|pts| - 1];
      assert pts == init + [last];
      KeepSpec(g, init);
      if Keep(g, init).None? {
        var q :| q in init && Contains(q, g).None?;
        assert q in pts;
      }
    }
  }

  /** Scanning one more point. */
  lemma KeepSnoc(g: Geometry, pts: seq<Point>, x: Point)
    ensures Contains(x, g).None? ==> Keep(g, pts + [x]).None?
    ensures Keep(g, pts).Some? && Contains(x, g).Some? ==>
      Keep(g, pts + [x]) == Some(if Contains(x, g).value then Keep(g, pts).value + [x] else Keep(g, pts).value)
  {
    assert (pts + [x])[..|pts|] == pts;
  }

  /** Scanning the j-th point of column i extends the kept dots by that point when it is contained. */
  lemma ScanStep(g: Geometry, b: Bounds, step: real, i: nat, j: nat, dots: seq<Point>)
    requires step > 0.0 && j < Rows(b, step)
    requires Keep(g, GridColumns(b, step, i) + Column(b, step, i)[..j]) == Some(dots)
    ensures var next := Keep(g, GridColumns(b, step, i) + Column(b, step, i)[..j + 1]);
      var pt := GridPoint(b, step, i, j);
      (Contains(pt, g).None? ==> next.None?) &&
      (Contains(pt, g) == Some(true) ==> next == Some(dots + [pt])) &&
      (Contains(pt, g) == Some(false) ==> next == Some(dots))
  {
    var done := GridColumns(b, step, i);
    var column := Column(b, step, i);
    assert done + column[..j + 1] == (done + column[..j]) + [column[j]];
    KeepSnoc(g, done + column[..j], column[j]);
  }

  /** Once a prefix fails, every extension of it fails. */
  lemma {:induction false} KeepFailureExtends(g: Geometry, pts: seq<Point>, more: seq<Point>)
    requires Keep(g, pts).None?
    ensures Keep(g, pts + more).None?
  {
    if |more| > 0 {
      var init := more[..|more| - 1];
      var all := pts + more;
      assert all[..|all| - 1] == pts + init;
      KeepFailureExtends(g, pts, init);
      assert Keep(g, all[..|all| - 1]).None?;
    } else {
      assert pts + more == pts;
    }
  }

  lemma {:induction false} GridColumnsPrefix(b: Bounds, step: real, m: nat, n: nat)
    requires step > 0.0 && m <= n
    ensures GridColumns(b, step, m) <= GridColumns(b, step, n)
  {
    if m < n {
      GridColumnsPrefix(b, step, m, n - 1);
    }
  }

  /** A failure at row j of column i makes the whole scan fail. */
  lemma ScanFailureFails(g: Geometry, b: Bounds, step: real, i: nat, j: nat)
    requires step > 0.0 && i < Cols(b, step) && j < Rows(b, step)
    requires Keep(g, GridColumns(b, step, i) + Column(b, step, i)[..j + 1]).None?
    ensures Keep(g, Grid(b, step)).None?
  {
    var scanned := GridColumns(b, step, i) + Column(b, step, i)[..j + 1];
    GridColumnsPrefix(b, step, i + 1, Cols(b, step));
    assert scanned <= GridColumns(b, step, i + 1);
    var rest := Grid(b, step)[|scanned|..];
    assert Grid(b, step) == scanned + rest;
    KeepFailureExtends(g, scanned, rest);
  }

  /**
   * generateDotsInPolygon: scan the box column by column, keeping the contained
   * points. The result is a function of its inputs alone.
   */
  method GenerateDots(g: Geometry, b: Bounds, spacing: real) returns (r: Option<seq<Point>>)
    requires spacing > 0.0
    ensures r == Keep(g, Grid(b, Step(spacing)))
  {
    var dots: seq<Point> := [];
    var step := Step(spacing);
    ghost var cols, rows := Cols(b, step), Rows(b, step);
    var lng := b.minLng;
    ghost var i: nat := 0;
    while lng <= b.maxLng
      invariant lng == Lattice(b.minLng, step, i)
      invariant i <= cols
      invariant Keep(g, GridColumns(b, step, i)) == Some(dots)
      decreases cols - i
    {
      StepsSpec(b.minLng, b.maxLng, step, i);
      ghost var done := GridColumns(b, step, i);
      ghost var column := Column(b, step, i);
      var lat := b.minLat;
      ghost var j: nat := 0;
      assert done + column[..0] == done;
      while lat <= b.maxLat
        invariant lat == Lattice(b.minLat, step, j)
        invariant j <= rows
        invariant Keep(g, done + column[..j]) == Some(dots)
        decreases rows - j
      {
        StepsSpec(b.minLat, b.maxLat, step, j);
        var point := Point(lng, lat);
        ScanStep(g, b, step, i, j, dots);
        var inside := PointInFeature(point, g);
        match inside {
          case None =>
            ScanFailureFails(g, b, step, i, j);
            return None;
          case Some(true) =>
            dots := dots + [point];
          case Some(false) =>
        }
        lat := lat + step;
        j := j + 1;
      }
      StepsSpec(b.minLat, b.maxLat, step, j);
      assert column[..j] == column;
      lng := lng + step;
      i := i + 1;
    }
    StepsSpec(b.minLng, b.maxLng, step, i);
    return Some(dots);
  }

  /** Every dot is contained, lies in the box and sits on the grid; every such point is a dot. */
  lemma DotsSpec(g: Geometry, b: Bounds, spacing: real, q: Point)
    requires spacing > 0.0
    requires Keep(g, Grid(b, Step(spacing))).Some?
    ensures q in Keep(g, Grid(b, Step(spacing))).value <==>
      Contains(q, g) == Some(true) &&
      b.minLng <= q.lng <= b.maxLng && b.minLat <= q.lat <= b.maxLat &&
      exists i: nat, j: nat :: q == GridPoint(b, Step(spacing), i, j)
  {
    KeepSpec(g, Grid(b, Step(spacing)));
    GridMembers(b, Step(spacing), q);
  }

  /** On well-formed geometry the scan never fails. */
  lemma DotsWellFormed(g: Geometry, b: Bounds, spacing: real)
    requires spacing > 0.0 && WellFormed(g)
    ensures Keep(g, Grid(b, Step(spacing))).Some?
  {
    forall q | q in Grid(b, Step(spacing)) ensures Contains(q, g).Some? {
      ContainsWellFormed(q, g);
    }
    KeepSpec(g, Grid(b, Step(spacing)));
  }

  /**
   * The globe generates every feature's dots with the default spacing 18, that is,
   * on a 1.44-degree grid; for well-formed geometry that scan never fails.
   */
  lemma GlobeDotsWellFormed(g: Geometry, b: Bounds)
    requires WellFormed(g)
    ensures Step(DefaultSpacing) == 1.44
    ensures Keep(g, Grid(b, Step(DefaultSpacing))).Some?
  {
    DotsWellFormed(g, b, DefaultSpacing);
  }
}
