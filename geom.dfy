/**
 * The geometry vocabulary the snap-rounder works over: coordinates, the
 * precision model's grid rounding, the geometry tree, its component traversal
 * and the factory's assembly of a list of lines.
 */
module Geom {

  datatype Option<T> = None | Some(value: T)

  /** A coordinate: X, Y and an optional Z (a missing Z is JTS's NaN). */
  datatype Coordinate = Coordinate(x: real, y: real, z: Option<real>)

  /** Two coordinates agree in X and Y; Z is ignored. */
  predicate Equals2D(a: Coordinate, b: Coordinate) {
    a.x == b.x && a.y == b.y
  }

  /** The coordinate `new Coordinate(c.x, c.y)`: X and Y copied, no Z. */
  function XY(c: Coordinate): (r: Coordinate)
    ensures Equals2D(r, c) && r.z == None
  {
    Coordinate(c.x, c.y, None)
  }

  /**
   * A precision model. The grid rounding of a single ordinate is a supplied
   * primitive; making a coordinate precise rounds its X and its Y and leaves
   * its Z alone.
   */
  datatype PrecisionModel = PrecisionModel(makePreciseOrdinate: real -> real) {

    function MakePrecise(c: Coordinate): (r: Coordinate)
      ensures r.x == makePreciseOrdinate(c.x) && r.y == makePreciseOrdinate(c.y)
      ensures r.z == c.z
    {
      Coordinate(makePreciseOrdinate(c.x), makePreciseOrdinate(c.y), c.z)
    }
  }

  /** The ordinate rounding is a grid: a rounded value rounds to itself. */
  ghost predicate IsGrid(pm: PrecisionModel) {
    forall v :: pm.makePreciseOrdinate(pm.makePreciseOrdinate(v)) == pm.makePreciseOrdinate(v)
  }

  datatype CollectionKind = GeometryCollection | MultiPoint | MultiLineString | MultiPolygon

  /**
   * A geometry tree. A polygon's rings are closed line strings; a collection
   * holds any geometries, nested to any depth.
   */
  datatype Geometry =
    | Point(coord: Coordinate)
    | LineString(coords: seq<Coordinate>)
    | LinearRing(coords: seq<Coordinate>)
    | Polygon(shell: seq<Coordinate>, holes: seq<seq<Coordinate>>)
    | Collection(kind: CollectionKind, members: seq<Geometry>)
  {
    /** `instanceof LineString`: a linear ring is a line string too. */
    predicate IsLineString() {
      LineString? || LinearRing?
    }
  }

  /**
   * Every component of `g`, in the order `Geometry.apply` hands them to a
   * component filter: the geometry itself first, then a polygon's shell and
   * holes, or a collection's members, each recursively.
   */
  function Components(g: Geometry): (r: seq<Geometry>)
    ensures |r| >= 1 && r[0] == g
    decreases g, 1
  {
    [g] +
    match g
    case Point(_) => []
    case LineString(_) => []
    case LinearRing(_) => []
    case Polygon(shell, holes) => [LinearRing(shell)] + Rings(holes)
    case Collection(_, members) => MemberComponents(members)
  }

  function Rings(holes: seq<seq<Coordinate>>): (r: seq<Geometry>)
    ensures |r| == |holes|
    ensures forall i :: 0 <= i < |holes| ==> r[i] == LinearRing(holes[i])
  {
    seq(|holes|, i requires 0 <= i < |holes| => LinearRing(holes[i]))
  }

  function MemberComponents(members: seq<Geometry>): seq<Geometry>
    decreases members, 0
  {
    if members == [] then []
    else Components(members[0]) + MemberComponents(members[1..])
  }

  /**
   * `GeometryFactory.buildGeometry` applied to a list of line strings: no
   * line gives an empty geometry collection, one line gives that line itself,
   * several give a multi-line-string.
   */
  function BuildLineal(lines: seq<seq<Coordinate>>): (g: Geometry)
    ensures Linework(g) == lines
    ensures |lines| == 0 ==> g == Collection(GeometryCollection, [])
    ensures |lines| == 1 ==> g == LineString(lines[0])
    ensures |lines| > 1 ==> g.Collection? && g.kind == MultiLineString
  {
    if |lines| == 0 then Collection(GeometryCollection, [])
    else if |lines| == 1 then LineString(lines[0])
    else Collection(MultiLineString, seq(|lines|, i requires 0 <= i < |lines| => LineString(lines[i])))
  }

  /** The coordinate lists of a flat lineal geometry: one line, or the lines of a collection. */
  function Linework(g: Geometry): seq<seq<Coordinate>> {
    match g
    case LineString(cs) => [cs]
    case Collection(_, ms) =>
      seq(|ms|, i requires 0 <= i < |ms| => if ms[i].LineString? then ms[i].coords else [])
    case _ => []
  }
}
