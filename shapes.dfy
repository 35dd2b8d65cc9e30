/**
 * The shape catalog: the four shape kinds the application knows, the rule that
 * derives a bounding box and an exact area from a kind's parameters, and the
 * colour tag each kind is drawn with.
 */
module Shapes {
  import opened Basics

  /** The shape name a caller passes; any other name is kept as Other (see KindOf). */
  datatype ShapeKind = Rectangle | Square | Circle | Triangle | Other(name: string)

  /** The shape name the application passes for a kind. */
  function NameOf(kind: ShapeKind): string
  {
    match kind
    case Rectangle => "Rectangle"
    case Square => "Square"
    case Circle => "Circle"
    case Triangle => "Triangle"
    case Other(name) => name
  }

  /** A kind as KindOf produces it: Other never carries one of the four known names. */
  predicate Canonical(kind: ShapeKind)
  {
    kind.Other? ==> kind.name !in {"Rectangle", "Square", "Circle", "Triangle"}
  }

  /**
   * The kind a shape name denotes. The four names compared against by the
   * dispatch and the colour map are known; every other string is Other.
   */
  function KindOf(name: string): (kind: ShapeKind)
    ensures Canonical(kind)
    ensures NameOf(kind) == name
    ensures kind.Other? <==> name !in {"Rectangle", "Square", "Circle", "Triangle"}
  {
    if name == "Rectangle" then Rectangle
    else if name == "Square" then Square
    else if name == "Circle" then Circle
    else if name == "Triangle" then Triangle
    else Other(name)
  }

  /** Every canonical kind is the kind of its own name, so names and canonical kinds correspond one to one. */
  lemma KindOfNameOf(kind: ShapeKind)
    requires Canonical(kind)
    ensures KindOf(NameOf(kind)) == kind
  {
    match kind
    case Other(name) =>
      assert name != "Rectangle" && name != "Square" && name != "Circle" && name != "Triangle";
    case _ =>
  }

  /** The parameter dictionary of a shape ('w', 'h', 'r', 'b'). */
  type Dims = map<string, real>

  /** Bounding box (w × h) and exact area of one shape. */
  datatype Geometry = Geometry(w: real, h: real, area: real)

  /** One entry of the job queue. */
  datatype Item = Item(
    id: string,
    kind: ShapeKind,
    dims: Dims,
    w: real,
    h: real,
    area: real,
    allowRotation: bool,
    color: string)

  /** The value the application uses for π. */
  const Pi: real := 3.14159

  /** The colour used for a kind missing from the colour map. */
  const DefaultColor: string := "#666"

  /** The parameter keys a kind reads, in the order it reads them. */
  function ParamKeys(kind: ShapeKind): seq<string>
  {
    match kind
    case Rectangle => ["w", "h"]
    case Square => ["w", "h"]
    case Circle => ["r"]
    case Triangle => ["b", "h"]
    case Other(_) => []
  }

  predicate HasParams(kind: ShapeKind, dims: Dims)
  {
    forall k :: k in ParamKeys(kind) ==> k in dims
  }

  /** Every parameter the kind reads is present and strictly positive. */
  predicate PositiveParams(kind: ShapeKind, dims: Dims)
  {
    forall k :: k in ParamKeys(kind) ==> k in dims && dims[k] > 0.0
  }

  /**
   * The bounding-box dispatch of one copy: Rectangle and Square use w × h,
   * Circle a 2r × 2r box with area Pi·r², Triangle a b × h box with area
   * b·h/2. An unknown kind assigns nothing and fails; a missing key fails on
   * the first key read.
   */
  function Measure(kind: ShapeKind, dims: Dims): (r: Result<Geometry, Error>)
    ensures kind.Other? ==> r == Failure(UnknownShape(kind.name))
    ensures r.Success? <==> !kind.Other? && HasParams(kind, dims)
    ensures r.Failure? && !kind.Other? ==>
      r.error.MissingParameter? && r.error.key in ParamKeys(kind) && r.error.key !in dims
    ensures r.Success? && (kind.Rectangle? || kind.Square?) ==>
      r.value == Geometry(dims["w"], dims["h"], dims["w"] * dims["h"])
    ensures r.Success? && kind.Circle? ==>
      r.value == Geometry(2.0 * dims["r"], 2.0 * dims["r"], Pi * (dims["r"] * dims["r"]))
    ensures r.Success? && kind.Triangle? ==>
      r.value == Geometry(dims["b"], dims["h"], 0.5 * dims["b"] * dims["h"])
  {
    match kind
    case Rectangle | Square =>
      if "w" !in dims then Failure(MissingParameter("w"))
      else if "h" !in dims then Failure(MissingParameter("h"))
      else Success(Geometry(dims["w"], dims["h"], dims["w"] * dims["h"]))
    case Circle =>
      if "r" !in dims then Failure(MissingParameter("r"))
      else Success(Geometry(dims["r"] * 2.0, dims["r"] * 2.0, Pi * (dims["r"] * dims["r"])))
    case Triangle =>
      if "b" !in dims then Failure(MissingParameter("b"))
      else if "h" !in dims then Failure(MissingParameter("h"))
      else Success(Geometry(dims["b"], dims["h"], 0.5 * dims["b"] * dims["h"]))
    case Other(name) =>
      Failure(UnknownShape(name))
  }

  /** The fixed colour map; only a kind outside it gets the default colour. */
  function ColorOf(kind: ShapeKind): (c: string)
    ensures c == DefaultColor <==> kind.Other?
  {
    match kind
    case Rectangle => "#3B82F6"
    case Square => "#10B981"
    case Circle => "#F59E0B"
    case Triangle => "#8B5CF6"
    case Other(_) => DefaultColor
  }

  /**
   * For positive parameters the box is non-degenerate and the exact area is
   * positive and never exceeds the box; it fills the box exactly for
   * Rectangle and Square only.
   */
  lemma ExactAreaWithinBox(kind: ShapeKind, dims: Dims)
    requires !kind.Other? && PositiveParams(kind, dims)
    ensures Measure(kind, dims).Success?
    ensures var g := Measure(kind, dims).value;
      0.0 < g.w && 0.0 < g.h && 0.0 < g.area <= g.w * g.h &&
      (g.area == g.w * g.h <==> kind.Rectangle? || kind.Square?)
  {
    assert forall k :: k in ParamKeys(kind) ==> k in dims;
    var g := Measure(kind, dims).value;
    match kind
    case Rectangle | Square =>
      assert "w" in ParamKeys(kind) && "h" in ParamKeys(kind);
      ProductPositive(g.w, g.h, g.area);
    case Circle =>
      assert "r" in ParamKeys(kind);
      var r := dims["r"];
      var t := r * r;
      ProductPositive(r, r, t);
      ProductPositive(Pi, t, g.area);
      assert g.w * g.h == 4.0 * t;
    case Triangle =>
      assert "b" in ParamKeys(kind) && "h" in ParamKeys(kind);
      var t := g.w * g.h;
      ProductPositive(g.w, g.h, t);
      assert g.area == 0.5 * t;
  }

  lemma ProductPositive(a: real, b: real, p: real)
    requires 0.0 < a && 0.0 < b && p == a * b
    ensures 0.0 < p
  {
  }
}
