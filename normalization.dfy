/** Mesh normalisation (`normalize_obj`): translate the mesh so that its
    bounding box is centred on x and z and rests on y = 0, then scale it
    uniformly so that its largest extent is 1. The translation (pivot) and the
    scale are returned so that predictions can be mapped back at the end. */
module Normalization {
  import opened Basics

  /** The axis-aligned bounding box: per-axis minima in lo, maxima in hi. */
  datatype Box = Box(lo: Vec3, hi: Vec3)

  /** The pivot subtracted from every vertex and the factor applied after. */
  datatype Frame = Frame(pivot: Vec3, scale: real)

  datatype NormError =
    | EmptyMesh       // `min`/`max` of an empty column
    | DegenerateMesh  // every extent is zero, so `1.0 / max(dims)` has no real value

  datatype NormResult = Normalized(frame: Frame) | Failed(error: NormError)

  predicate Inside(v: Vec3, b: Box)
  {
    b.lo.x <= v.x <= b.hi.x && b.lo.y <= v.y <= b.hi.y && b.lo.z <= v.z <= b.hi.z
  }

  /** b is the box of the columnwise `min`/`max` of s: it encloses every
      vertex and each of its six faces is touched by some vertex. */
  ghost predicate IsBoundingBox(s: seq<Vec3>, b: Box)
  {
    && (forall i :: 0 <= i < |s| ==> Inside(s[i], b))
    && (exists i :: 0 <= i < |s| && s[i].x == b.lo.x)
    && (exists i :: 0 <= i < |s| && s[i].x == b.hi.x)
    && (exists i :: 0 <= i < |s| && s[i].y == b.lo.y)
    && (exists i :: 0 <= i < |s| && s[i].y == b.hi.y)
    && (exists i :: 0 <= i < |s| && s[i].z == b.lo.z)
    && (exists i :: 0 <= i < |s| && s[i].z == b.hi.z)
  }

  /** The box extents `dims` and their maximum. */
  function Dims(b: Box): Vec3 { Sub(b.hi, b.lo) }

  function MaxDim(b: Box): real
  {
    var d := Dims(b);
    Max2(Max2(d.x, d.y), d.z)
  }

  /** The pivot (centre of x and z, bottom of y) and the scale `1 / max(dims)`. */
  function FrameOf(b: Box): Frame
    requires MaxDim(b) != 0.0
  {
    Frame(Vec3((b.lo.x + b.hi.x) / 2.0, b.lo.y, (b.lo.z + b.hi.z) / 2.0), 1.0 / MaxDim(b))
  }

  function ToCanonical(v: Vec3, f: Frame): Vec3 { Scale(Sub(v, f.pivot), f.scale) }

  /** The inverse map applied to the final rig: `v / scale + pivot`. */
  function FromCanonical(w: Vec3, f: Frame): Vec3
    requires f.scale != 0.0
  {
    Add(Scale(w, 1.0 / f.scale), f.pivot)
  }

  function ToCanonicalAll(s: seq<Vec3>, f: Frame): seq<Vec3>
  {
    seq(|s|, i requires 0 <= i < |s| => ToCanonical(s[i], f))
  }

  /** The six `min`/`max` column scans, done in one pass. */
  method BoundingBox(mesh: array<Vec3>) returns (b: Box)
    requires mesh.Length > 0
    ensures IsBoundingBox(mesh[..], b)
  {
    b := Box(mesh[0], mesh[0]);
    ghost var x0, x1, y0, y1, z0, z1 := 0, 0, 0, 0, 0, 0;
    var i := 1;
    while i < mesh.Length
      invariant 1 <= i <= mesh.Length
      invariant forall j :: 0 <= j < i ==> Inside(mesh[j], b)
      invariant x0 < i && mesh[x0].x == b.lo.x && x1 < i && mesh[x1].x == b.hi.x
      invariant y0 < i && mesh[y0].y == b.lo.y && y1 < i && mesh[y1].y == b.hi.y
      invariant z0 < i && mesh[z0].z == b.lo.z && z1 < i && mesh[z1].z == b.hi.z
    {
      var v := mesh[i];
      if v.x < b.lo.x { b := b.(lo := b.lo.(x := v.x)); x0 := i; }
      if v.x > b.hi.x { b := b.(hi := b.hi.(x := v.x)); x1 := i; }
      if v.y < b.lo.y { b := b.(lo := b.lo.(y := v.y)); y0 := i; }
      if v.y > b.hi.y { b := b.(hi := b.hi.(y := v.y)); y1 := i; }
      if v.z < b.lo.z { b := b.(lo := b.lo.(z := v.z)); z0 := i; }
      if v.z > b.hi.z { b := b.(hi := b.hi.(z := v.z)); z1 := i; }
      i := i + 1;
    }
    assert mesh[..][x0].x == b.lo.x && mesh[..][x1].x == b.hi.x;
    assert mesh[..][y0].y == b.lo.y && mesh[..][y1].y == b.hi.y;
    assert mesh[..][z0].z == b.lo.z && mesh[..][z1].z == b.hi.z;
  }

  /** The mesh is updated in place, one coordinate column at a time and then
      scaled, like the numpy statements it models. */
  method NormalizeObj(mesh: array<Vec3>) returns (r: NormResult, ghost box: Box)
    modifies mesh
    ensures mesh.Length == 0 ==> r == Failed(EmptyMesh)
    ensures mesh.Length > 0 ==> IsBoundingBox(old(mesh[..]), box)
    ensures mesh.Length > 0 && MaxDim(box) == 0.0 ==> r == Failed(DegenerateMesh)
    ensures mesh.Length > 0 ==> (r.Normalized? <==> MaxDim(box) != 0.0)
    ensures r.Failed? ==> mesh[..] == old(mesh[..])
    ensures r.Normalized? ==>
      && mesh.Length > 0 && MaxDim(box) != 0.0
      && r.frame == FrameOf(box)
      && mesh[..] == ToCanonicalAll(old(mesh[..]), r.frame)
  {
    if mesh.Length == 0 {
      return Failed(EmptyMesh), Box(Vec3(0.0, 0.0, 0.0), Vec3(0.0, 0.0, 0.0));
    }
    ghost var s := mesh[..];
    var b := BoundingBox(mesh);
    box := b;
    if MaxDim(b) == 0.0 {
      return Failed(DegenerateMesh), box;
    }
    var scale := 1.0 / MaxDim(b);
    var pivot := Vec3((b.lo.x + b.hi.x) / 2.0, b.lo.y, (b.lo.z + b.hi.z) / 2.0);
    r := Normalized(Frame(pivot, scale));
    ApplyFrame(mesh, r.frame);
  }

  /** `mesh_v[:, 0] -= pivot[0]` and so on for y and z, then `mesh_v *= scale`. */
  method ApplyFrame(mesh: array<Vec3>, f: Frame)
    modifies mesh
    ensures mesh[..] == ToCanonicalAll(old(mesh[..]), f)
  {
    ghost var s := mesh[..];
    forall i | 0 <= i < mesh.Length {
      mesh[i] := mesh[i].(x := mesh[i].x - f.pivot.x);
    }
    forall i | 0 <= i < mesh.Length {
      mesh[i] := mesh[i].(y := mesh[i].y - f.pivot.y);
    }
    forall i | 0 <= i < mesh.Length {
      mesh[i] := mesh[i].(z := mesh[i].z - f.pivot.z);
    }
    assert forall i :: 0 <= i < mesh.Length ==> mesh[i] == Sub(s[i], f.pivot);
    forall i | 0 <= i < mesh.Length {
      mesh[i] := Scale(mesh[i], f.scale);
    }
    assert forall i :: 0 <= i < mesh.Length ==> mesh[i] == ToCanonical(s[i], f);
  }

  /** The columnwise minima and maxima determine one box: the frame is a
      function of the mesh alone. */
  lemma BoundingBoxUnique(s: seq<Vec3>, b: Box, c: Box)
    requires IsBoundingBox(s, b) && IsBoundingBox(s, c)
    ensures b == c
  {
    assert b.lo.x == c.lo.x by {
      var i :| 0 <= i < |s| && s[i].x == b.lo.x;
      var j :| 0 <= j < |s| && s[j].x == c.lo.x;
      assert Inside(s[i], c) && Inside(s[j], b);
    }
    assert b.hi.x == c.hi.x by {
      var i :| 0 <= i < |s| && s[i].x == b.hi.x;
      var j :| 0 <= j < |s| && s[j].x == c.hi.x;
      assert Inside(s[i], c) && Inside(s[j], b);
    }
    assert b.lo.y == c.lo.y by {
      var i :| 0 <= i < |s| && s[i].y == b.lo.y;
      var j :| 0 <= j < |s| && s[j].y == c.lo.y;
      assert Inside(s[i], c) && Inside(s[j], b);
    }
    assert b.hi.y == c.hi.y by {
      var i :| 0 <= i < |s| && s[i].y == b.hi.y;
      var j :| 0 <= j < |s| && s[j].y == c.hi.y;
      assert Inside(s[i], c) && Inside(s[j], b);
    }
    assert b.lo.z == c.lo.z by {
      var i :| 0 <= i < |s| && s[i].z == b.lo.z;
      var j :| 0 <= j < |s| && s[j].z == c.lo.z;
      assert Inside(s[i], c) && Inside(s[j], b);
    }
    assert b.hi.z == c.hi.z by {
      var i :| 0 <= i < |s| && s[i].z == b.hi.z;
      var j :| 0 <= j < |s| && s[j].z == c.hi.z;
      assert Inside(s[i], c) && Inside(s[j], b);
    }
  }

  lemma Cancel(t: real, k: real)
    requires k != 0.0
    ensures (t * k) * (1.0 / k) == t
    ensures (t * (1.0 / k)) * k == t
  {
    var inv := 1.0 / k;
    assert k * inv == 1.0;
    assert (t * k) * inv == t * (k * inv);
    assert (t * inv) * k == t * (k * inv);
  }

  /** To canonical space and back, and back and forth: the stored pivot and
      scale undo the map exactly. */
  lemma CanonicalRoundTrip(v: Vec3, f: Frame)
    requires f.scale != 0.0
    ensures FromCanonical(ToCanonical(v, f), f) == v
    ensures ToCanonical(FromCanonical(v, f), f) == v
  {
    Cancel(v.x - f.pivot.x, f.scale);
    Cancel(v.y - f.pivot.y, f.scale);
    Cancel(v.z - f.pivot.z, f.scale);
    Cancel(v.x, f.scale);
    Cancel(v.y, f.scale);
    Cancel(v.z, f.scale);
  }

  /** Denormalising the normalised mesh gives back every original vertex. */
  lemma NormalizeInvertible(s: seq<Vec3>, b: Box)
    requires IsBoundingBox(s, b) && MaxDim(b) != 0.0
    ensures var f := FrameOf(b);
      forall i :: 0 <= i < |s| ==> FromCanonical(ToCanonicalAll(s, f)[i], f) == s[i]
  {
    var f := FrameOf(b);
    forall i | 0 <= i < |s|
      ensures FromCanonical(ToCanonicalAll(s, f)[i], f) == s[i]
    {
      CanonicalRoundTrip(s[i], f);
    }
  }

  lemma MulMonotone(a: real, b: real, k: real)
    requires a <= b && k > 0.0
    ensures a * k <= b * k
  {
  }

  /** With a positive scale, an enclosed vertex maps into the mapped box. */
  lemma InsideMapped(v: Vec3, b: Box, f: Frame)
    requires Inside(v, b) && f.scale > 0.0
    ensures Inside(ToCanonical(v, f), Box(ToCanonical(b.lo, f), ToCanonical(b.hi, f)))
  {
    MulMonotone(b.lo.x - f.pivot.x, v.x - f.pivot.x, f.scale);
    MulMonotone(v.x - f.pivot.x, b.hi.x - f.pivot.x, f.scale);
    MulMonotone(b.lo.y - f.pivot.y, v.y - f.pivot.y, f.scale);
    MulMonotone(v.y - f.pivot.y, b.hi.y - f.pivot.y, f.scale);
    MulMonotone(b.lo.z - f.pivot.z, v.z - f.pivot.z, f.scale);
    MulMonotone(v.z - f.pivot.z, b.hi.z - f.pivot.z, f.scale);
  }

  /** A positive-scale frame maps the bounding box of s onto the bounding box
      of the mapped mesh. */
  lemma BoxMapped(s: seq<Vec3>, b: Box, f: Frame)
    requires IsBoundingBox(s, b) && f.scale > 0.0
    ensures IsBoundingBox(ToCanonicalAll(s, f), Box(ToCanonical(b.lo, f), ToCanonical(b.hi, f)))
  {
    var t := ToCanonicalAll(s, f);
    var c := Box(ToCanonical(b.lo, f), ToCanonical(b.hi, f));
    EnclosedMapped(s, b, f);
    var i0 :| 0 <= i0 < |s| && s[i0].x == b.lo.x;
    var i1 :| 0 <= i1 < |s| && s[i1].x == b.hi.x;
    var i2 :| 0 <= i2 < |s| && s[i2].y == b.lo.y;
    var i3 :| 0 <= i3 < |s| && s[i3].y == b.hi.y;
    var i4 :| 0 <= i4 < |s| && s[i4].z == b.lo.z;
    var i5 :| 0 <= i5 < |s| && s[i5].z == b.hi.z;
    FaceMapped(s[i0], b.lo, f);
    FaceMapped(s[i1], b.hi, f);
    FaceMapped(s[i2], b.lo, f);
    FaceMapped(s[i3], b.hi, f);
    FaceMapped(s[i4], b.lo, f);
    FaceMapped(s[i5], b.hi, f);
    assert t[i0].x == c.lo.x && t[i1].x == c.hi.x;
    assert t[i2].y == c.lo.y && t[i3].y == c.hi.y;
    assert t[i4].z == c.lo.z && t[i5].z == c.hi.z;
  }

  /** A vertex on a face of the box is mapped onto the mapped face. */
  lemma FaceMapped(v: Vec3, w: Vec3, f: Frame)
    ensures v.x == w.x ==> ToCanonical(v, f).x == ToCanonical(w, f).x
    ensures v.y == w.y ==> ToCanonical(v, f).y == ToCanonical(w, f).y
    ensures v.z == w.z ==> ToCanonical(v, f).z == ToCanonical(w, f).z
  {
  }

  lemma EnclosedMapped(s: seq<Vec3>, b: Box, f: Frame)
    requires forall i :: 0 <= i < |s| ==> Inside(s[i], b)
    requires f.scale > 0.0
    ensures forall i :: 0 <= i < |s| ==>
      Inside(ToCanonicalAll(s, f)[i], Box(ToCanonical(b.lo, f), ToCanonical(b.hi, f)))
  {
    forall i | 0 <= i < |s|
      ensures Inside(ToCanonicalAll(s, f)[i], Box(ToCanonical(b.lo, f), ToCanonical(b.hi, f)))
    {
      InsideMapped(s[i], b, f);
    }
  }

  /** The box of the normalised mesh, written out: it rests on y = 0, is
      centred on x and z, and its largest extent is exactly 1. */
  lemma CanonicalBox(b: Box)
    requires b.lo.x <= b.hi.x && b.lo.y <= b.hi.y && b.lo.z <= b.hi.z
    requires MaxDim(b) != 0.0
    ensures var f := FrameOf(b);
      var c := Box(ToCanonical(b.lo, f), ToCanonical(b.hi, f));
      && c.lo.y == 0.0
      && c.lo.x == -c.hi.x
      && c.lo.z == -c.hi.z
      && MaxDim(c) == 1.0
  {
    CanonicalPlacement(b);
    CanonicalExtent(b);
  }

  lemma CanonicalPlacement(b: Box)
    requires MaxDim(b) != 0.0
    ensures var f := FrameOf(b);
      && ToCanonical(b.lo, f).y == 0.0
      && ToCanonical(b.lo, f).x == -ToCanonical(b.hi, f).x
      && ToCanonical(b.lo, f).z == -ToCanonical(b.hi, f).z
  {
    var f := FrameOf(b);
    NegMul(b.hi.x - f.pivot.x, f.scale);
    NegMul(b.hi.z - f.pivot.z, f.scale);
  }

  lemma CanonicalExtent(b: Box)
    requires b.lo.x <= b.hi.x && b.lo.y <= b.hi.y && b.lo.z <= b.hi.z
    requires MaxDim(b) != 0.0
    ensures var f := FrameOf(b);
      MaxDim(Box(ToCanonical(b.lo, f), ToCanonical(b.hi, f))) == 1.0
  {
    var f := FrameOf(b);
    var c := Box(ToCanonical(b.lo, f), ToCanonical(b.hi, f));
    DimsMapped(b, f);
    UnitExtent(c, b, f.scale);
  }

  /** Dividing the extents by the largest one makes the largest one 1. */
  lemma UnitExtent(c: Box, b: Box, k: real)
    requires b.lo.x <= b.hi.x && b.lo.y <= b.hi.y && b.lo.z <= b.hi.z
    requires MaxDim(b) != 0.0 && k == 1.0 / MaxDim(b)
    requires Dims(c) == Scale(Dims(b), k)
    ensures MaxDim(c) == 1.0
  {
    var m := MaxDim(b);
    assert m > 0.0;
    assert MaxDim(c) == m * k by {
      ScaledMaxDim(c, Dims(b), k);
    }
    assert m * k == 1.0 by {
      Cancel(1.0, m);
    }
  }

  /** The extents of the mapped box are the scaled extents. */
  lemma DimsMapped(b: Box, f: Frame)
    ensures Dims(Box(ToCanonical(b.lo, f), ToCanonical(b.hi, f))) == Scale(Dims(b), f.scale)
  {
    SubMul(b.hi.x - f.pivot.x, b.lo.x - f.pivot.x, f.scale);
    SubMul(b.hi.y - f.pivot.y, b.lo.y - f.pivot.y, f.scale);
    SubMul(b.hi.z - f.pivot.z, b.lo.z - f.pivot.z, f.scale);
  }

  lemma NegMul(a: real, k: real)
    ensures (-a) * k == -(a * k)
  {
  }

  lemma SubMul(a: real, b: real, k: real)
    ensures a * k - b * k == (a - b) * k
  {
  }

  /** Scaling the extents by a positive factor scales the largest extent. */
  lemma ScaledMaxDim(c: Box, d: Vec3, k: real)
    requires Dims(c) == Scale(d, k) && k > 0.0
    ensures MaxDim(c) == Max2(Max2(d.x, d.y), d.z) * k
  {
    var m := Max2(Max2(d.x, d.y), d.z);
    MulMonotone(d.x, m, k);
    MulMonotone(d.y, m, k);
    MulMonotone(d.z, m, k);
  }

  /** What the pipeline relies on, for the mesh `NormalizeObj` leaves behind:
      the mapped box bounds the normalised mesh, that box rests on y = 0, is
      centred on x and z and has largest extent 1, and every vertex maps back
      exactly. */
  lemma NormalizedMesh(s: seq<Vec3>, b: Box)
    requires IsBoundingBox(s, b) && MaxDim(b) != 0.0
    ensures var f := FrameOf(b);
      var t := ToCanonicalAll(s, f);
      var c := Box(ToCanonical(b.lo, f), ToCanonical(b.hi, f));
      && IsBoundingBox(t, c)
      && c.lo.y == 0.0 && c.lo.x == -c.hi.x && c.lo.z == -c.hi.z && MaxDim(c) == 1.0
      && forall i :: 0 <= i < |s| ==> FromCanonical(t[i], f) == s[i]
  {
    var i :| 0 <= i < |s| && s[i].x == b.lo.x;
    assert Inside(s[i], b);
    CanonicalBox(b);
    BoxMapped(s, b, FrameOf(b));
    NormalizeInvertible(s, b);
  }
}
