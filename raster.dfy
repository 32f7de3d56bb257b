/** Pixel lookup through the camera (`color_at_world_pt`) and the two raster
    fills (`make_wall`, `make_floor`) of make_backdrop.py. Images are 2-D
    arrays indexed [x, y], x the column and y the row, row 0 at the top. */
module Raster {
  import opened Errors
  import opened Geometry
  import opened Sampling

  newtype Byte = x: int | 0 <= x < 256

  /** An RGBA pixel, the mode every image is converted to. */
  datatype Pixel = Rgba(r: Byte, g: Byte, b: Byte, a: Byte)

  /** The colour a new RGBA canvas starts with: transparent black. */
  const Transparent := Rgba(0, 0, 0, 0)

  /** Python's int() on a number: truncation toward zero. */
  function Trunc(x: real): (n: int)
    ensures 0.0 <= x ==> n as real <= x < n as real + 1.0
    ensures x <= 0.0 ==> n as real - 1.0 < x <= n as real
  {
    if x >= 0.0 then x.Floor else -((-x).Floor)
  }

  /** Truncation keeps the order of its arguments. */
  lemma TruncMonotone(v1: real, v2: real)
    requires v1 <= v2
    ensures Trunc(v1) <= Trunc(v2)
  {
    var n1, n2 := Trunc(v1), Trunc(v2);
    if v1 >= 0.0 {
      assert n1 as real <= v1 && v2 < n2 as real + 1.0;
      assert n1 as real < n2 as real + 1.0;
    } else if v2 >= 0.0 {
      assert n1 as real - 1.0 < v1 < 0.0;
      assert n1 <= 0;
      assert v2 < n2 as real + 1.0;
      assert n2 >= 0;
    } else {
      assert n1 as real - 1.0 < v1 && v2 <= n2 as real;
      assert n1 as real < n2 as real + 1.0;
    }
  }

  /** A value truncates into [0, n) exactly when it lies in (-1, n). */
  lemma TruncInRange(v: real, n: int)
    requires n > 0
    ensures 0 <= Trunc(v) < n <==> -1.0 < v < n as real
  {
    var k := Trunc(v);
    if v >= 0.0 {
      assert k as real <= v < k as real + 1.0;
      assert k >= 0;
      if k < n {
        assert k as real + 1.0 <= n as real;
      }
    } else {
      assert k as real - 1.0 < v <= k as real;
      if v > -1.0 {
        assert k == 0;
      }
    }
  }

  /** A value in [lo, hi), lo >= 0, truncates into the same range. */
  lemma TruncBetween(v: real, lo: int, hi: int)
    requires 0 <= lo && lo as real <= v < hi as real
    ensures lo <= Trunc(v) < hi
  {
    var n := Trunc(v);
    assert n as real <= v < n as real + 1.0;
  }

  lemma ProductMonotone(a: real, b: real, c: real)
    requires a <= b && c >= 0.0
    ensures a * c <= b * c
  {
    assert (b - a) * c >= 0.0;
  }

  lemma DivCancel(a: real, b: real)
    requires b != 0.0
    ensures (a / b) * b == a
  {
  }

  lemma Distrib(a: real, q: real, c: real)
    ensures (1.0 - a * q) * c == c - a * (q * c)
  {
  }

  /** A coordinate c scaled by a whole number n of pixels, written as
      repeated addition; ScaleIsProduct shows it is c * n. */
  function Scale(c: real, n: nat): real
  {
    if n == 0 then 0.0 else Scale(c, n - 1) + c
  }

  lemma {:induction false} ScaleIsProduct(c: real, n: nat)
    ensures Scale(c, n) == c * n as real
  {
    if n > 0 {
      ScaleIsProduct(c, n - 1);
      assert c * (n - 1) as real + c == c * n as real;
    }
  }

  /** Scaling keeps the order of coordinates. */
  lemma {:induction false} ScaleMonotone(a: real, b: real, n: nat)
    requires a <= b
    ensures Scale(a, n) <= Scale(b, n)
  {
    if n > 0 {
      ScaleMonotone(a, b, n - 1);
    }
  }

  /** A coordinate in [0, 1) scales into [0, n) for n > 0. */
  lemma {:induction false} UnitScaled(c: real, n: nat)
    requires 0.0 <= c < 1.0
    ensures 0.0 <= Scale(c, n) && (n > 0 ==> Scale(c, n) < n as real)
  {
    if n > 0 {
      UnitScaled(c, n - 1);
    }
  }

  /** The source column `ix` for a projected x in an image `width` wide:
      int(x * width), the product written as Scale(x, width) (ScaleIsProduct). */
  function Column(width: nat, x: real): int
  {
    Trunc(Scale(x, width))
  }

  /** The source row `iy` for a projected height z in an image `height`
      tall: height - 1 - int(z * height), the product written as
      Scale(z, height) (ScaleIsProduct); row 0 is the top, so heights are
      flipped. */
  function Row(height: nat, z: real): int
  {
    height - 1 - Trunc(Scale(z, height))
  }

  /** Truncation toward zero sends every projected x with x * width in
      (-1, width) to a column of the image, and nothing else. */
  lemma ColumnInRange(width: nat, x: real)
    requires width > 0
    ensures 0 <= Column(width, x) < width <==> -1.0 < Scale(x, width) < width as real
  {
    TruncInRange(Scale(x, width), width);
  }

  /** The rows of the image are reached from the heights z with z * height
      in (-1, height), and from nothing else. */
  lemma RowInRange(height: nat, z: real)
    requires height > 0
    ensures 0 <= Row(height, z) < height <==> -1.0 < Scale(z, height) < height as real
  {
    TruncInRange(Scale(z, height), height);
  }

  /** Higher points never land on a lower row. */
  lemma RowFlip(height: nat, z1: real, z2: real)
    requires z1 <= z2
    ensures Row(height, z2) <= Row(height, z1)
  {
    ScaleMonotone(z1, z2, height);
    TruncMonotone(Scale(z1, height), Scale(z2, height));
  }

  /** The height of the top edge, 1, falls just outside the image: row -1. */
  lemma TopEdgeRow(height: nat)
    ensures Row(height, 1.0) == -1
  {
    ScaleIsProduct(1.0, height);
    assert Trunc(height as real) == height;
  }

  /** A projected point inside the unit square lands on a pixel of the image. */
  lemma IndexInBounds(width: nat, height: nat, x: real, z: real)
    requires width > 0 && height > 0
    requires 0.0 <= x < 1.0 && 0.0 <= z < 1.0
    ensures 0 <= Column(width, x) < width
    ensures 0 <= Row(height, z) < height
  {
    UnitScaled(x, width);
    UnitScaled(z, height);
    ColumnInRange(width, x);
    RowInRange(height, z);
  }

  /** The image library's getpixel: a negative index counts once from the
      far edge; any other index outside the image is an IndexError. */
  function GetPixel(im: array2<Pixel>, ix: int, iy: int): (r: Result<Pixel>)
    reads im
    ensures r.Ok? <==> -im.Length0 <= ix < im.Length0 && -im.Length1 <= iy < im.Length1
    ensures r.Err? ==> r.fault == IndexOutOfRange
    ensures 0 <= ix < im.Length0 && 0 <= iy < im.Length1 ==> r == Ok(im[ix, iy])
    ensures r.Ok? && iy == -1 && 0 <= ix ==> r.value == im[ix, im.Length1 - 1]
  {
    var x := if ix < 0 then ix + im.Length0 else ix;
    var y := if iy < 0 then iy + im.Length1 else iy;
    if 0 <= x < im.Length0 && 0 <= y < im.Length1 then Ok(im[x, y]) else Err(IndexOutOfRange)
  }

  /** `color_at_world_pt`: the source pixel seen at world point wpt from the
      camera. Fails when wpt is at the camera's depth (the projection divides
      row zero) or when the pixel index lies outside the image. */
  function ColorAtWorldPt(im: array2<Pixel>, wpt: Point3): (r: Result<Pixel>)
    reads im
    ensures r == Err(ZeroDivision) <==> wpt.y == CameraPos.y
    ensures wpt.y != CameraPos.y ==>
      var p := ProjectToPlane(CameraPos, wpt).value;
      r == GetPixel(im, Column(im.Length0, p.x), Row(im.Length1, p.z))
  {
    match ProjectToPlane(CameraPos, wpt)
    case Err(f) => Err(f)
    case Ok(p) => GetPixel(im, Column(im.Length0, p.x), Row(im.Length1, p.z))
  }

  /** A world point whose projection lies in the unit square shows the pixel
      at its own column and flipped row. */
  lemma ColorInRange(im: array2<Pixel>, wpt: Point3)
    requires im.Length0 > 0 && im.Length1 > 0
    requires wpt.y != CameraPos.y
    requires var p := ProjectToPlane(CameraPos, wpt).value; 0.0 <= p.x < 1.0 && 0.0 <= p.z < 1.0
    ensures var p := ProjectToPlane(CameraPos, wpt).value;
      var ix, iy := Column(im.Length0, p.x), Row(im.Length1, p.z);
      && 0 <= ix < im.Length0 && 0 <= iy < im.Length1
      && ColorAtWorldPt(im, wpt) == Ok(im[ix, iy])
  {
    var p := ProjectToPlane(CameraPos, wpt).value;
    IndexInBounds(im.Length0, im.Length1, p.x, p.z);
  }

  // ----- Floor -----

  /** The world point floor-loop pair (bx, row) looks at: (bx / w, row / w, 0). */
  function FloorPoint(w: int, bx: int, row: int): Point3
    requires w != 0
  {
    Point3(bx as real / w as real, row as real / w as real, 0.0)
  }

  /** What floor-loop pair (bx, row) reads from the source image. */
  function FloorSample(im: array2<Pixel>, bx: int, row: int): Result<Pixel>
    reads im
    requires im.Length0 != 0
  {
    ColorAtWorldPt(im, FloorPoint(im.Length0, bx, row))
  }

  /** The fraction of the way from the camera to a point at depth wy >= 0
      where the line of sight meets the image plane. */
  lemma CameraFraction(wy: real)
    requires wy >= 0.0
    ensures var frac := (0.0 - CameraPos.y) / (wy - CameraPos.y);
      0.0 < frac <= 1.0 && frac * (wy + 2.5) == 2.5
  {
  }

  /** Every point of the floor square [0, 1) x [0, 1) at height 0 projects into
      the unit square of the source image. */
  lemma FloorProjectsIntoImage(wx: real, wy: real)
    requires 0.0 <= wx < 1.0 && 0.0 <= wy
    ensures ProjectToPlane(CameraPos, Point3(wx, wy, 0.0)).Ok?
    ensures var p := ProjectToPlane(CameraPos, Point3(wx, wy, 0.0)).value;
      0.0 <= p.x < 1.0 && 0.0 <= p.z < 1.0
  {
    var frac := (0.0 - CameraPos.y) / (wy - CameraPos.y);
    CameraFraction(wy);
    var p := ProjectToPlane(CameraPos, Point3(wx, wy, 0.0)).value;
    assert p.x == 0.5 + frac * (wx - 0.5);
    assert -0.5 * frac <= frac * (wx - 0.5) < 0.5 * frac;
    assert p.z == 1.0 - frac;
  }

  /** The floor never reads outside the source image, unless that image has
      no rows at all. */
  lemma FloorSampleOk(im: array2<Pixel>, bx: int, row: int)
    requires 0 <= bx < im.Length0 && 0 <= row < im.Length0
    ensures FloorSample(im, bx, row).Ok? <==> im.Length1 > 0
    ensures FloorSample(im, bx, row).Err? ==> FloorSample(im, bx, row).fault == IndexOutOfRange
  {
    var w := im.Length0;
    assert 0.0 <= bx as real / w as real < 1.0;
    assert 0.0 <= row as real / w as real;
    FloorProjectsIntoImage(bx as real / w as real, row as real / w as real);
    if im.Length1 > 0 {
      var p := ProjectToPlane(CameraPos, FloorPoint(w, bx, row)).value;
      IndexInBounds(w, im.Length1, p.x, p.z);
    }
  }

  /** The floor cell loop pair (bx, row) writes: the rows are flipped. */
  function FloorTarget(w: int, bx: int, row: int): (int, int)
  {
    (bx, w - 1 - row)
  }

  /** Every cell of the w x w floor is written by exactly one loop pair. */
  lemma FloorTargetsExactlyOnce(w: int, cx: int, cy: int)
    requires 0 <= cx < w && 0 <= cy < w
    ensures exists bx, row :: 0 <= bx < w && 0 <= row < w && FloorTarget(w, bx, row) == (cx, cy)
    ensures forall bx, row :: 0 <= bx < w && 0 <= row < w && FloorTarget(w, bx, row) == (cx, cy)
              ==> bx == cx && row == w - 1 - cy
  {
    assert FloorTarget(w, cx, w - 1 - cy) == (cx, cy);
  }

  /** Loop pair (0, 0), whose cell is (0, w - 1), looks at the world origin. */
  lemma FloorOrigin(im: array2<Pixel>)
    requires im.Length0 > 0
    ensures FloorSample(im, 0, 0) == ColorAtWorldPt(im, Point3(0.0, 0.0, 0.0))
  {
    assert FloorPoint(im.Length0, 0, 0) == Point3(0.0, 0.0, 0.0);
  }

  /** `make_floor`: a square canvas as wide as the source; loop pair
      (bx, row) writes cell FloorTarget(w, bx, row) = (bx, w - 1 - row) with
      what the camera sees at floor point (bx / w, row / w). With
      FloorTargetsExactlyOnce, every cell holds the sample of its one pair. */
  method MakeFloor(im: array2<Pixel>) returns (r: Result<array2<Pixel>>)
    ensures r.Ok? <==> im.Length0 == 0 || im.Length1 > 0
    ensures r.Err? ==> r.fault == IndexOutOfRange
    ensures r.Ok? ==> fresh(r.value)
    ensures r.Ok? ==> r.value.Length0 == im.Length0 && r.value.Length1 == im.Length0
    ensures r.Ok? ==> forall bx, row :: 0 <= bx < im.Length0 && 0 <= row < im.Length0 ==>
              Ok(r.value[FloorTarget(im.Length0, bx, row).0, FloorTarget(im.Length0, bx, row).1])
                == FloorSample(im, bx, row)
    ensures r.Ok? ==> forall bx, cy :: 0 <= bx < im.Length0 && 0 <= cy < im.Length0 ==>
              Ok(r.value[bx, cy]) == FloorSample(im, bx, im.Length0 - 1 - cy)
    ensures r.Ok? && im.Length0 > 0 ==> Ok(r.value[0, im.Length0 - 1]) == FloorSample(im, 0, 0)
  {
    var w := im.Length0;
    var floor := new Pixel[w, w]((_, _) => Transparent);
    for row := 0 to w
      invariant forall x, y :: 0 <= x < w && 0 <= y < row ==>
                  Ok(floor[FloorTarget(w, x, y).0, FloorTarget(w, x, y).1]) == FloorSample(im, x, y)
    {
      for bx := 0 to w
        invariant forall x, y :: 0 <= x < w && 0 <= y < row ==>
                    Ok(floor[FloorTarget(w, x, y).0, FloorTarget(w, x, y).1]) == FloorSample(im, x, y)
        invariant forall x :: 0 <= x < bx ==>
                    Ok(floor[FloorTarget(w, x, row).0, FloorTarget(w, x, row).1]) == FloorSample(im, x, row)
      {
        var p := ColorAtWorldPt(im, FloorPoint(w, bx, row));
        if p.Err? {
          FloorSampleOk(im, bx, row);
          return Err(p.fault);
        }
        var (cx, cy) := FloorTarget(w, bx, row);
        floor[cx, cy] := p.value;
      }
    }
    forall bx, cy | 0 <= bx < w && 0 <= cy < w
      ensures Ok(floor[bx, cy]) == FloorSample(im, bx, w - 1 - cy)
    {
      FloorTargetsExactlyOnce(w, bx, cy);
      assert FloorTarget(w, bx, w - 1 - cy) == (bx, cy);
    }
    if w > 0 {
      FloorSampleOk(im, 0, 0);
    }
    return Ok(floor);
  }

  // ----- Wall -----

  /** The world point of wall row `row` in the column whose curve parameter is
      t: the curve's point, at height 1 - row / height. */
  function WallPoint(t: real, row: int, height: int): Point3
    requires height != 0
  {
    var c := WallCurve()(t);
    Point3(c.x, c.y, 1.0 - row as real / height as real)
  }

  /** What wall row `row` of the column with parameter t reads from the source. */
  function WallSample(im: array2<Pixel>, t: real, row: int): Result<Pixel>
    reads im
    requires im.Length1 != 0
  {
    ColorAtWorldPt(im, WallPoint(t, row, im.Length1))
  }

  /** The top wall row lies at the camera's height 1, so it projects to
      height 1 and row index -1, which the image library reads as the last
      row: the wall's top row shows the source's bottom row. */
  lemma WallTopRowReadsBottomRow(im: array2<Pixel>, t: real)
    requires im.Length1 > 0
    requires WallCurve()(t).y != CameraPos.y
    ensures var p := ProjectToPlane(CameraPos, WallPoint(t, 0, im.Length1)).value;
      && p.z == 1.0
      && Row(im.Length1, p.z) == -1
      && WallSample(im, t, 0) == GetPixel(im, Column(im.Length0, p.x), im.Length1 - 1)
  {
    var wpt := WallPoint(t, 0, im.Length1);
    assert wpt.z == 1.0;
    var frac := (0.0 - CameraPos.y) / (wpt.y - CameraPos.y);
    var p := ProjectToPlane(CameraPos, wpt).value;
    assert p.z == 1.0 + frac * (1.0 - 1.0);
    TopEdgeRow(im.Length1);
  }

  /** Every other wall row, for a curve point at or behind the image plane,
      reads a row of the source above its bottom row. */
  lemma WallLowerRowsInRange(im: array2<Pixel>, t: real, row: int)
    requires 1 <= row < im.Length1
    requires WallCurve()(t).y >= 0.0
    ensures var p := ProjectToPlane(CameraPos, WallPoint(t, row, im.Length1)).value;
      0 <= Row(im.Length1, p.z) < im.Length1 - 1
  {
    LowerRowProjection(im.Length1, row, WallPoint(t, row, im.Length1));
  }

  /** The same for any world point at depth >= 0 and height 1 - row / h. */
  lemma LowerRowProjection(h: int, row: int, wpt: Point3)
    requires 1 <= row < h && wpt.y >= 0.0
    requires wpt.z == 1.0 - row as real / h as real
    ensures var p := ProjectToPlane(CameraPos, wpt).value;
      0 <= Row(h, p.z) < h - 1
  {
    var p := ProjectToPlane(CameraPos, wpt).value;
    LowerRowScaled(h, row, wpt);
    TruncBetween(Scale(p.z, h), h - row, h);
  }

  /** The projected height of such a point, scaled by h, lies in [h - row, h). */
  lemma LowerRowScaled(h: int, row: int, wpt: Point3)
    requires 1 <= row < h && wpt.y >= 0.0
    requires wpt.z == 1.0 - row as real / h as real
    ensures var p := ProjectToPlane(CameraPos, wpt).value;
      (h - row) as real <= Scale(p.z, h) < h as real
  {
    var frac := (0.0 - CameraPos.y) / (wpt.y - CameraPos.y);
    CameraFraction(wpt.y);
    var p := ProjectToPlane(CameraPos, wpt).value;
    var q := row as real / h as real;
    assert p.z == 1.0 + frac * (wpt.z - 1.0);
    assert p.z == 1.0 - frac * q;
    ScaleIsProduct(p.z, h);
    LowerRowHeight(frac, row, h);
  }

  /** The arithmetic of a lower wall row: its projected height 1 - frac * row / h,
      scaled by the image height h, lies in [h - row, h). */
  lemma LowerRowHeight(frac: real, row: int, h: int)
    requires 0.0 < frac <= 1.0 && 1 <= row < h
    ensures (h - row) as real <= (1.0 - frac * (row as real / h as real)) * h as real < h as real
  {
    var q := row as real / h as real;
    DivCancel(row as real, h as real);
    Distrib(frac, q, h as real);
    ProductMonotone(frac, 1.0, row as real);
    ProductMonotone(0.0, frac, row as real);
    assert 0.0 < frac * row as real;
  }

  /** The wall's width for a source `w` pixels wide and a curve of the given
      length: int(w * length), the product written as Scale(length, w)
      (ScaleIsProduct). */
  function WallWidth(w: nat, length: real): int
  {
    Trunc(Scale(length, w))
  }

  /** For a curve length >= 0 the width is w * length truncated, not rounded:
      the largest whole number of pixels not above it. */
  lemma WallWidthBounds(w: nat, length: real)
    requires length >= 0.0
    ensures 0 <= WallWidth(w, length)
    ensures WallWidth(w, length) as real <= Scale(length, w) < WallWidth(w, length) as real + 1.0
  {
    ScaleNonNegative(length, w);
  }

  lemma {:induction false} ScaleNonNegative(c: real, n: nat)
    requires 0.0 <= c
    ensures 0.0 <= Scale(c, n)
  {
    if n > 0 {
      ScaleNonNegative(c, n - 1);
    }
  }

  /** The inner loop of `make_wall`: fill column bx, top to bottom, with
      what the camera sees along the wall curve at parameter t. Stops at the
      first row whose lookup fails. */
  method FillWallColumn(im: array2<Pixel>, backdrop: array2<Pixel>, bx: nat, t: real)
    returns (r: Result<()>)
    requires backdrop != im
    requires bx < backdrop.Length0 && backdrop.Length1 == im.Length1
    modifies backdrop
    ensures forall x, y :: 0 <= x < backdrop.Length0 && x != bx && 0 <= y < backdrop.Length1 ==>
              backdrop[x, y] == old(backdrop[x, y])
    ensures r.Ok? ==> forall y :: 0 <= y < im.Length1 ==> Ok(backdrop[bx, y]) == WallSample(im, t, y)
    ensures r.Err? ==> exists y :: 0 <= y < im.Length1 && WallSample(im, t, y) == Err(r.fault)
    ensures r.Err? ==> r.fault != Unconverged
  {
    var height := backdrop.Length1;
    var c := WallCurve()(t);
    for row := 0 to height
      invariant forall x, y :: 0 <= x < backdrop.Length0 && x != bx && 0 <= y < height ==>
                  backdrop[x, y] == old(backdrop[x, y])
      invariant forall y :: 0 <= y < row ==> Ok(backdrop[bx, y]) == WallSample(im, t, y)
    {
      var wz := 1.0 - row as real / height as real;
      var p := ColorAtWorldPt(im, Point3(c.x, c.y, wz));
      assert p == WallSample(im, t, row);
      if p.Err? {
        return Err(p.fault);
      }
      backdrop[bx, row] := p.value;
    }
    return Ok(());
  }

  /** `make_wall`: a canvas int(width * curve length) wide and as tall as the
      source; column bx, for each of the width - 1 parameters `make_ts`
      yields, shows what the camera sees along the wall curve at that
      parameter. The last column is never written and stays transparent. */
  method MakeWall(im: array2<Pixel>, dist: Metric, fuel: nat)
    returns (r: Result<array2<Pixel>>, ghost ts: seq<real>)
    requires NonNegative(dist)
    ensures WallWidth(im.Length0, Chords(WallCurve(), dist, Segments)) == 0 ==> r == Err(ZeroDivision)
    ensures r.Ok? ==> fresh(r.value)
    ensures r.Ok? ==> r.value.Length0 == WallWidth(im.Length0, Chords(WallCurve(), dist, Segments))
    ensures r.Ok? ==> r.value.Length1 == im.Length1
    ensures r.Ok? ==> |ts| == r.value.Length0 - 1 && Advances(ts)
    ensures r.Ok? ==> WithinTolerance(WallCurve(), dist, Chords(WallCurve(), dist, Segments), r.value.Length0, ts)
    ensures r.Ok? ==> forall bx, row :: 0 <= bx < |ts| && 0 <= row < im.Length1 ==>
              Ok(r.value[bx, row]) == WallSample(im, ts[bx], row)
    ensures r.Ok? ==> forall row :: 0 <= row < im.Length1 ==> r.value[|ts|, row] == Transparent
    ensures r == Err(Unconverged) ==> WallWidth(im.Length0, Chords(WallCurve(), dist, Segments)) > 1
    ensures r.Err? && r.fault != Unconverged && WallWidth(im.Length0, Chords(WallCurve(), dist, Segments)) != 0 ==>
              && |ts| == WallWidth(im.Length0, Chords(WallCurve(), dist, Segments)) - 1
              && Advances(ts)
              && WithinTolerance(WallCurve(), dist, Chords(WallCurve(), dist, Segments),
                                 WallWidth(im.Length0, Chords(WallCurve(), dist, Segments)), ts)
    ensures r.Err? && r.fault != Unconverged && WallWidth(im.Length0, Chords(WallCurve(), dist, Segments)) != 0 ==>
              exists bx, row :: 0 <= bx < |ts| && 0 <= row < im.Length1 && WallSample(im, ts[bx], row) == Err(r.fault)
  {
    var curve := WallCurve();
    var curveLen := CurveLength(curve, dist);
    WallWidthBounds(im.Length0, curveLen);
    var width := WallWidth(im.Length0, curveLen);
    var height := im.Length1;
    var backdrop := new Pixel[width, height]((_, _) => Transparent);
    var sampled := MakeTs(curve, dist, curveLen, width, fuel);
    if sampled.Err? {
      return Err(sampled.fault), [];
    }
    var samples := sampled.value;
    ts := samples;
    for bx := 0 to |samples|
      invariant forall x, y :: 0 <= x < bx && 0 <= y < height ==>
                  Ok(backdrop[x, y]) == WallSample(im, samples[x], y)
      invariant forall x, y :: bx <= x < width && 0 <= y < height ==> backdrop[x, y] == Transparent
    {
      var filled := FillWallColumn(im, backdrop, bx, samples[bx]);
      if filled.Err? {
        return Err(filled.fault), samples;
      }
    }
    return Ok(backdrop), samples;
  }
}
