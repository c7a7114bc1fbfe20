/** The mask rasterizer (core/editor/mask.py:133-240) and the theorem that joins it to the
    planner: the area chosen for repair is never hollowed out. Pixel values are reals. */
module RepairMask {
  import opened Wrappers
  import opened RepairGeometry
  import opened CheckResults
  import opened RepairPlanner
  import ImageHeader

  const MAX_MASK_PIXELS := 4096 * 4096

  datatype MaskError =
    | NonPositiveSize
    | NoRegions
    | TooManyPixels
    | EmptyBox(region: MaskRegion)

  datatype FileError = NotBuilt(error: MaskError) | DataTooLong

  /** The encoded picture: three equal bytes for each pixel, row by row. */
  datatype Mask = Mask(pixels: ImageHeader.Bytes, width: int, height: int, coverage: real, clamped: bool)

  /** The result of a mask request: the file, its size, its mean value and whether a region had to be clamped. */
  datatype MaskFile = MaskFile(png: ImageHeader.Bytes, width: int, height: int, coverage: real, clamped: bool)

  // ----- closed form -----------------------------------------------------------------

  function RMax(a: real, b: real): real { if b > a then b else a }

  function ClampedBox(r: Rect, width: int, height: int): Rect
  {
    var x0 := Max(0, Min(r.x0, width));
    var y0 := Max(0, Min(r.y0, height));
    Rect(x0, y0, Max(x0, Min(r.x1, width)), Max(y0, Min(r.y1, height)))
  }

  /** The clamped box, dilated; this is the rectangle that feathering measures from. */
  function Extent(region: MaskRegion, width: int, height: int): Rect
  {
    Dilate(ClampedBox(region.bbox, width, height), Max(0, region.dilate))
  }

  /** The part of the extent that is painted. */
  function PaintBox(region: MaskRegion, width: int, height: int): Rect
  {
    var e := Extent(region, width, height);
    var x0, y0 := Max(0, e.x0), Max(0, e.y0);
    Rect(x0, y0, Max(x0, Min(e.x1, width)), Max(y0, Min(e.y1, height)))
  }

  predicate OutsideImage(r: Rect, width: int, height: int)
  {
    r.x0 < 0 || r.y0 < 0 || r.x1 > width || r.y1 > height
  }

  predicate NeedsClamping(region: MaskRegion, width: int, height: int)
  {
    OutsideImage(region.bbox, width, height) || OutsideImage(Extent(region, width, height), width, height)
  }

  function DistToEdge(e: Rect, x: int, y: int): int
  {
    Min(Min(x - e.x0, e.x1 - 1 - x), Min(y - e.y0, e.y1 - 1 - y))
  }

  /** The value that one region alone gives to a pixel. */
  function RegionValue(region: MaskRegion, width: int, height: int, x: int, y: int): (v: real)
    ensures 0.0 <= v <= 1.0
  {
    if !Contains(PaintBox(region, width, height), x, y) then 0.0
    else EdgeValue(DistToEdge(Extent(region, width, height), x, y), Max(0, region.feather))
  }

  function EdgeValue(dist: int, feather: int): (v: real)
    requires 0 <= dist
    ensures 0.0 < v <= 1.0
  {
    if feather <= 0 || dist >= feather then 1.0 else Ramp(dist, feather)
  }

  function Ramp(dist: int, feather: int): (v: real)
    requires 0 <= dist < feather
    ensures 0.0 < v <= 1.0
    ensures v == 1.0 <==> dist == feather - 1
    ensures v * feather as real == (dist + 1) as real
  {
    (dist + 1) as real / feather as real
  }

  /** The union of all regions: the largest of their values. */
  function UnionValue(regions: seq<MaskRegion>, width: int, height: int, x: int, y: int): (v: real)
    ensures 0.0 <= v <= 1.0
  {
    if regions == [] then 0.0
    else RMax(UnionValue(regions[..|regions| - 1], width, height, x, y),
              RegionValue(regions[|regions| - 1], width, height, x, y))
  }

  lemma ProductOfNonNegatives(a: real, b: real)
    requires a >= 0.0 && b >= 0.0
    ensures a * b >= 0.0
  {
  }

  function Carve(painted: real, removed: real): (v: real)
    ensures 0.0 <= painted && 0.0 <= removed ==> v <= painted
    ensures 0.0 <= painted <= 1.0 && 0.0 <= removed <= 1.0 ==> 0.0 <= v <= 1.0
    ensures removed == 0.0 ==> v == painted
    ensures removed == 1.0 ==> v == 0.0
  {
    assert 0.0 <= painted && 0.0 <= removed ==> painted * (1.0 - removed) <= painted by {
      if 0.0 <= painted && 0.0 <= removed {
        ProductOfNonNegatives(painted, removed);
        assert painted * (1.0 - removed) == painted - painted * removed;
      }
    }
    assert 0.0 <= painted <= 1.0 && 0.0 <= removed <= 1.0 ==> 0.0 <= painted * (1.0 - removed) <= 1.0 by {
      if 0.0 <= painted <= 1.0 && 0.0 <= removed <= 1.0 {
        ProductOfNonNegatives(painted, 1.0 - removed);
        ProductOfNonNegatives(painted, removed);
        assert painted * (1.0 - removed) == painted - painted * removed;
      }
    }
    painted * (1.0 - removed)
  }

  function MaskValue(regions: seq<MaskRegion>, subtract: seq<MaskRegion>, width: int, height: int, x: int, y: int)
    : (v: real)
    ensures 0.0 <= v <= 1.0
  {
    Carve(UnionValue(regions, width, height, x, y), UnionValue(subtract, width, height, x, y))
  }

  /** Python's round: to the nearest integer, ties to the even one. */
  function Round(v: real): int
  {
    var below := v.Floor;
    var rest := v - below as real;
    if rest < 0.5 then below
    else if rest > 0.5 then below + 1
    else if below % 2 == 0 then below
    else below + 1
  }

  function Level(v: real): ImageHeader.Byte
  {
    Max(0, Min(255, Round(v * 255.0)))
  }

  /** The byte nearest to 255 times the value; of two equally near ones, the even one. */
  predicate Nearest(b: int, v: real)
  {
    && 0 <= b <= 255
    && (2 * b - 1) as real <= 510.0 * v <= (2 * b + 1) as real
    && (510.0 * v == (2 * b - 1) as real || 510.0 * v == (2 * b + 1) as real ==> b % 2 == 0)
  }

  lemma LevelIsNearest(v: real)
    requires 0.0 <= v <= 1.0
    ensures Nearest(Level(v), v)
  {
    var below := (v * 255.0).Floor;
    assert 0 <= below <= 255;
  }

  /** There is only one such byte; it is 0 exactly up to half a level and 255 from the last half level on. */
  lemma NearestIsUnique(b: int, c: int, v: real)
    requires Nearest(b, v) && Nearest(c, v)
    ensures b == c
    ensures b == 0 <==> 510.0 * v <= 1.0
    ensures b == 255 <==> 510.0 * v > 509.0
  {
  }

  /** The union value is the least upper bound of the region values, so it does not depend
      on the order of the regions, nor on how often one occurs. */
  lemma {:induction false} UnionIsTheMaximum(regions: seq<MaskRegion>, width: int, height: int, x: int, y: int)
    ensures forall r | r in regions :: RegionValue(r, width, height, x, y) <= UnionValue(regions, width, height, x, y)
    ensures UnionValue(regions, width, height, x, y) == 0.0
         || exists r | r in regions :: RegionValue(r, width, height, x, y) == UnionValue(regions, width, height, x, y)
  {
    if regions != [] {
      var last := |regions| - 1;
      UnionIsTheMaximum(regions[..last], width, height, x, y);
      assert regions == regions[..last] + [regions[last]];
      assert regions[last] in regions;
    }
  }

  lemma UnionIgnoresOrder(a: seq<MaskRegion>, b: seq<MaskRegion>, width: int, height: int, x: int, y: int)
    requires forall r :: r in a <==> r in b
    ensures UnionValue(a, width, height, x, y) == UnionValue(b, width, height, x, y)
  {
    UnionIsTheMaximum(a, width, height, x, y);
    UnionIsTheMaximum(b, width, height, x, y);
  }

  // ----- rasterizing in place ----------------------------------------------------------

  function Col(i: int, width: int): int requires width > 0 { i % width }
  function Row(i: int, width: int): int requires width > 0 { i / width }

  lemma PixelIndex(x: int, y: int, width: int, height: int)
    requires 0 <= x < width && 0 <= y < height
    ensures 0 <= y * width + x < width * height
    ensures Col(y * width + x, width) == x && Row(y * width + x, width) == y
  {
    assert y * width + width <= height * width by {
      MulMonotone(y + 1, height, width);
    }
    DivModUnique(y * width + x, y, x, width);
  }

  lemma MulMonotone(a: int, b: int, w: int)
    requires a <= b && w >= 0
    ensures a * w <= b * w
  {
    assert (b - a) * w >= 0;
  }

  lemma DivModUnique(i: int, q: int, r: int, w: int)
    requires w > 0 && i == q * w + r && 0 <= r < w
    ensures i / w == q && i % w == r
  {
    var d := i / w - q;
    assert i == (i / w) * w + i % w;
    assert d * w == r - i % w;
    if d >= 1 { MulMonotone(1, d, w); }
    if d <= -1 { MulMonotone(d, -1, w); }
  }

  lemma PixelOfIndex(i: int, width: int, height: int)
    requires width > 0 && height > 0 && 0 <= i < width * height
    ensures 0 <= Col(i, width) < width && 0 <= Row(i, width) < height
    ensures i == Row(i, width) * width + Col(i, width)
  {
    var row := i / width;
    if row >= height { MulMonotone(height, row, width); }
    if row < 0 { MulMonotone(row, -1, width); }
  }

  /** target[i] after the pixels before (x, y), in row order, have been merged. */
  ghost predicate MergedUpTo(
      now: seq<real>, was: seq<real>, region: MaskRegion, width: int, height: int, x: int, y: int)
    requires width > 0 && |now| == |was|
  {
    forall i | 0 <= i < |now| ::
      now[i] == if Row(i, width) < y || (Row(i, width) == y && Col(i, width) < x)
                then RMax(was[i], RegionValue(region, width, height, Col(i, width), Row(i, width)))
                else was[i]
  }

  ghost predicate Merged(now: seq<real>, was: seq<real>, region: MaskRegion, width: int, height: int)
    requires width > 0 && |now| == |was|
  {
    forall i | 0 <= i < |now| ::
      now[i] == RMax(was[i], RegionValue(region, width, height, Col(i, width), Row(i, width)))
  }

  ghost predicate UnitValues(values: seq<real>)
  {
    forall i | 0 <= i < |values| :: 0.0 <= values[i] <= 1.0
  }

  lemma MergeSkipsOutside(
      now: seq<real>, was: seq<real>, region: MaskRegion, width: int, height: int, x: int, y: int, x': int, y': int)
    requires width > 0 && |now| == |was| == width * height && height > 0 && UnitValues(was)
    requires MergedUpTo(now, was, region, width, height, x, y)
    requires forall c, r | 0 <= c < width && 0 <= r < height
               && (r < y || (r == y && c < x)) != (r < y' || (r == y' && c < x'))
               :: !Contains(PaintBox(region, width, height), c, r)
    ensures MergedUpTo(now, was, region, width, height, x', y')
  {
    forall i | 0 <= i < |now|
      ensures now[i] == if Row(i, width) < y' || (Row(i, width) == y' && Col(i, width) < x')
                        then RMax(was[i], RegionValue(region, width, height, Col(i, width), Row(i, width)))
                        else was[i]
    {
      PixelOfIndex(i, width, height);
      assert 0.0 <= was[i];
    }
  }

  /** The larger value stays. */
  method MergePixel(target: array<real>, idx: int, value: real)
    requires 0 <= idx < target.Length
    modifies target
    ensures target[..] == old(target[..])[idx := RMax(old(target[idx]), value)]
  {
    if value > target[idx] {
      target[idx] := value;
    }
  }

  method AccumulateRegion(target: array<real>, width: int, height: int, region: MaskRegion)
    returns (r: Result<bool, MaskError>)
    requires width > 0 && height > 0 && target.Length == width * height
    requires UnitValues(target[..])
    modifies target
    ensures r.Ok? <==> WellFormed(region.bbox)
    ensures r.Err? ==> r.error == EmptyBox(region) && target[..] == old(target[..])
    ensures r.Ok? ==> r.value == NeedsClamping(region, width, height)
    ensures r.Ok? ==> Merged(target[..], old(target[..]), region, width, height)
    ensures UnitValues(target[..])
  {
    if !WellFormed(region.bbox) {
      return Err(EmptyBox(region));
    }
    var e := Extent(region, width, height);
    var f := PaintBox(region, width, height);
    var feather := Max(0, region.feather);
    ghost var was := target[..];
    MergeSkipsOutside(was, was, region, width, height, 0, 0, f.x0, f.y0);
    var y := f.y0;
    while y < f.y1
      invariant f.y0 <= y <= f.y1
      invariant MergedUpTo(target[..], was, region, width, height, f.x0, y)
    {
      var x := f.x0;
      while x < f.x1
        invariant f.x0 <= x <= f.x1
        invariant MergedUpTo(target[..], was, region, width, height, x, y)
      {
        PixelIndex(x, y, width, height);
        var idx := y * width + x;
        var dist := DistToEdge(e, x, y);
        var value := if feather <= 0 || dist >= feather then 1.0 else Ramp(dist, feather);
        ghost var now := target[..];
        MergePixel(target, idx, value);
        MergeOnePixel(now, target[..], was, region, width, height, x, y);
        x := x + 1;
      }
      MergeSkipsOutside(target[..], was, region, width, height, f.x1, y, f.x0, y + 1);
      y := y + 1;
    }
    MergeSkipsOutside(target[..], was, region, width, height, f.x0, y, 0, height);
    MergeIsComplete(target[..], was, region, width, height);
    return Ok(NeedsClamping(region, width, height));
  }

  lemma MergeOnePixel(
      now: seq<real>, next: seq<real>, was: seq<real>, region: MaskRegion, width: int, height: int, x: int, y: int)
    requires 0 <= x < width && 0 <= y < height && |now| == |next| == |was| == width * height
    requires 0 <= y * width + x < width * height
    requires MergedUpTo(now, was, region, width, height, x, y)
    requires next == now[y * width + x := RMax(now[y * width + x], RegionValue(region, width, height, x, y))]
    ensures MergedUpTo(next, was, region, width, height, x + 1, y)
  {
    var idx := y * width + x;
    PixelIndex(x, y, width, height);
    forall i | 0 <= i < |next|
      ensures next[i] == if Row(i, width) < y || (Row(i, width) == y && Col(i, width) < x + 1)
                         then RMax(was[i], RegionValue(region, width, height, Col(i, width), Row(i, width)))
                         else was[i]
    {
      PixelOfIndex(i, width, height);
    }
  }

  lemma MergeIsComplete(now: seq<real>, was: seq<real>, region: MaskRegion, width: int, height: int)
    requires width > 0 && height > 0 && |now| == |was| == width * height
    requires UnitValues(was)
    requires MergedUpTo(now, was, region, width, height, 0, height)
    ensures Merged(now, was, region, width, height) && UnitValues(now)
  {
    forall i | 0 <= i < |now|
      ensures now[i] == RMax(was[i], RegionValue(region, width, height, Col(i, width), Row(i, width)))
    {
      PixelOfIndex(i, width, height);
    }
  }

  // ----- the whole mask ------------------------------------------------------------------

  ghost predicate IsUnion(values: seq<real>, regions: seq<MaskRegion>, width: int, height: int)
    requires width > 0
  {
    forall i | 0 <= i < |values| ::
      values[i] == UnionValue(regions, width, height, Col(i, width), Row(i, width))
  }

  method RasterizeUnion(regions: seq<MaskRegion>, width: int, height: int)
    returns (union: array<real>, r: Result<bool, MaskError>)
    requires width > 0 && height > 0
    ensures fresh(union) && union.Length == width * height && UnitValues(union[..])
    ensures r.Ok? <==> forall q | q in regions :: WellFormed(q.bbox)
    ensures r.Err? ==> exists q | q in regions :: r.error == EmptyBox(q)
    ensures r.Ok? ==> IsUnion(union[..], regions, width, height)
    ensures r.Ok? ==> (r.value <==> exists q | q in regions :: NeedsClamping(q, width, height))
  {
    assert width * height >= 0 by { MulMonotone(0, width, height); }
    union := new real[width * height](_ => 0.0);
    var clamped := false;
    for k := 0 to |regions|
      invariant fresh(union) && union.Length == width * height && UnitValues(union[..])
      invariant forall q | q in regions[..k] :: WellFormed(q.bbox)
      invariant IsUnion(union[..], regions[..k], width, height)
      invariant clamped <==> exists q | q in regions[..k] :: NeedsClamping(q, width, height)
    {
      ghost var was := union[..];
      var one := AccumulateRegion(union, width, height, regions[k]);
      assert regions[..k + 1][..k] == regions[..k];
      assert regions[..k + 1] == regions[..k] + [regions[k]];
      if one.Err? {
        return union, Err(one.error);
      }
      clamped := one.value || clamped;
    }
    assert regions[..|regions|] == regions;
    return union, Ok(clamped);
  }

  /** Three equal bytes for each pixel, row by row: the ones nearest to 255 times the mask's value there. */
  ghost predicate MaskIs(pixels: seq<int>, regions: seq<MaskRegion>, subtract: seq<MaskRegion>, width: int, height: int)
    requires width > 0
  {
    && |pixels| == 3 * (width * height)
    && forall i | 0 <= i < width * height ::
         && pixels[3 * i] == pixels[3 * i + 1] == pixels[3 * i + 2]
         && Nearest(pixels[3 * i], MaskValue(regions, subtract, width, height, Col(i, width), Row(i, width)))
  }

  ghost predicate IsMask(
      values: seq<real>, regions: seq<MaskRegion>, subtract: seq<MaskRegion>, width: int, height: int)
    requires width > 0
  {
    forall i | 0 <= i < |values| ::
      values[i] == MaskValue(regions, subtract, width, height, Col(i, width), Row(i, width))
  }

  method CarveOut(union: array<real>, carved: array<real>)
    requires union.Length == carved.Length && union != carved
    modifies union
    ensures forall j | 0 <= j < union.Length :: union[j] == Carve(old(union[j]), carved[j])
  {
    for i := 0 to union.Length
      invariant forall j | 0 <= j < union.Length ::
        union[j] == if j < i then Carve(old(union[j]), carved[j]) else old(union[j])
    {
      union[i] := Carve(union[i], carved[i]);
    }
  }

  lemma CarvedUnionIsMask(now: seq<real>, was: seq<real>, carved: seq<real>,
                          regions: seq<MaskRegion>, subtract: seq<MaskRegion>, width: int, height: int)
    requires width > 0 && |now| == |was| == |carved|
    requires IsUnion(was, regions, width, height) && IsUnion(carved, subtract, width, height)
    requires forall j | 0 <= j < |now| :: now[j] == Carve(was[j], carved[j])
    ensures IsMask(now, regions, subtract, width, height) && UnitValues(now)
  {
    forall i | 0 <= i < |now|
      ensures now[i] == MaskValue(regions, subtract, width, height, Col(i, width), Row(i, width))
    {
      assert was[i] == UnionValue(regions, width, height, Col(i, width), Row(i, width));
    }
  }

  lemma UncarvedUnionIsMask(now: seq<real>, regions: seq<MaskRegion>, width: int, height: int)
    requires width > 0 && IsUnion(now, regions, width, height)
    ensures IsMask(now, regions, [], width, height)
  {
    forall i | 0 <= i < |now|
      ensures now[i] == MaskValue(regions, [], width, height, Col(i, width), Row(i, width))
    {
      var x, y := Col(i, width), Row(i, width);
      assert UnionValue([], width, height, x, y) == 0.0;
    }
  }

  /** The sum of the mask's values at the first n pixels, row by row. */
  function MaskSum(regions: seq<MaskRegion>, subtract: seq<MaskRegion>, width: int, height: int, n: nat): real
    requires width > 0
  {
    if n == 0 then 0.0
    else
      MaskSum(regions, subtract, width, height, n - 1)
      + MaskValue(regions, subtract, width, height, Col(n - 1, width), Row(n - 1, width))
  }

  function SumOf(values: seq<real>): real
  {
    if values == [] then 0.0 else SumOf(values[..|values| - 1]) + values[|values| - 1]
  }

  lemma {:induction false} SumOfMask(values: seq<real>, regions: seq<MaskRegion>, subtract: seq<MaskRegion>,
                                     width: int, height: int)
    requires width > 0 && IsMask(values, regions, subtract, width, height)
    ensures SumOf(values) == MaskSum(regions, subtract, width, height, |values|)
  {
    if values != [] {
      SumOfMask(values[..|values| - 1], regions, subtract, width, height);
    }
  }

  /** The mean value of the mask over all pixels. */
  function MeanValue(regions: seq<MaskRegion>, subtract: seq<MaskRegion>, width: int, height: int): real
    requires width > 0 && width * height > 0
  {
    MaskSum(regions, subtract, width, height, width * height) / (width * height) as real
  }

  ghost predicate AllAre(regions: seq<MaskRegion>, subtract: seq<MaskRegion>, width: int, height: int, n: nat, v: real)
    requires width > 0
  {
    forall i | 0 <= i < n :: MaskValue(regions, subtract, width, height, Col(i, width), Row(i, width)) == v
  }

  ghost predicate AtExtremes(sum: real, n: nat, ones: bool, zeros: bool)
  {
    0.0 <= sum <= n as real && (sum == n as real <==> ones) && (sum == 0.0 <==> zeros)
  }

  lemma ExtremesOneMore(sum: real, n: nat, ones: bool, zeros: bool, v: real)
    requires AtExtremes(sum, n, ones, zeros) && 0.0 <= v <= 1.0
    ensures AtExtremes(sum + v, n + 1, ones && v == 1.0, zeros && v == 0.0)
  {
  }

  ghost predicate Constant(values: seq<real>, v: real)
  {
    forall i | 0 <= i < |values| :: values[i] == v
  }

  lemma {:induction false} SumExtremes(values: seq<real>)
    requires UnitValues(values)
    ensures AtExtremes(SumOf(values), |values|, Constant(values, 1.0), Constant(values, 0.0))
  {
    if values != [] {
      var n := |values| - 1;
      var rest := values[..n];
      SumExtremes(rest);
      ExtremesOneMore(SumOf(rest), n, Constant(rest, 1.0), Constant(rest, 0.0), values[n]);
      assert forall v :: Constant(values, v) <==> Constant(rest, v) && values[n] == v;
    }
  }

  function MaskValues(regions: seq<MaskRegion>, subtract: seq<MaskRegion>, width: int, height: int, n: nat)
    : (values: seq<real>)
    requires width > 0
    ensures |values| == n && IsMask(values, regions, subtract, width, height) && UnitValues(values)
  {
    seq(n, i requires 0 <= i < n => MaskValue(regions, subtract, width, height, Col(i, width), Row(i, width)))
  }

  /** The coverage is 1.0 exactly if every pixel is repainted in full, and 0.0 exactly if none is repainted at all. */
  lemma CoverageExtremes(regions: seq<MaskRegion>, subtract: seq<MaskRegion>, width: int, height: int)
    requires width > 0 && width * height > 0
    ensures var mean, n := MeanValue(regions, subtract, width, height), width * height;
      && 0.0 <= mean <= 1.0
      && (mean == 1.0 <==> AllAre(regions, subtract, width, height, n, 1.0))
      && (mean == 0.0 <==> AllAre(regions, subtract, width, height, n, 0.0))
  {
    var values := MaskValues(regions, subtract, width, height, width * height);
    SumOfMask(values, regions, subtract, width, height);
    SumExtremes(values);
    ShareExtremes(MaskSum(regions, subtract, width, height, width * height), width * height);
  }

  lemma ShareExtremes(sum: real, n: int)
    requires n > 0 && 0.0 <= sum <= n as real
    ensures 0.0 <= sum / n as real <= 1.0
    ensures sum / n as real == 1.0 <==> sum == n as real
    ensures sum / n as real == 0.0 <==> sum == 0.0
  {
    assert sum / n as real * n as real == sum;
  }

  lemma MeanOfUnitValues(sum: real, n: int)
    requires n > 0 && 0.0 <= sum <= n as real
    ensures 0.0 <= sum / n as real <= 1.0
  {
  }

  lemma EncodedMask(pixels: seq<int>, values: seq<real>, regions: seq<MaskRegion>, subtract: seq<MaskRegion>,
                    width: int, height: int)
    requires width > 0 && |values| == width * height && |pixels| == 3 * |values|
    requires IsMask(values, regions, subtract, width, height)
    requires forall i | 0 <= i < |values| ::
      pixels[3 * i] == pixels[3 * i + 1] == pixels[3 * i + 2] == Level(values[i])
    ensures MaskIs(pixels, regions, subtract, width, height)
  {
    forall i | 0 <= i < width * height
      ensures pixels[3 * i] == pixels[3 * i + 1] == pixels[3 * i + 2]
      ensures Nearest(pixels[3 * i], MaskValue(regions, subtract, width, height, Col(i, width), Row(i, width)))
    {
      LevelIsNearest(values[i]);
      assert values[i] == MaskValue(regions, subtract, width, height, Col(i, width), Row(i, width));
    }
  }

  /** All boxes are non-empty, there is a region, and the image is within the cap. */
  ghost predicate Buildable(width: int, height: int, regions: seq<MaskRegion>, subtract: seq<MaskRegion>)
  {
    && width > 0 && height > 0 && regions != [] && width * height <= MAX_MASK_PIXELS
    && (forall q | q in regions + subtract :: WellFormed(q.bbox))
  }

  /** Accepts exactly the buildable requests. */
  method BuildMask(width: int, height: int, regions: seq<MaskRegion>, subtract: seq<MaskRegion>)
    returns (r: Result<Mask, MaskError>)
    ensures r.Ok? <==> Buildable(width, height, regions, subtract)
    ensures r.Ok? ==>
      && r.value.width == width && r.value.height == height
      && MaskIs(r.value.pixels, regions, subtract, width, height)
      && width * height > 0 && r.value.coverage == MeanValue(regions, subtract, width, height)
      && 0.0 <= r.value.coverage <= 1.0
      && (r.value.clamped <==> exists q | q in regions + subtract :: NeedsClamping(q, width, height))
  {
    if width <= 0 || height <= 0 {
      return Err(NonPositiveSize);
    }
    if regions == [] {
      return Err(NoRegions);
    }
    var total := width * height;
    if total > MAX_MASK_PIXELS {
      return Err(TooManyPixels);
    }
    var union, first := RasterizeUnion(regions, width, height);
    if first.Err? {
      return Err(first.error);
    }
    var clamped := first.value;
    if subtract != [] {
      var carved, second := RasterizeUnion(subtract, width, height);
      if second.Err? {
        return Err(second.error);
      }
      clamped := clamped || second.value;
      ghost var was := union[..];
      CarveOut(union, carved);
      CarvedUnionIsMask(union[..], was, carved[..], regions, subtract, width, height);
    } else {
      UncarvedUnionIsMask(union[..], regions, width, height);
    }
    var pixels, sum := Encode(union);
    assert total > 0 by { PixelIndex(0, 0, width, height); }
    MeanOfUnitValues(sum, total);
    SumOfMask(union[..], regions, subtract, width, height);
    EncodedMask(pixels, union[..], regions, subtract, width, height);
    return Ok(Mask(pixels, width, height, sum / total as real, clamped));
  }

  lemma SumOneMore(values: seq<real>, i: nat)
    requires i < |values|
    ensures SumOf(values[..i + 1]) == SumOf(values[..i]) + values[i]
  {
    assert values[..i + 1][..i] == values[..i];
  }

  method Encode(values: array<real>) returns (pixels: ImageHeader.Bytes, sum: real)
    requires UnitValues(values[..])
    ensures |pixels| == 3 * values.Length
    ensures forall i | 0 <= i < values.Length ::
      pixels[3 * i] == pixels[3 * i + 1] == pixels[3 * i + 2] == Level(values[i])
    ensures sum == SumOf(values[..]) && 0.0 <= sum <= values.Length as real
  {
    sum := 0.0;
    var bytes := new ImageHeader.Byte[3 * values.Length](_ => 0);
    ghost var all := values[..];
    for i := 0 to values.Length
      invariant values[..] == all
      invariant sum == SumOf(all[..i]) && 0.0 <= sum <= i as real
      invariant forall j | 0 <= j < i ::
        bytes[3 * j] == bytes[3 * j + 1] == bytes[3 * j + 2] == Level(values[j])
    {
      SumOneMore(all, i);
      assert 0.0 <= all[i] <= 1.0;
      sum := sum + values[i];
      var level := Level(values[i]);
      var base := 3 * i;
      bytes[base] := level;
      bytes[base + 1] := level;
      bytes[base + 2] := level;
    }
    assert all[..values.Length] == all;
    pixels := bytes[..];
  }

  lemma ThreeBytesEach(width: int, height: int)
    ensures 3 * (width * height) == width * 3 * height
  {
  }

  /** The file, none if its data is too long for the format. */
  method EncodeMask(mask: Mask, k: ImageHeader.Codec) returns (png: Option<ImageHeader.Bytes>)
    requires 0 < mask.width && 0 < mask.height && |mask.pixels| == 3 * (mask.width * mask.height)
    requires mask.width * mask.height <= MAX_MASK_PIXELS
    ensures png.None? ==> exists b :: |k.deflate(b)| >= ImageHeader.U32_LIMIT
    ensures png.Some? && ImageHeader.Sound(k) ==>
      ImageHeader.DecodePng(png.value, k) == Some((mask.width, mask.height, mask.pixels))
  {
    var width, height := mask.width, mask.height;
    ThreeBytesEach(width, height);
    MulMonotone(1, height, width);
    MulMonotone(1, width, height);
    png := ImageHeader.WritePngRgb(width, height, mask.pixels, k);
    if png.None? {
      assert |k.deflate(ImageHeader.Scanlines(mask.pixels, width * 3, height))| >= ImageHeader.U32_LIMIT;
    } else if ImageHeader.Sound(k) {
      ImageHeader.PngRoundTrip(width, height, mask.pixels, k);
    }
  }

  /** The whole request, from regions to a file: the file decodes, for every sound codec, to an image of the requested
      size whose every byte is the level of the closed form. */
  method BuildMaskPng(width: int, height: int, regions: seq<MaskRegion>, subtract: seq<MaskRegion>,
                      k: ImageHeader.Codec)
    returns (r: Result<MaskFile, FileError>)
    ensures r.Err? && r.error.NotBuilt? <==> !Buildable(width, height, regions, subtract)
    ensures r.Err? && r.error.DataTooLong? ==> exists b :: |k.deflate(b)| >= ImageHeader.U32_LIMIT
    ensures r.Ok? ==>
      && r.value.width == width && r.value.height == height && width * height > 0
      && r.value.coverage == MeanValue(regions, subtract, width, height)
      && (r.value.clamped <==> exists q | q in regions + subtract :: NeedsClamping(q, width, height))
    ensures r.Ok? && ImageHeader.Sound(k) ==>
      var image := ImageHeader.DecodePng(r.value.png, k);
      && image.Some? && image.value.0 == width && image.value.1 == height
      && MaskIs(image.value.2, regions, subtract, width, height)
  {
    var built := BuildMask(width, height, regions, subtract);
    if built.Err? {
      return Err(NotBuilt(built.error));
    }
    var mask := built.value;
    var png := EncodeMask(mask, k);
    if png.None? {
      return Err(DataTooLong);
    }
    return Ok(MaskFile(png.value, width, height, mask.coverage, mask.clamped));
  }

  // ----- the chosen area is never hollowed out --------------------------------------------

  /** A region without dilation and feathering paints exactly its own pixels of the image. */
  lemma SharpRegionValue(box: Rect, width: int, height: int, x: int, y: int)
    requires 0 <= x < width && 0 <= y < height
    ensures RegionValue(MaskRegion(box, 0, 0), width, height, x, y) == if Contains(box, x, y) then 1.0 else 0.0
  {
  }

  lemma {:induction false} SharpUnionValue(boxes: seq<Rect>, width: int, height: int, x: int, y: int)
    requires 0 <= x < width && 0 <= y < height
    ensures UnionValue(SharpRegions(boxes), width, height, x, y) == if Covered(boxes, x, y) then 1.0 else 0.0
  {
    if boxes != [] {
      var last := |boxes| - 1;
      var box := boxes[last];
      assert SharpRegions(boxes)[..last] == SharpRegions(boxes[..last]);
      SharpUnionValue(boxes[..last], width, height, x, y);
      SharpRegionValue(box, width, height, x, y);
      assert boxes == boxes[..last] + [box];
      CoveredSnoc(boxes[..last], box, x, y);
    }
  }

  lemma CoveredSnoc(boxes: seq<Rect>, box: Rect, x: int, y: int)
    ensures Covered(boxes + [box], x, y) <==> Covered(boxes, x, y) || Contains(box, x, y)
  {
    CoveredConcat(boxes, [box], x, y);
    assert box in [box];
  }

  /** A dilated region is fully white on its own raw box when the feather is no wider than the dilation plus one. */
  lemma RawBoxIsFullyPainted(box: Rect, dilate: int, feather: int, width: int, height: int, x: int, y: int)
    requires dilate >= 0 && feather <= dilate + 1
    requires 0 <= x < width && 0 <= y < height && Contains(box, x, y)
    ensures RegionValue(MaskRegion(box, dilate, feather), width, height, x, y) == 1.0
  {
  }

  lemma ChosenBoxIsARegion(chosen: seq<CheckResult>, c: CheckResult)
    requires c in chosen && c.bbox.Some?
    ensures c.bbox.value in RawBoxes(chosen)
  {
  }

  /** Every in-image pixel of every chosen fail's raw box keeps the full value, whatever passed boxes overlap it. */
  lemma ChosenAreaIsNeverHollowedOut(
      chosen: seq<CheckResult>, results: seq<CheckResult>, dilate: int, feather: int, threshold: real,
      width: int, height: int, c: CheckResult, x: int, y: int)
    requires dilate >= 0 && feather <= dilate + 1
    requires c in chosen && c.bbox.Some? && Contains(c.bbox.value, x, y)
    requires 0 <= x < width && 0 <= y < height
    ensures MaskValue(RegionsOf(RawBoxes(chosen), dilate, feather),
                      SharpRegions(SubtractBoxes(results, RawBoxes(chosen), dilate, threshold)),
                      width, height, x, y) == 1.0
  {
    var raws := RawBoxes(chosen);
    ChosenBoxIsARegion(chosen, c);
    assert Covered(raws, x, y);
    SubtractedPixels(results, raws, dilate, threshold, x, y);
    SharpUnionValue(SubtractBoxes(results, raws, dilate, threshold), width, height, x, y);

    var regions := RegionsOf(raws, dilate, feather);
    UnionIsTheMaximum(regions, width, height, x, y);
    var k :| 0 <= k < |raws| && raws[k] == c.bbox.value;
    assert regions[k] in regions;
    RawBoxIsFullyPainted(raws[k], dilate, feather, width, height, x, y);
  }

  /** Everywhere else the mask is the union of the regions with the separate passed details cut out sharply. */
  lemma MaskClosedForm(
      chosen: seq<CheckResult>, results: seq<CheckResult>, dilate: int, feather: int, threshold: real,
      width: int, height: int, x: int, y: int)
    requires dilate >= 0 && 0 <= x < width && 0 <= y < height
    ensures var raws := RawBoxes(chosen);
      MaskValue(RegionsOf(raws, dilate, feather), SharpRegions(SubtractBoxes(results, raws, dilate, threshold)),
                width, height, x, y)
      == if !Covered(raws, x, y) && exists r | r in results :: CarvesPixel(r, raws, dilate, threshold, x, y)
         then 0.0
         else UnionValue(RegionsOf(raws, dilate, feather), width, height, x, y)
  {
    var raws := RawBoxes(chosen);
    SubtractedPixels(results, raws, dilate, threshold, x, y);
    SharpUnionValue(SubtractBoxes(results, raws, dilate, threshold), width, height, x, y);
  }

  /** The three bytes of the pixel are all this one. */
  ghost predicate Shows(mask: Mask, x: int, y: int, level: int)
    requires mask.width > 0 && |mask.pixels| == 3 * (mask.width * mask.height)
    requires 0 <= x < mask.width && 0 <= y < mask.height
  {
    PixelIndex(x, y, mask.width, mask.height);
    var i := y * mask.width + x;
    mask.pixels[3 * i] == mask.pixels[3 * i + 1] == mask.pixels[3 * i + 2] == level
  }

  lemma ExtremesAreWritten(mask: Mask, regions: seq<MaskRegion>, subtract: seq<MaskRegion>, x: int, y: int)
    requires mask.width > 0 && 0 <= x < mask.width && 0 <= y < mask.height
    requires MaskIs(mask.pixels, regions, subtract, mask.width, mask.height)
    ensures MaskValue(regions, subtract, mask.width, mask.height, x, y) == 1.0 ==> Shows(mask, x, y, 255)
    ensures MaskValue(regions, subtract, mask.width, mask.height, x, y) == 0.0 ==> Shows(mask, x, y, 0)
  {
    PixelIndex(x, y, mask.width, mask.height);
    var i := y * mask.width + x;
    var v := MaskValue(regions, subtract, mask.width, mask.height, x, y);
    assert Nearest(mask.pixels[3 * i], v);
    NearestIsUnique(mask.pixels[3 * i], mask.pixels[3 * i], v);
  }

  // ----- around the box ------------------------------------------------------------------------

  /** How far the pixel is from the box, in steps of a king; 0 inside. */
  function StepsFrom(box: Rect, x: int, y: int): int
  {
    Max(0, Max(Max(box.x0 - x, x - (box.x1 - 1)), Max(box.y0 - y, y - (box.y1 - 1))))
  }

  lemma StepsAndEdge(box: Rect, d: int, x: int, y: int)
    requires WellFormed(box) && d >= 0
    ensures StepsFrom(box, x, y) > 0 ==> DistToEdge(Dilate(box, d), x, y) == d - StepsFrom(box, x, y)
    ensures DistToEdge(Dilate(box, d), x, y) == d + DistToEdge(box, x, y)
    ensures StepsFrom(box, x, y) <= d <==> Contains(Dilate(box, d), x, y)
  {
  }

  lemma VisiblePartIsNotEmpty(box: Rect, width: int, height: int)
    requires WellFormed(box) && Overlaps(box, Rect(0, 0, width, height)) && width > 0 && height > 0
    ensures WellFormed(ClampedBox(box, width, height))
  {
  }

  lemma PaintedIff(region: MaskRegion, width: int, height: int, x: int, y: int)
    requires 0 <= x < width && 0 <= y < height
    ensures Contains(PaintBox(region, width, height), x, y) <==> Contains(Extent(region, width, height), x, y)
  {
  }

  /** v is part of whole, or all of it. */
  predicate IsShare(v: real, part: int, whole: int)
  {
    if part < whole then v * whole as real == part as real else v == 1.0
  }

  /** A region fades with the distance from the visible part of its box: t steps away, and at most dilate, it has the
      share (dilate - t + 1) / feather, at most all; further away nothing; and the share grows on inside. */
  lemma RegionFadesWithDistance(box: Rect, dilate: int, feather: int, width: int, height: int, x: int, y: int)
    requires dilate >= 0 && 0 <= x < width && 0 <= y < height
    requires Overlaps(box, Rect(0, 0, width, height)) && WellFormed(box)
    ensures var t := StepsFrom(ClampedBox(box, width, height), x, y);
      var v := RegionValue(MaskRegion(box, dilate, feather), width, height, x, y);
      && (t > dilate ==> v == 0.0)
      && (0 < t <= dilate ==> IsShare(v, dilate - t + 1, feather))
      && (t == 0 ==> IsShare(v, dilate + DistToEdge(ClampedBox(box, width, height), x, y) + 1, feather))
  {
    var region := MaskRegion(box, dilate, feather);
    VisiblePartIsNotEmpty(box, width, height);
    StepsAndEdge(ClampedBox(box, width, height), dilate, x, y);
    PaintedIff(region, width, height, x, y);
    RegionValueByDistance(region, width, height, x, y);
  }

  /** The value in terms of the distance to the edge of the dilated visible part. */
  lemma RegionValueByDistance(region: MaskRegion, width: int, height: int, x: int, y: int)
    requires region.dilate >= 0
    ensures var d := DistToEdge(Extent(region, width, height), x, y);
      var v := RegionValue(region, width, height, x, y);
      && (!Contains(PaintBox(region, width, height), x, y) ==> v == 0.0)
      && (Contains(PaintBox(region, width, height), x, y) ==>
            IsShare(v, d + 1, region.feather))
  {
    if Contains(PaintBox(region, width, height), x, y) {
      EdgeValueIsShare(DistToEdge(Extent(region, width, height), x, y), region.feather);
    }
  }

  lemma EdgeValueIsShare(dist: int, feather: int)
    requires 0 <= dist
    ensures IsShare(EdgeValue(dist, Max(0, feather)), dist + 1, feather)
  {
  }

  /** Nothing is painted outside the dilated visible part. */
  lemma OutsideIsBlank(box: Rect, dilate: int, feather: int, width: int, height: int, x: int, y: int)
    requires dilate >= 0 && !Contains(Dilate(ClampedBox(box, width, height), dilate), x, y)
    ensures RegionValue(MaskRegion(box, dilate, feather), width, height, x, y) == 0.0
  {
  }

  /** The box is not so far beyond an edge that the strip painted along that edge leaves the dilated box. */
  predicate StaysNear(box: Rect, dilate: int, width: int, height: int)
  {
    || dilate == 0
    || (&& box.x0 <= Max(width, dilate) && (0 <= box.x1 || width <= box.x1 + dilate)
        && box.y0 <= Max(height, dilate) && (0 <= box.y1 || height <= box.y1 + dilate))
  }

  /** A box beyond an edge of the image is clamped to that edge and dilated from there, so that a strip of the image
      may be painted that the dilated box does not reach. This happens exactly if the box does not stay near. */
  lemma PaintsOnlyTheDilatedBoxIff(box: Rect, dilate: int, feather: int, width: int, height: int)
    requires WellFormed(box) && dilate >= 0 && width > 0 && height > 0
    ensures StaysNear(box, dilate, width, height) <==>
      forall x, y | 0 <= x < width && 0 <= y < height && !Contains(Dilate(box, dilate), x, y) ::
        RegionValue(MaskRegion(box, dilate, feather), width, height, x, y) == 0.0
  {
    var paint := PaintBox(MaskRegion(box, dilate, feather), width, height);
    if !StaysNear(box, dilate, width, height) {
      var x := if box.x1 < 0 && box.x1 + dilate < width then Max(0, box.x1 + dilate) else paint.x0;
      var y := if box.y1 < 0 && box.y1 + dilate < height then Max(0, box.y1 + dilate) else paint.y0;
      assert Contains(paint, x, y) && !Contains(Dilate(box, dilate), x, y);
      assert RegionValue(MaskRegion(box, dilate, feather), width, height, x, y) > 0.0;
    }
  }

  /** Clamping is reported exactly if some pixel of the dilated box lies outside the image. */
  lemma ClampingIff(region: MaskRegion, width: int, height: int)
    requires WellFormed(region.bbox) && width > 0 && height > 0
    ensures NeedsClamping(region, width, height) <==>
      exists x, y :: Contains(Dilate(region.bbox, Max(0, region.dilate)), x, y)
                     && !Contains(Rect(0, 0, width, height), x, y)
  {
    var d := Dilate(region.bbox, Max(0, region.dilate));
    if NeedsClamping(region, width, height) {
      var x := if d.x0 < 0 then d.x0 else d.x1 - 1;
      var y := if d.y0 < 0 then d.y0 else d.y1 - 1;
      assert Contains(d, x, y) && !Contains(Rect(0, 0, width, height), x, y);
    }
  }

  // ----- the condition on the feather --------------------------------------------------------

  /** The first visible pixel of a box: no region made from that box or from one apart from it is white there when the
      feather is wider than the dilation plus one. */
  lemma FirstPixelIsGrey(box: Rect, other: Rect, dilate: int, feather: int, width: int, height: int)
    requires dilate >= 0 && feather > dilate + 1 && width > 0 && height > 0
    requires WellFormed(box) && Overlaps(box, Rect(0, 0, width, height))
    requires other == box || !Overlaps(box, other)
    ensures RegionValue(MaskRegion(other, dilate, feather), width, height, Max(0, box.x0), Max(0, box.y0)) < 1.0
  {
    var x, y := Max(0, box.x0), Max(0, box.y0);
    var dist := DistToEdge(Extent(MaskRegion(other, dilate, feather), width, height), x, y);
    if other != box {
      DeepPixelsAreInside(other, dilate, feather, width, height, x, y);
      assert Contains(box, x, y) && !Contains(other, x, y);
    }
    assert dist <= dilate;
  }

  lemma DeepPixelsAreInside(box: Rect, dilate: int, feather: int, width: int, height: int, x: int, y: int)
    requires dilate >= 0 && 0 <= x < width && 0 <= y < height
    ensures DistToEdge(Extent(MaskRegion(box, dilate, feather), width, height), x, y) > dilate ==> Contains(box, x, y)
  {
  }

  lemma WideFeatherIsGrey(raws: seq<Rect>, box: Rect, dilate: int, feather: int, subtract: seq<MaskRegion>,
                          width: int, height: int)
    requires dilate >= 0 && feather > dilate + 1 && width > 0 && height > 0
    requires WellFormed(box) && Overlaps(box, Rect(0, 0, width, height))
    requires forall q | q in raws :: q == box || !Overlaps(box, q)
    ensures MaskValue(RegionsOf(raws, dilate, feather), subtract, width, height, Max(0, box.x0), Max(0, box.y0)) < 1.0
  {
    var x, y := Max(0, box.x0), Max(0, box.y0);
    var regions := RegionsOf(raws, dilate, feather);
    UnionIsTheMaximum(regions, width, height, x, y);
    forall r | r in regions ensures RegionValue(r, width, height, x, y) < 1.0 {
      var i :| 0 <= i < |regions| && regions[i] == r;
      assert r == MaskRegion(raws[i], dilate, feather) && raws[i] in raws;
      FirstPixelIsGrey(box, raws[i], dilate, feather, width, height);
    }
  }

  lemma {:induction false} RawBoxesAreApart(chosen: seq<CheckResult>, box: Rect)
    requires PairwiseApart(chosen) && box in RawBoxes(chosen)
    ensures forall q | q in RawBoxes(chosen) :: q == box || !Overlaps(box, q)
  {
    forall q | q in RawBoxes(chosen) && q != box ensures !Overlaps(box, q) {
      var i := ResultOfBox(chosen, box);
      var j := ResultOfBox(chosen, q);
      if i < j {
        assert !BoxesOverlap(chosen[j].bbox, chosen[i].bbox);
      } else {
        assert !BoxesOverlap(chosen[i].bbox, chosen[j].bbox);
      }
    }
  }

  lemma {:induction false} ResultOfBox(chosen: seq<CheckResult>, box: Rect) returns (i: nat)
    requires box in RawBoxes(chosen)
    ensures i < |chosen| && chosen[i].bbox == Some(box)
  {
    if chosen[0].bbox == Some(box) {
      return 0;
    }
    i := ResultOfBox(chosen[1..], box);
    i := i + 1;
  }

  /** In the mask of a planned round a visible chosen box is white everywhere if and only if the feather is at most the
      dilation plus one: with a wider feather its first visible pixel is grey. */
  lemma FeatherConditionIsExact(
      chosen: seq<CheckResult>, results: seq<CheckResult>, dilate: int, feather: int, threshold: real,
      width: int, height: int, box: Rect)
    requires dilate >= 0 && width > 0 && height > 0 && PairwiseApart(chosen) && box in RawBoxes(chosen)
    requires WellFormed(box) && Overlaps(box, Rect(0, 0, width, height))
    ensures var raws := RawBoxes(chosen);
      feather <= dilate + 1 <==>
        forall x, y | 0 <= x < width && 0 <= y < height && Contains(box, x, y) ::
          MaskValue(RegionsOf(raws, dilate, feather), SharpRegions(SubtractBoxes(results, raws, dilate, threshold)),
                    width, height, x, y) == 1.0
  {
    var raws := RawBoxes(chosen);
    var subtract := SharpRegions(SubtractBoxes(results, raws, dilate, threshold));
    if feather <= dilate + 1 {
      var i := ResultOfBox(chosen, box);
      forall x, y | 0 <= x < width && 0 <= y < height && Contains(box, x, y)
        ensures MaskValue(RegionsOf(raws, dilate, feather), subtract, width, height, x, y) == 1.0
      {
        ChosenAreaIsNeverHollowedOut(chosen, results, dilate, feather, threshold, width, height, chosen[i], x, y);
      }
    } else {
      RawBoxesAreApart(chosen, box);
      WideFeatherIsGrey(raws, box, dilate, feather, subtract, width, height);
      var x, y := Max(0, box.x0), Max(0, box.y0);
      assert 0 <= x < width && 0 <= y < height && Contains(box, x, y);
      assert MaskValue(RegionsOf(raws, dilate, feather), subtract, width, height, x, y) != 1.0;
    }
  }
}
