/**
  The raster core of `complexity.py`: every exterior-ring vertex of the land
  polygons is counted into a grid of 10 degree by 10 degree cells, the count
  grid is upscaled by block filling into an RGB image in which every cell is
  coloured from a 256-entry colour table (white when empty), and the ring
  vertices are projected to clamped pixel coordinates for drawing.
 */
module Complexity {
  // Grid axes and upscale factor (complexity.py:128-134).
  const DLon: real := 10.0
  const DLat: real := 10.0
  const NLon: nat := 36
  const NLat: nat := 18
  const Scale: nat := 100

  /** The count at which the colour scale saturates (complexity.py:200). */
  const Saturation: nat := 66

  /** A coordinate of a ring: longitude and latitude in degrees. */
  datatype Coord = Coord(lon: real, lat: real)

  type Byte = x: int | 0 <= x < 256

  /** One pixel: the three channels that are always assigned together. */
  datatype Rgb = Rgb(r: Byte, g: Byte, b: Byte)

  const White: Rgb := Rgb(255, 255, 255)
  const Black: Rgb := Rgb(0, 0, 0)

  // ---------------------------------------------------------------------
  // Binning (complexity.py:157-166)
  // ---------------------------------------------------------------------

  function Clamp(lo: int, hi: int, v: int): (r: int)
    requires lo <= hi
    ensures lo <= r <= hi
    ensures lo <= v <= hi ==> r == v
    ensures v < lo ==> r == lo
    ensures hi < v ==> r == hi
  {
    if v < lo then lo else if hi < v then hi else v
  }

  /**
    The column of a longitude. Inside [-180, 180) it is the cell whose
    10 degree span holds the longitude; anything west of -180 lands in the
    first column and anything from 180 on in the last.
   */
  function LonBin(lon: real): (i: int)
    ensures 0 <= i < NLon
    ensures -180.0 <= lon < 180.0 ==>
      (i as real) * DLon <= lon + 180.0 < ((i + 1) as real) * DLon
    ensures lon < -180.0 ==> i == 0
    ensures 180.0 <= lon ==> i == NLon - 1
  {
    Clamp(0, NLon - 1, ((lon + 180.0) / DLon).Floor)
  }

  /**
    The row of a latitude, counted from the north. Inside (-90, 90] it is the
    cell whose 10 degree span holds the latitude; north of 90 is the first
    row and from -90 southward the last.
   */
  function LatBin(lat: real): (i: int)
    ensures 0 <= i < NLat
    ensures -90.0 < lat <= 90.0 ==>
      90.0 - ((i + 1) as real) * DLat < lat <= 90.0 - (i as real) * DLat
    ensures 90.0 < lat ==> i == 0
    ensures lat <= -90.0 ==> i == NLat - 1
  {
    Clamp(0, NLat - 1, ((90.0 - lat) / DLat).Floor)
  }

  predicate InCell(p: Coord, i: int, j: int)
  {
    LatBin(p.lat) == i && LonBin(p.lon) == j
  }

  /** All exterior-ring vertices, polygon after polygon. */
  function Vertices(polys: seq<seq<Coord>>): seq<Coord>
  {
    if polys == [] then []
    else Vertices(polys[..|polys| - 1]) + polys[|polys| - 1]
  }

  /** How many of `pts` fall into cell (i, j). */
  function Count(pts: seq<Coord>, i: int, j: int): nat
  {
    if pts == [] then 0
    else Count(pts[..|pts| - 1], i, j) + (if InCell(pts[|pts| - 1], i, j) then 1 else 0)
  }

  lemma CountAppend(pts: seq<Coord>, p: Coord, i: int, j: int)
    ensures Count(pts + [p], i, j) == Count(pts, i, j) + (if InCell(p, i, j) then 1 else 0)
  {
  }

  /** The sum of the counts of cells (i, 0) .. (i, n - 1). */
  function RowCount(pts: seq<Coord>, i: int, n: nat): nat
  {
    if n == 0 then 0 else RowCount(pts, i, n - 1) + Count(pts, i, n - 1)
  }

  /** The sum of the counts of every cell in rows 0 .. m - 1. */
  function GridCount(pts: seq<Coord>, m: nat): nat
  {
    if m == 0 then 0 else GridCount(pts, m - 1) + RowCount(pts, m - 1, NLon)
  }

  lemma {:induction false} RowCountAppend(pts: seq<Coord>, p: Coord, i: int, n: nat)
    ensures RowCount(pts + [p], i, n)
         == RowCount(pts, i, n) + (if LatBin(p.lat) == i && LonBin(p.lon) < n then 1 else 0)
  {
    if n > 0 {
      RowCountAppend(pts, p, i, n - 1);
      CountAppend(pts, p, i, n - 1);
    }
  }

  lemma {:induction false} GridCountAppend(pts: seq<Coord>, p: Coord, m: nat)
    ensures GridCount(pts + [p], m) == GridCount(pts, m) + (if LatBin(p.lat) < m then 1 else 0)
  {
    if m > 0 {
      GridCountAppend(pts, p, m - 1);
      RowCountAppend(pts, p, m - 1, NLon);
    }
  }

  lemma {:induction false} GridCountEmpty(m: nat)
    ensures GridCount([], m) == 0
  {
    if m > 0 {
      GridCountEmpty(m - 1);
      RowCountEmpty(m - 1, NLon);
    }
  }

  lemma {:induction false} RowCountEmpty(i: int, n: nat)
    ensures RowCount([], i, n) == 0
  {
    if n > 0 { RowCountEmpty(i, n - 1); }
  }

  /** Conservation: the cell counts of the whole grid add up to the number of vertices. */
  lemma {:induction false} GridCountTotal(pts: seq<Coord>)
    ensures GridCount(pts, NLat) == |pts|
  {
    if pts == [] {
      GridCountEmpty(NLat);
    } else {
      var init, p := pts[..|pts| - 1], pts[|pts| - 1];
      assert pts == init + [p];
      GridCountTotal(init);
      GridCountAppend(init, p, NLat);
      assert LatBin(p.lat) < NLat;
      assert GridCount(init + [p], NLat) == |init| + 1;
    }
  }

  // The same sums, read off the histogram array.

  function RowSum(hist: array2<nat>, i: nat, n: nat): nat
    reads hist
    requires i < hist.Length0 && n <= hist.Length1
  {
    if n == 0 then 0 else RowSum(hist, i, n - 1) + hist[i, n - 1]
  }

  function GridSum(hist: array2<nat>, m: nat): nat
    reads hist
    requires m <= hist.Length0
  {
    if m == 0 then 0 else GridSum(hist, m - 1) + RowSum(hist, m - 1, hist.Length1)
  }

  /** A histogram whose cells hold the counts of `pts`. */
  ghost predicate Holds(hist: array2<nat>, pts: seq<Coord>)
    reads hist
  {
    hist.Length0 == NLat && hist.Length1 == NLon &&
    forall i, j :: 0 <= i < NLat && 0 <= j < NLon ==> hist[i, j] == Count(pts, i, j)
  }

  lemma {:induction false} GridSumIsCount(hist: array2<nat>, pts: seq<Coord>, m: nat)
    requires Holds(hist, pts) && m <= NLat
    ensures GridSum(hist, m) == GridCount(pts, m)
  {
    if m > 0 {
      GridSumIsCount(hist, pts, m - 1);
      RowSumIsCount(hist, pts, m - 1, NLon);
    }
  }

  lemma {:induction false} RowSumIsCount(hist: array2<nat>, pts: seq<Coord>, i: nat, n: nat)
    requires Holds(hist, pts) && i < NLat && n <= NLon
    ensures RowSum(hist, i, n) == RowCount(pts, i, n)
  {
    if n > 0 { RowSumIsCount(hist, pts, i, n - 1); }
  }

  /**
    Counts one vertex: the cell it falls into goes up by exactly one and no
    other cell changes (complexity.py:162-166).
   */
  method CountVertex(hist: array2<nat>, p: Coord)
    requires hist.Length0 == NLat && hist.Length1 == NLon
    modifies hist
    ensures forall i, j :: 0 <= i < NLat && 0 <= j < NLon ==>
      hist[i, j] == old(hist[i, j]) + (if InCell(p, i, j) then 1 else 0)
  {
    var iLon := LonBin(p.lon);
    var iLat := LatBin(p.lat);
    hist[iLat, iLon] := hist[iLat, iLon] + 1;
  }

  /**
    Builds the histogram of the exterior-ring vertices of `polys`
    (complexity.py:150-166): it starts all-zero, every cell ends up holding
    the number of vertices in it, and the grand total is the number of
    vertices.
   */
  method BuildHistogram(polys: seq<seq<Coord>>) returns (hist: array2<nat>)
    ensures fresh(hist)
    ensures Holds(hist, Vertices(polys))
    ensures GridSum(hist, NLat) == |Vertices(polys)|
  {
    hist := new nat[NLat, NLon]((i, j) => 0);
    var k := 0;
    while k < |polys|
      invariant 0 <= k <= |polys|
      invariant Holds(hist, Vertices(polys[..k]))
    {
      var ring := polys[k];
      ghost var before := Vertices(polys[..k]);
      var c := 0;
      assert before + ring[..0] == before;
      while c < |ring|
        invariant 0 <= c <= |ring|
        invariant Holds(hist, before + ring[..c])
      {
        CountVertex(hist, ring[c]);
        assert before + ring[..c + 1] == (before + ring[..c]) + [ring[c]];
        forall i, j | 0 <= i < NLat && 0 <= j < NLon
          ensures hist[i, j] == Count(before + ring[..c + 1], i, j)
        {
          CountAppend(before + ring[..c], ring[c], i, j);
        }
        c := c + 1;
      }
      assert ring[..|ring|] == ring;
      assert polys[..k + 1][..k] == polys[..k];
      k := k + 1;
    }
    assert polys[..|polys|] == polys;
    GridSumIsCount(hist, Vertices(polys), NLat);
    GridCountTotal(Vertices(polys));
  }

  // ---------------------------------------------------------------------
  // Colouring (complexity.py:196-205)
  // ---------------------------------------------------------------------

  /**
    Python's `round(n / d)`: the nearest integer, ties to the even one.
   */
  function RoundHalfEven(n: nat, d: nat): (r: nat)
    requires d > 0
    ensures 2 * n <= 2 * r * d + d && 2 * r * d <= 2 * n + d
    ensures (2 * n == 2 * r * d + d || 2 * r * d == 2 * n + d) ==> r % 2 == 0
  {
    var q, m := n / d, n % d;
    var r := if 2 * m < d then q else if 2 * m > d then q + 1 else if q % 2 == 0 then q else q + 1;
    RoundHalfEvenBounds(n, d, q, m, r);
    r
  }

  /** Rounding `q + m / d` down or up by the remainder keeps within one half, and ties go to the even one. */
  lemma RoundHalfEvenBounds(n: nat, d: nat, q: nat, m: nat, r: nat)
    requires d > 0 && n == q * d + m && m < d
    requires r == q || r == q + 1
    requires r == q ==> 2 * m <= d
    requires r == q + 1 ==> d <= 2 * m
    requires 2 * m == d ==> r % 2 == 0
    ensures 2 * n <= 2 * r * d + d && 2 * r * d <= 2 * n + d
    ensures (2 * n == 2 * r * d + d || 2 * r * d == 2 * n + d) ==> r % 2 == 0
  {
    var p := q * d;
    assert r == q ==> r * d == p;
    assert r == q + 1 ==> r * d == p + d;
    assert 2 * r * d == 2 * (r * d);
  }

  /**
    The colour-table index of a non-empty cell: `round(min(255, 255 h / 66))`.
    It is the nearest integer to 255 h / 66 (ties to even) below saturation,
    255 from the saturation count on, and always a valid index of a 256-entry
    table.
   */
  function ColourIndex(h: nat): (idx: nat)
    requires h > 0
    ensures idx <= 255
    ensures h >= Saturation ==> idx == 255
    ensures h < Saturation ==>
      2 * 255 * h <= (2 * idx + 1) * Saturation && (2 * idx - 1) * Saturation <= 2 * 255 * h
    ensures (h < Saturation &&
             ((2 * idx + 1) * Saturation == 2 * 255 * h || (2 * idx - 1) * Saturation == 2 * 255 * h)) ==>
            idx % 2 == 0
  {
    if h >= Saturation then 255 else RoundHalfEven(255 * h, Saturation)
  }

  /** A larger count never gets a lower colour index. */
  lemma ColourIndexMonotone(h1: nat, h2: nat)
    requires 0 < h1 <= h2
    ensures ColourIndex(h1) <= ColourIndex(h2)
  {
  }

  /** The colour of a cell holding `h` vertices. */
  function CellColour(turbo: seq<Rgb>, h: nat): (c: Rgb)
    requires |turbo| == 256
    ensures h == 0 ==> c == White
    ensures h >= Saturation ==> c == turbo[255]
    ensures h > 0 ==> c in turbo
  {
    if h > 0 then turbo[ColourIndex(h)] else White
  }

  // ---------------------------------------------------------------------
  // Block upscaling (complexity.py:179-205)
  // ---------------------------------------------------------------------

  /** The blocks tile the image: a pixel row or column belongs to exactly one block. */
  lemma BlockOf(p: nat, i0: int)
    ensures (i0 * Scale <= p < (i0 + 1) * Scale) <==> i0 == p / Scale
  {
  }

  /**
    Fills the block of cell (iLat0, iLon0), that is rows
    [iLat0 Scale, (iLat0 + 1) Scale) and columns [iLon0 Scale, (iLon0 + 1) Scale),
    with the cell's colour, and leaves every other pixel as it was
    (complexity.py:194-205).
   */
  method FillBlock(img: array2<Rgb>, hist: array2<nat>, turbo: seq<Rgb>, iLat0: nat, iLon0: nat)
    requires hist.Length0 == NLat && hist.Length1 == NLon && |turbo| == 256
    requires img.Length0 == NLat * Scale && img.Length1 == NLon * Scale
    requires iLat0 < NLat && iLon0 < NLon
    modifies img
    ensures forall y, x :: 0 <= y < img.Length0 && 0 <= x < img.Length1 ==>
      img[y, x] == (if iLat0 * Scale <= y < (iLat0 + 1) * Scale && iLon0 * Scale <= x < (iLon0 + 1) * Scale
                    then CellColour(turbo, hist[iLat0, iLon0]) else old(img[y, x]))
  {
    var iLon1, iLon2 := iLon0 * Scale, (iLon0 + 1) * Scale;
    var iLat1, iLat2 := iLat0 * Scale, (iLat0 + 1) * Scale;
    ghost var c := CellColour(turbo, hist[iLat0, iLon0]);
    var iLon := iLon1;
    while iLon < iLon2
      invariant iLon1 <= iLon <= iLon2
      invariant forall y, x :: 0 <= y < img.Length0 && 0 <= x < img.Length1 ==>
        img[y, x] == (if iLat1 <= y < iLat2 && iLon1 <= x < iLon then c else old(img[y, x]))
    {
      var iLat := iLat1;
      while iLat < iLat2
        invariant iLat1 <= iLat <= iLat2
        invariant forall y, x :: 0 <= y < img.Length0 && 0 <= x < img.Length1 ==>
          img[y, x] == (if (iLat1 <= y < iLat2 && iLon1 <= x < iLon) || (x == iLon && iLat1 <= y < iLat)
                        then c else old(img[y, x]))
      {
        if hist[iLat0, iLon0] > 0 {
          var colour := ColourIndex(hist[iLat0, iLon0]);
          img[iLat, iLon] := turbo[colour];
        } else {
          img[iLat, iLon] := White;
        }
        iLat := iLat + 1;
      }
      iLon := iLon + 1;
    }
  }

  /**
    Upscales the histogram into an (NLat Scale) x (NLon Scale) image in which
    every pixel has the colour of the cell whose block it lies in
    (complexity.py:179-205).
   */
  method Upscale(hist: array2<nat>, turbo: seq<Rgb>) returns (img: array2<Rgb>)
    requires hist.Length0 == NLat && hist.Length1 == NLon && |turbo| == 256
    ensures fresh(img)
    ensures img.Length0 == NLat * Scale && img.Length1 == NLon * Scale
    ensures forall y, x :: 0 <= y < img.Length0 && 0 <= x < img.Length1 ==> img[y, x] == CellColour(turbo, hist[y / Scale, x / Scale])
    ensures forall y, x :: 0 <= y < img.Length0 && 0 <= x < img.Length1 && hist[y / Scale, x / Scale] == 0 ==>
      img[y, x] == White
    ensures forall y, x :: 0 <= y < img.Length0 && 0 <= x < img.Length1 && hist[y / Scale, x / Scale] > 0 ==>
      img[y, x] == turbo[ColourIndex(hist[y / Scale, x / Scale])]
  {
    img := new Rgb[NLat * Scale, NLon * Scale]((y, x) => Black);
    var iLon0 := 0;
    while iLon0 < NLon
      invariant 0 <= iLon0 <= NLon
      invariant forall y, x :: 0 <= y < img.Length0 && 0 <= x < iLon0 * Scale ==> img[y, x] == CellColour(turbo, hist[y / Scale, x / Scale])
    {
      var iLat0 := 0;
      while iLat0 < NLat
        invariant 0 <= iLat0 <= NLat
        invariant forall y, x ::
          (0 <= y < img.Length0 && 0 <= x < img.Length1 &&
           (x < iLon0 * Scale || (x < (iLon0 + 1) * Scale && y < iLat0 * Scale)))
          ==> img[y, x] == CellColour(turbo, hist[y / Scale, x / Scale])
      {
        FillBlock(img, hist, turbo, iLat0, iLon0);
        forall y, x | iLat0 * Scale <= y < (iLat0 + 1) * Scale && iLon0 * Scale <= x < (iLon0 + 1) * Scale
          ensures y / Scale == iLat0 && x / Scale == iLon0
        {
          BlockOf(y, iLat0);
          BlockOf(x, iLon0);
        }
        iLat0 := iLat0 + 1;
      }
      iLon0 := iLon0 + 1;
    }
  }

  // ---------------------------------------------------------------------
  // Drawing coordinates (complexity.py:221-225)
  // ---------------------------------------------------------------------

  datatype Pixel = Pixel(x: real, y: real)

  /** `max(lo, min(hi, v))` on floats: `Clamp` for `real`, as Dafny has no ordering over a type parameter. */
  function ClampReal(lo: real, hi: real, v: real): (r: real)
    requires lo <= hi
    ensures lo <= r <= hi
    ensures lo <= v <= hi ==> r == v
    ensures v < lo ==> r == lo
    ensures hi < v ==> r == hi
  {
    if v < lo then lo else if hi < v then hi else v
  }

  /** The image column of a longitude, clamped to [0, NLon Scale]. */
  function PixelX(lon: real): (x: real)
    ensures 0.0 <= x <= (NLon * Scale) as real
    ensures -180.0 <= lon <= 180.0 ==> x == (Scale as real) * (lon + 180.0) / DLon
    ensures lon < -180.0 ==> x == 0.0
    ensures 180.0 < lon ==> x == (NLon * Scale) as real
  {
    ClampReal(0.0, (NLon * Scale) as real, (Scale as real) * (lon + 180.0) / DLon)
  }

  /** The image row of a latitude, clamped to [0, NLat Scale]. */
  function PixelY(lat: real): (y: real)
    ensures 0.0 <= y <= (NLat * Scale) as real
    ensures -90.0 <= lat <= 90.0 ==> y == (Scale as real) * (90.0 - lat) / DLat
    ensures 90.0 < lat ==> y == 0.0
    ensures lat < -90.0 ==> y == (NLat * Scale) as real
  {
    ClampReal(0.0, (NLat * Scale) as real, (Scale as real) * (90.0 - lat) / DLat)
  }

  /**
    A drawn vertex lies on the (closed) block of the very cell it was counted
    in, so the outline is drawn over the colour its own vertices produced.
   */
  lemma DrawnInOwnBlock(p: Coord)
    ensures (LonBin(p.lon) * Scale) as real <= PixelX(p.lon) <= ((LonBin(p.lon) + 1) * Scale) as real
    ensures (LatBin(p.lat) * Scale) as real <= PixelY(p.lat) <= ((LatBin(p.lat) + 1) * Scale) as real
  {
  }

  /**
    The pixel coordinates of one exterior ring, built by appending
    (complexity.py:218-225): one in-bounds point per vertex, in ring order.
   */
  method ProjectRing(ring: seq<Coord>) returns (coords: seq<Pixel>)
    ensures |coords| == |ring|
    ensures forall k :: 0 <= k < |ring| ==> coords[k] == Pixel(PixelX(ring[k].lon), PixelY(ring[k].lat))
    ensures forall k :: 0 <= k < |coords| ==>
      0.0 <= coords[k].x <= (NLon * Scale) as real && 0.0 <= coords[k].y <= (NLat * Scale) as real
  {
    coords := [];
    var k := 0;
    while k < |ring|
      invariant 0 <= k <= |ring| && |coords| == k
      invariant forall m :: 0 <= m < k ==> coords[m] == Pixel(PixelX(ring[m].lon), PixelY(ring[m].lat))
    {
      var x := PixelX(ring[k].lon);
      var y := PixelY(ring[k].lat);
      coords := coords + [Pixel(x, y)];
      k := k + 1;
    }
  }
}
