/** The undithered half of the panel pipeline: palette argmin, panel Y-mirror and 2bpp packing. */
module Bwry {
  const WIDTH: nat := 400
  const HEIGHT: nat := 300
  const PACKED_SIZE: nat := 30000

  import opened Machine

  /** One pixel as `image.Color.RGBA` reports it: 16 bits a channel (alpha is not read). */
  datatype Rgb16 = Rgb16(r: U16, g: U16, b: U16)

  datatype Rgb8 = Rgb8(r: U8, g: U8, b: U8)

  /** An image, addressed by row and column as `image.Image.At` is. */
  datatype Image = Image(dx: nat, dy: nat, rows: seq<seq<Rgb16>>) {
    ghost predicate Valid() {
      |rows| == dy && forall y :: 0 <= y < dy ==> |rows[y]| == dx
    }

    function Pixel(x: nat, y: nat): Rgb8
      requires Valid() && x < dx && y < dy
    {
      var p := rows[y][x];
      Rgb8(p.r / 0x100, p.g / 0x100, p.b / 0x100)
    }
  }

  // ---------------------------------------------------------------- row-major planes

  /** The flat index of column x, row y in a plane of width w. */
  function Ix(w: nat, x: int, y: int): int {
    y * w + x
  }

  lemma IxRange(w: nat, h: nat, x: int, y: int)
    requires 0 <= x < w && 0 <= y < h
    ensures 0 <= Ix(w, x, y) < w * h
  {
    assert (y + 1) * w <= h * w;
  }

  lemma MulAtLeast(k: int, w: nat)
    requires k >= 1
    ensures k * w >= w
  {
    assert (k - 1) * w >= 0;
  }

  lemma IxInjective(w: nat, x: int, y: int, u: int, v: int)
    requires 0 <= x < w && 0 <= u < w && Ix(w, x, y) == Ix(w, u, v)
    ensures x == u && y == v
  {
    assert (y - v) * w == y * w - v * w && (v - y) * w == v * w - y * w;
    if y > v {
      MulAtLeast(y - v, w);
    } else if y < v {
      MulAtLeast(v - y, w);
    }
  }

  lemma IxSplit(w: nat, h: nat, i: int)
    requires 0 <= i < w * h
    ensures 0 <= i % w < w && 0 <= i / w < h && Ix(w, i % w, i / w) == i
  {
    var y := i / w;
    assert y * w <= i;
    assert y * w == h * w + (y - h) * w;
    if y >= h {
      MulAtLeast(y - h + 1, w);
    }
  }

  /** The value at column x, row y of a plane of width w. */
  function At(plane: seq<bv8>, w: nat, x: int, y: int): bv8 {
    var i := Ix(w, x, y);
    if 0 <= i < |plane| then plane[i] else 0
  }

  lemma AtUpdate(plane: seq<bv8>, w: nat, h: nat, x: int, y: int, c: bv8)
    requires |plane| == w * h && 0 <= x < w && 0 <= y < h
    ensures 0 <= Ix(w, x, y) < |plane|
    ensures forall u, v {:trigger At(plane[Ix(w, x, y) := c], w, u, v)} :: 0 <= u < w ==>
      At(plane[Ix(w, x, y) := c], w, u, v) == if u == x && v == y then c else At(plane, w, u, v)
  {
    IxRange(w, h, x, y);
    forall u, v | 0 <= u < w
      ensures At(plane[Ix(w, x, y) := c], w, u, v) == if u == x && v == y then c else At(plane, w, u, v)
    {
      if Ix(w, x, y) == Ix(w, u, v) {
        IxInjective(w, x, y, u, v);
      }
    }
  }

  lemma PlaneExtensional(w: nat, h: nat, a: seq<bv8>, b: seq<bv8>)
    requires |a| == |b| == w * h
    requires forall x, y {:trigger At(a, w, x, y)} :: 0 <= x < w && 0 <= y < h ==> At(a, w, x, y) == At(b, w, x, y)
    ensures a == b
  {
    forall i | 0 <= i < w * h
      ensures a[i] == b[i]
    {
      IxSplit(w, h, i);
      assert At(a, w, i % w, i / w) == At(b, w, i % w, i / w);
    }
  }

  // ---------------------------------------------------------------- argmin

  /** k is the first index at which d is smallest. */
  ghost predicate FirstMin(d: seq<real>, k: int) {
    && 0 <= k < |d|
    && (forall j :: 0 <= j < k ==> d[k] < d[j])
    && (forall j :: k <= j < |d| ==> d[k] <= d[j])
  }

  lemma FirstMinUnique(d: seq<real>, j: int, k: int)
    requires FirstMin(d, j) && FirstMin(d, k)
    ensures j == k
  {
    var a, b := d[j], d[k];
  }

  function ArgMin(d: seq<real>): (k: nat)
    requires |d| > 0
    ensures FirstMin(d, k)
  {
    if |d| == 1 then 0
    else
      var m := ArgMin(d[..|d| - 1]);
      assert forall j :: 0 <= j < |d| - 1 ==> d[j] == d[..|d| - 1][j];
      if d[|d| - 1] < d[m] then |d| - 1 else m
  }

  // Palette codes: 0 black, 1 white, 2 yellow, 3 red.
  const PALETTE: seq<Rgb8> := [Rgb8(0, 0, 0), Rgb8(255, 255, 255), Rgb8(255, 255, 0), Rgb8(255, 0, 0)]

  function Square(d: int): int {
    d * d
  }

  function SqDist(p: Rgb8, k: nat): int
    requires k < 4
  {
    var q := PALETTE[k];
    Square(p.r - q.r) + Square(p.g - q.g) + Square(p.b - q.b)
  }

  function SqDists(p: Rgb8): seq<real> {
    [SqDist(p, 0) as real, SqDist(p, 1) as real, SqDist(p, 2) as real, SqDist(p, 3) as real]
  }

  function Nearest(p: Rgb8): (k: nat)
    ensures k < 4
  {
    ArgMin(SqDists(p))
  }

  lemma ProductNonNegative(a: int, b: int)
    requires a >= 0 && b >= 0
    ensures a * b >= 0
  {
  }

  lemma SquareOfSmaller(d: nat)
    requires d <= 255
    ensures Square(d) <= 65025
  {
    ProductNonNegative(255 - d, 255);
    ProductNonNegative(255 - d, d);
    assert (255 - d) * d == 255 * d - Square(d);
  }

  lemma SquareBound(d: int)
    requires -255 <= d <= 255
    ensures 0 <= Square(d) <= 65025
  {
    if d >= 0 {
      ProductNonNegative(d, d);
      SquareOfSmaller(d);
    } else {
      ProductNonNegative(-d, -d);
      SquareOfSmaller(-d);
      assert Square(-d) == Square(d);
    }
  }

  lemma SqDistBound(p: Rgb8, k: nat)
    requires k < 4
    ensures 0 <= SqDist(p, k) <= 195075
  {
    var q := PALETTE[k];
    SquareBound(p.r - q.r);
    SquareBound(p.g - q.g);
    SquareBound(p.b - q.b);
  }

  /** The strict-less argmin loop; `2^30` is above every 8-bit distance, so the first test succeeds. */
  method NearestCode(p: Rgb8) returns (best: nat)
    ensures best < 4 && best == Nearest(p)
  {
    best := 0;
    var bestD := 0x4000_0000;
    for c := 0 to 4
      invariant c == 0 ==> bestD == 0x4000_0000
      invariant c > 0 ==> best < c && bestD == SqDist(p, best)
      invariant forall j {:trigger SqDist(p, j)} :: 0 <= j < best ==> c > 0 && bestD < SqDist(p, j)
      invariant forall j {:trigger SqDist(p, j)} :: 0 <= j < c ==> bestD <= SqDist(p, j)
    {
      SqDistBound(p, c);
      var d := SqDist(p, c);
      if d < bestD {
        bestD := d;
        best := c;
      }
    }
    assert FirstMin(SqDists(p), best) by {
      assert SqDist(p, 0) >= bestD && SqDist(p, 1) >= bestD && SqDist(p, 2) >= bestD && SqDist(p, 3) >= bestD;
    }
    FirstMinUnique(SqDists(p), best, Nearest(p));
  }

  /** A palette colour is its own nearest colour, at distance zero. */
  lemma NearestOfPalette(k: nat)
    requires k < 4
    ensures Nearest(PALETTE[k]) == k
  {
    var p := PALETTE[k];
    forall j | 0 <= j < 4
      ensures SqDist(p, j) >= 0 && (SqDist(p, j) == 0 <==> j == k)
    {
      SqDistBound(p, j);
    }
    assert FirstMin(SqDists(p), k) by {
      assert SqDist(p, 0) >= 0 && SqDist(p, 1) >= 0 && SqDist(p, 2) >= 0 && SqDist(p, 3) >= 0;
    }
    FirstMinUnique(SqDists(p), k, Nearest(p));
  }

  // ---------------------------------------------------------------- code planes

  function CodeOf(k: nat): (c: bv8)
    requires k < 4
    ensures c & 3 == c && c as nat == k
  {
    if k == 0 then 0 else if k == 1 then 1 else if k == 2 then 2 else 3
  }

  /** `out` is `plane` with its rows in reverse order. */
  ghost predicate IsFlip(w: nat, h: nat, plane: seq<bv8>, out: seq<bv8>) {
    && |plane| == |out| == w * h
    && forall x, y {:trigger At(out, w, x, y)} :: 0 <= x < w && 0 <= y < h ==> At(out, w, x, y) == At(plane, w, x, h - 1 - y)
  }

  lemma FlipUnique(w: nat, h: nat, plane: seq<bv8>, a: seq<bv8>, b: seq<bv8>)
    requires IsFlip(w, h, plane, a) && IsFlip(w, h, plane, b)
    ensures a == b
  {
    forall x, y | 0 <= x < w && 0 <= y < h
      ensures At(a, w, x, y) == At(b, w, x, y)
    {
      assert At(b, w, x, y) == At(plane, w, x, h - 1 - y);
    }
    PlaneExtensional(w, h, a, b);
  }

  /** Mirroring is an involution. */
  lemma FlipTwice(w: nat, h: nat, plane: seq<bv8>, out: seq<bv8>)
    requires IsFlip(w, h, plane, out)
    ensures IsFlip(w, h, out, plane)
  {
    forall x, y {:trigger At(plane, w, x, y)} | 0 <= x < w && 0 <= y < h
      ensures At(plane, w, x, y) == At(out, w, x, h - 1 - y)
    {
      assert At(out, w, x, h - 1 - y) == At(plane, w, x, h - 1 - (h - 1 - y));
      assert h - 1 - (h - 1 - y) == y;
    }
  }

  /** The row-copy loop of flipCodes. */
  method FlipCodes(w: nat, h: nat, upright: seq<bv8>) returns (out: seq<bv8>)
    requires |upright| == w * h
    ensures IsFlip(w, h, upright, out)
  {
    var a := new bv8[|upright|];
    for y := 0 to h
      invariant forall u, v {:trigger At(a[..], w, u, v)} :: 0 <= u < w && 0 <= v < y ==>
        At(a[..], w, u, v) == At(upright, w, u, h - 1 - v)
    {
      for x := 0 to w
        invariant forall u, v {:trigger At(a[..], w, u, v)} :: 0 <= u < w && 0 <= v <= y && (v == y ==> u < x) ==>
          At(a[..], w, u, v) == At(upright, w, u, h - 1 - v)
      {
        IxRange(w, h, x, h - 1 - y);
        AtUpdate(a[..], w, h, x, y, upright[Ix(w, x, h - 1 - y)]);
        ghost var was := a[..];
        a[Ix(w, x, y)] := upright[Ix(w, x, h - 1 - y)];
        assert a[..] == was[Ix(w, x, y) := upright[Ix(w, x, h - 1 - y)]];
      }
    }
    out := a[..];
  }

  /** `codes` is the plane of upright palette codes of an image, each pixel by unweighted nearest. */
  ghost predicate IsQuantized(img: Image, codes: seq<bv8>)
    requires img.Valid()
  {
    && |codes| == img.dx * img.dy
    && forall x, y {:trigger At(codes, img.dx, x, y)} :: 0 <= x < img.dx && 0 <= y < img.dy ==>
         At(codes, img.dx, x, y) == PixelCode(img, x, y)
  }

  /** The code that unweighted nearest gives the source pixel in column x, row y. */
  function PixelCode(img: Image, x: nat, y: nat): bv8
    requires img.Valid() && x < img.dx && y < img.dy
  {
    CodeOf(Nearest(img.Pixel(x, y)))
  }

  lemma DistancesOf(p: Rgb8)
    ensures SqDists(p) == [(Square(p.r) + Square(p.g) + Square(p.b)) as real,
                           (Square(p.r - 255) + Square(p.g - 255) + Square(p.b - 255)) as real,
                           (Square(p.r - 255) + Square(p.g - 255) + Square(p.b)) as real,
                           (Square(p.r - 255) + Square(p.g) + Square(p.b)) as real]
  {
    hide Square;
  }

  /** The code of a pixel is the number of the first of black, white, yellow and red at the least squared distance
      from the upper bytes of its channels. */
  lemma CodesNearestColour(img: Image, x: nat, y: nat)
    requires img.Valid() && x < img.dx && y < img.dy
    ensures var r, g, b := img.rows[y][x].r / 0x100, img.rows[y][x].g / 0x100, img.rows[y][x].b / 0x100;
      FirstMin([(Square(r) + Square(g) + Square(b)) as real,
                (Square(r - 255) + Square(g - 255) + Square(b - 255)) as real,
                (Square(r - 255) + Square(g - 255) + Square(b)) as real,
                (Square(r - 255) + Square(g) + Square(b)) as real], PixelCode(img, x, y) as int)
  {
    DistancesOf(img.Pixel(x, y));
    hide Square, SqDist, SqDists, FirstMin;
  }

  /** In raster order before (x, y), the plane holds the codes of the image read from its last row up. */
  ghost predicate MirroredUpTo(img: Image, plane: seq<bv8>, x: nat, y: nat)
    requires img.Valid()
  {
    && |plane| == img.dx * img.dy
    && forall u, v {:trigger At(plane, img.dx, u, v)} :: 0 <= u < img.dx && 0 <= v < img.dy && (v < y || (v == y && u < x)) ==>
         At(plane, img.dx, u, v) == PixelCode(img, u, img.dy - 1 - v)
  }

  lemma MirroredStep(img: Image, plane: seq<bv8>, x: nat, y: nat)
    requires img.Valid() && x < img.dx && y < img.dy && MirroredUpTo(img, plane, x, y)
    ensures 0 <= Ix(img.dx, x, y) < |plane|
    ensures MirroredUpTo(img, plane[Ix(img.dx, x, y) := PixelCode(img, x, img.dy - 1 - y)], x + 1, y)
  {
    AtUpdate(plane, img.dx, img.dy, x, y, PixelCode(img, x, img.dy - 1 - y));
  }

  lemma MirroredStart(img: Image, plane: seq<bv8>)
    requires img.Valid() && |plane| == img.dx * img.dy
    ensures MirroredUpTo(img, plane, 0, 0)
  {
  }

  lemma MirroredRow(img: Image, plane: seq<bv8>, y: nat)
    requires img.Valid() && y < img.dy && MirroredUpTo(img, plane, img.dx, y)
    ensures MirroredUpTo(img, plane, 0, y + 1)
  {
  }

  lemma IxNext(w: nat, x: int, y: int)
    ensures Ix(w, x + 1, y) == Ix(w, x, y) + 1
    ensures Ix(w, w, y) == Ix(w, 0, y + 1) && Ix(w, 0, 0) == 0
  {
    assert (y + 1) * w == y * w + w;
  }

  /** The fused loop: quantize source row h-1-y straight into output row y with a running index. */
  method QuantizeFlipped(img: Image) returns (codes: seq<bv8>)
    requires img.Valid()
    ensures MirroredUpTo(img, codes, 0, img.dy)
  {
    hide MirroredUpTo, Nearest, Ix;
    var w, h := img.dx, img.dy;
    var a := new bv8[w * h];
    var i := 0;
    MirroredStart(img, a[..]);
    IxNext(w, 0, 0);
    for y := 0 to h
      invariant i == Ix(w, 0, y) && MirroredUpTo(img, a[..], 0, y)
    {
      var sy := h - 1 - y;
      for x := 0 to w
        invariant i == Ix(w, x, y) && MirroredUpTo(img, a[..], x, y)
      {
        MirroredStep(img, a[..], x, y);
        var best := NearestCode(img.Pixel(x, sy));
        a[i] := CodeOf(best);
        i := i + 1;
        IxNext(w, x, y);
      }
      MirroredRow(img, a[..], y);
      IxNext(w, 0, y);
    }
    codes := a[..];
  }

  /** The fused loop equals the two-step pipeline: whatever upright plane quantizes the image, its mirror is
      the plane whose row y holds the codes of source row h-1-y. */
  lemma FusedEqualsFlippedUpright(img: Image, upright: seq<bv8>, mirrored: seq<bv8>, fused: seq<bv8>)
    requires img.Valid() && IsQuantized(img, upright) && IsFlip(img.dx, img.dy, upright, mirrored)
    requires MirroredUpTo(img, fused, 0, img.dy)
    ensures fused == mirrored
  {
    forall x, y | 0 <= x < img.dx && 0 <= y < img.dy
      ensures At(fused, img.dx, x, y) == At(mirrored, img.dx, x, y)
    {
      assert At(mirrored, img.dx, x, y) == At(upright, img.dx, x, img.dy - 1 - y);
    }
    PlaneExtensional(img.dx, img.dy, fused, mirrored);
  }

  // ---------------------------------------------------------------- 2bpp packing

  /** The code at position i (0 = leftmost) of a packed byte: bits 7-6, 5-4, 3-2, 1-0. */
  function Field(b: bv8, i: nat): bv8
    requires i < 4
  {
    (b >> (6 - 2 * i)) & 3
  }

  function CodeAt(codes: seq<bv8>, i: nat): bv8 {
    if i < |codes| then codes[i] & 3 else 0
  }

  /** MSB-first, four codes a byte; a short last group leaves its low fields zero. */
  ghost predicate IsPacked(codes: seq<bv8>, out: seq<bv8>) {
    && |out| == (|codes| + 3) / 4
    && forall n, i :: 0 <= n < |out| && 0 <= i < 4 ==> Field(out[n], i) == CodeAt(codes, 4 * n + i)
  }

  lemma FieldsDetermine(a: bv8, b: bv8)
    requires forall i :: 0 <= i < 4 ==> Field(a, i) == Field(b, i)
    ensures a == b
  {
    assert Field(a, 0) == Field(b, 0) && Field(a, 1) == Field(b, 1) && Field(a, 2) == Field(b, 2) && Field(a, 3) == Field(b, 3);
  }

  /** Packing is a function: the fields determine every byte. */
  lemma PackedUnique(codes: seq<bv8>, a: seq<bv8>, b: seq<bv8>)
    requires IsPacked(codes, a) && IsPacked(codes, b)
    ensures a == b
  {
    forall n | 0 <= n < |a|
      ensures a[n] == b[n]
    {
      FieldsDetermine(a[n], b[n]);
    }
  }

  /** Packing loses nothing: two planes of 2-bit codes with the same bytes and length are the same plane. */
  lemma PackedInjective(a: seq<bv8>, b: seq<bv8>, out: seq<bv8>)
    requires IsPacked(a, out) && IsPacked(b, out) && |a| == |b|
    requires forall i :: 0 <= i < |a| ==> a[i] & 3 == a[i] && b[i] & 3 == b[i]
    ensures a == b
  {
    forall i | 0 <= i < |a|
      ensures a[i] == b[i]
    {
      assert Field(out[i / 4], i % 4) == CodeAt(a, 4 * (i / 4) + i % 4);
      assert Field(out[i / 4], i % 4) == CodeAt(b, 4 * (i / 4) + i % 4);
    }
  }

  /** One more code or-ed into a byte whose low fields are still zero. */
  lemma OrField(v: bv8, c: bv8, i: nat, j: nat)
    requires i < 4 && j < 4
    requires forall k :: i <= k < 4 ==> Field(v, k) == 0
    ensures Field(v | ((c & 3) << (6 - 2 * i)), j) == if j == i then c & 3 else Field(v, j)
  {
    if i == 0 { OrField0(v, c, j); }
    else if i == 1 { OrField1(v, c, j); }
    else if i == 2 { OrField2(v, c, j); }
    else { OrField3(v, c, j); }
  }

  lemma OrField0(v: bv8, c: bv8, j: nat)
    requires j < 4 && Field(v, 0) == 0
    ensures Field(v | ((c & 3) << 6), j) == if j == 0 then c & 3 else Field(v, j)
  {
  }

  lemma OrField1(v: bv8, c: bv8, j: nat)
    requires j < 4 && Field(v, 1) == 0
    ensures Field(v | ((c & 3) << 4), j) == if j == 1 then c & 3 else Field(v, j)
  {
  }

  lemma OrField2(v: bv8, c: bv8, j: nat)
    requires j < 4 && Field(v, 2) == 0
    ensures Field(v | ((c & 3) << 2), j) == if j == 2 then c & 3 else Field(v, j)
  {
  }

  lemma OrField3(v: bv8, c: bv8, j: nat)
    requires j < 4 && Field(v, 3) == 0
    ensures Field(v | (c & 3), j) == if j == 3 then c & 3 else Field(v, j)
  {
  }

  method Pack2bpp(codes: seq<bv8>) returns (out: seq<bv8>)
    ensures IsPacked(codes, out)
  {
    var a := new bv8[(|codes| + 3) / 4];
    var n := 0;
    while n < |codes|
      invariant n % 4 == 0 && 0 <= n <= |codes| + 3
      invariant forall m, j :: 0 <= m < n / 4 && 0 <= j < 4 ==> Field(a[m], j) == CodeAt(codes, 4 * m + j)
      decreases |codes| - n
    {
      var v: bv8 := 0;
      var i := 0;
      while i < 4 && n + i < |codes|
        invariant 0 <= i <= 4 && n + i <= |codes| + 3
        invariant i < 4 ==> n + i <= |codes|
        invariant forall j :: 0 <= j < i ==> Field(v, j) == CodeAt(codes, n + j)
        invariant forall j :: i <= j < 4 ==> Field(v, j) == 0
      {
        var next := v | ((codes[n + i] & 3) << (6 - 2 * i));
        forall j | 0 <= j < 4
          ensures Field(next, j) == if j == i then codes[n + i] & 3 else Field(v, j)
        {
          OrField(v, codes[n + i], i, j);
        }
        v := next;
        i := i + 1;
      }
      assert 4 * (n / 4) == n;
      a[n / 4] := v;
      n := n + 4;
    }
    out := a[..];
  }
}
