/** BT.601-weighted Atkinson error diffusion, in exact real arithmetic.
    The original stores each work value back as float32; that rounding is outside this model. */
module Dither {
  import opened Bwry

  /** One value for each colour channel. */
  datatype V3 = V3(r: real, g: real, b: real)

  const ZERO := V3(0.0, 0.0, 0.0)

  function Plus(a: V3, b: V3): V3 {
    V3(a.r + b.r, a.g + b.g, a.b + b.b)
  }

  function Minus(a: V3, b: V3): V3 {
    V3(a.r - b.r, a.g - b.g, a.b - b.b)
  }

  function Sum6(a: V3, b: V3, c: V3, d: V3, e: V3, f: V3): V3 {
    Plus(Plus(Plus(a, b), Plus(c, d)), Plus(e, f))
  }

  function Eighth(a: V3): V3 {
    V3(a.r / 8.0, a.g / 8.0, a.b / 8.0)
  }

  function ToV3(p: Rgb8): V3 {
    V3(p.r as real, p.g as real, p.b as real)
  }

  function PaletteF(k: nat): V3
    requires k < 4
  {
    ToV3(PALETTE[k])
  }

  // ---------------------------------------------------------------- weighted nearest

  function WeightedDist(v: V3, k: nat): real
    requires k < 4
  {
    var d := Minus(v, PaletteF(k));
    0.299 * d.r * d.r + 0.587 * d.g * d.g + 0.114 * d.b * d.b
  }

  function WeightedDists(v: V3): seq<real> {
    [WeightedDist(v, 0), WeightedDist(v, 1), WeightedDist(v, 2), WeightedDist(v, 3)]
  }

  function NearestBT601(v: V3): (k: nat)
    ensures k < 4
  {
    ArgMin(WeightedDists(v))
  }

  /** A real extended with the initial positive infinity of the running minimum. */
  datatype Best = Infinity | Finite(d: real)

  method NearestCodeBT601(v: V3) returns (best: nat)
    ensures best < 4 && best == NearestBT601(v)
  {
    best := 0;
    var bd := Infinity;
    var ds := WeightedDists(v);
    for k := 0 to 4
      invariant bd.Infinity? <==> k == 0
      invariant k > 0 ==> best < k && bd == Finite(ds[best])
      invariant forall j :: 0 <= j < best ==> k > 0 && ds[best] < ds[j]
      invariant forall j :: 0 <= j < k ==> ds[best] <= ds[j]
    {
      var d := WeightedDist(v, k);
      assert d == ds[k];
      if bd.Infinity? || d < bd.d {
        bd := Finite(d);
        best := k;
      }
    }
    FirstMinUnique(ds, best, NearestBT601(v));
  }

  // ---------------------------------------------------------------- the recurrence

  const KERNEL: seq<(int, int)> := [(1, 0), (2, 0), (-1, 1), (0, 1), (1, 1), (0, 2)]

  /** The six positions whose error reaches (x, y), in kernel order; one may fall off the image. */
  ghost predicate Reaches(w: nat, px: int, py: int) {
    0 <= px < w && 0 <= py
  }

  /** The value read at (x, y): the source value plus an eighth of the error of each raster predecessor. */
  ghost function Read(img: Image, x: nat, y: nat): V3
    requires img.Valid() && x < img.dx && y < img.dy
    decreases y, x, 2
  {
    Plus(ToV3(img.Pixel(x, y)), Eighth(Sum6(
      Incoming(img, x, y, 0), Incoming(img, x, y, 1), Incoming(img, x, y, 2),
      Incoming(img, x, y, 3), Incoming(img, x, y, 4), Incoming(img, x, y, 5))))
  }

  ghost function Incoming(img: Image, x: nat, y: nat, e: nat): V3
    requires img.Valid() && x < img.dx && y < img.dy && e < 6
    decreases y, x, 1
  {
    var px, py := x - KERNEL[e].0, y - KERNEL[e].1;
    if Reaches(img.dx, px, py) then Err(img, px, py) else ZERO
  }

  /** The quantization error at (x, y), not clamped. */
  ghost function Err(img: Image, x: nat, y: nat): V3
    requires img.Valid() && x < img.dx && y < img.dy
    decreases y, x, 3
  {
    Minus(Read(img, x, y), PaletteF(NearestBT601(Read(img, x, y))))
  }

  /** The error of a position, nothing off the image. */
  ghost function ErrAt(img: Image, x: int, y: int): V3
    requires img.Valid() && y < img.dy
  {
    if 0 <= x < img.dx && 0 <= y then Err(img, x, y) else ZERO
  }

  lemma IncomingFrom(img: Image, x: nat, y: nat)
    requires img.Valid() && x < img.dx && y < img.dy
    ensures Incoming(img, x, y, 0) == ErrAt(img, x - 1, y) && Incoming(img, x, y, 1) == ErrAt(img, x - 2, y)
    ensures Incoming(img, x, y, 2) == ErrAt(img, x + 1, y - 1) && Incoming(img, x, y, 3) == ErrAt(img, x, y - 1)
    ensures Incoming(img, x, y, 4) == ErrAt(img, x - 1, y - 1) && Incoming(img, x, y, 5) == ErrAt(img, x, y - 2)
  {
    hide Err;
  }

  /** Atkinson's kernel: a pixel reads as the upper byte of its source plus an eighth of the errors of the two
      pixels on its left, of the three above it and of the one two rows above it. */
  lemma ReadsSixNeighbours(img: Image, x: nat, y: nat)
    requires img.Valid() && x < img.dx && y < img.dy
    ensures var p, v := img.rows[y][x], Read(img, x, y);
      var a, b, c := ErrAt(img, x - 1, y), ErrAt(img, x - 2, y), ErrAt(img, x + 1, y - 1);
      var d, e, f := ErrAt(img, x, y - 1), ErrAt(img, x - 1, y - 1), ErrAt(img, x, y - 2);
      && v.r == (p.r / 0x100) as real + (a.r + b.r + c.r + d.r + e.r + f.r) / 8.0
      && v.g == (p.g / 0x100) as real + (a.g + b.g + c.g + d.g + e.g + f.g) / 8.0
      && v.b == (p.b / 0x100) as real + (a.b + b.b + c.b + d.b + e.b + f.b) / 8.0
  {
    IncomingFrom(img, x, y);
    hide Incoming, ErrAt;
  }

  /** The distance of a value from black, white, yellow and red under the BT.601 luma weights. */
  function Luma(dr: real, dg: real, db: real): real {
    0.299 * dr * dr + 0.587 * dg * dg + 0.114 * db * db
  }

  lemma LumaDist(v: V3, k: nat)
    requires k < 4
    ensures var d := Minus(v, PaletteF(k)); WeightedDist(v, k) == Luma(d.r, d.g, d.b)
  {
  }

  /** The code is that of the first palette colour nearest to the value read: 0 black, 1 white, 2 yellow, 3 red. */
  lemma CodesNearestLuma(v: V3)
    ensures FirstMin([Luma(v.r, v.g, v.b), Luma(v.r - 255.0, v.g - 255.0, v.b - 255.0),
                      Luma(v.r - 255.0, v.g - 255.0, v.b), Luma(v.r - 255.0, v.g, v.b)], NearestBT601(v))
    ensures CodeOf(NearestBT601(v)) as nat == NearestBT601(v)
  {
    LumaDist(v, 0);
    LumaDist(v, 1);
    LumaDist(v, 2);
    LumaDist(v, 3);
    hide Luma, WeightedDist;
    assert Minus(v, PaletteF(0)) == v;
    assert Minus(v, PaletteF(1)) == V3(v.r - 255.0, v.g - 255.0, v.b - 255.0);
    assert Minus(v, PaletteF(2)) == V3(v.r - 255.0, v.g - 255.0, v.b);
    assert Minus(v, PaletteF(3)) == V3(v.r - 255.0, v.g, v.b);
    assert [Luma(v.r, v.g, v.b), Luma(v.r - 255.0, v.g - 255.0, v.b - 255.0),
            Luma(v.r - 255.0, v.g - 255.0, v.b), Luma(v.r - 255.0, v.g, v.b)] == WeightedDists(v);
  }

  /** What is left over is the value read less the colour of its code. */
  lemma ErrLeftOver(img: Image, x: nat, y: nat)
    requires img.Valid() && x < img.dx && y < img.dy
    ensures var k, v, e := NearestBT601(Read(img, x, y)), Read(img, x, y), Err(img, x, y);
      && e.r == (if k == 0 then v.r else v.r - 255.0)
      && e.g == (if k == 1 || k == 2 then v.g - 255.0 else v.g)
      && e.b == (if k == 1 then v.b - 255.0 else v.b)
  {
    hide NearestBT601, Read;
  }

  // ---------------------------------------------------------------- what the in-place loop has added so far

  ghost predicate Before(px: int, py: int, x: int, y: int) {
    py < y || (py == y && px < x)
  }

  /** The error that kernel entry e has already sent to (tx, ty) when the loop stands at (x, y) and has
      handled that pixel's first k kernel entries. */
  ghost function Sent(img: Image, tx: int, ty: int, e: nat, x: int, y: int, k: nat): V3
    requires img.Valid() && e < 6 && y <= img.dy && ty < img.dy
  {
    var px, py := tx - KERNEL[e].0, ty - KERNEL[e].1;
    if Reaches(img.dx, px, py) && (Before(px, py, x, y) || (px == x && py == y && e < k)) then Err(img, px, py) else ZERO
  }

  ghost function Held(img: Image, tx: int, ty: int, x: int, y: int, k: nat): V3
    requires img.Valid() && y <= img.dy && 0 <= tx < img.dx && 0 <= ty < img.dy
  {
    Plus(ToV3(img.Pixel(tx, ty)), Eighth(Sum6(
      Sent(img, tx, ty, 0, x, y, k), Sent(img, tx, ty, 1, x, y, k), Sent(img, tx, ty, 2, x, y, k),
      Sent(img, tx, ty, 3, x, y, k), Sent(img, tx, ty, 4, x, y, k), Sent(img, tx, ty, 5, x, y, k))))
  }

  /** A pixel that the raster order has reached has received every error it will ever receive. */
  lemma HeldIsRead(img: Image, x: nat, y: nat)
    requires img.Valid() && x < img.dx && y < img.dy
    ensures Held(img, x, y, x, y, 0) == Read(img, x, y)
  {
    forall e | 0 <= e < 6
      ensures Sent(img, x, y, e, x, y, 0) == Incoming(img, x, y, e)
    {
    }
  }

  /** Two standpoints that have sent the same six errors to a pixel agree on what it holds. */
  lemma HeldCongruent(img: Image, tx: int, ty: int, x: int, y: int, k: nat, u: int, v: int, l: nat)
    requires img.Valid() && 0 <= tx < img.dx && 0 <= ty < img.dy && y <= img.dy && v <= img.dy
    requires forall e :: 0 <= e < 6 ==> Sent(img, tx, ty, e, x, y, k) == Sent(img, tx, ty, e, u, v, l)
    ensures Held(img, tx, ty, x, y, k) == Held(img, tx, ty, u, v, l)
  {
  }

  lemma HeldAtStart(img: Image, tx: int, ty: int)
    requires img.Valid() && 0 <= tx < img.dx && 0 <= ty < img.dy
    ensures Held(img, tx, ty, 0, 0, 0) == ToV3(img.Pixel(tx, ty))
  {
    forall e | 0 <= e < 6
      ensures Sent(img, tx, ty, e, 0, 0, 0) == ZERO
    {
    }
    SumOfZeros(ToV3(img.Pixel(tx, ty)));
  }

  lemma SumOfZeros(p: V3)
    ensures Plus(p, Eighth(Sum6(ZERO, ZERO, ZERO, ZERO, ZERO, ZERO))) == p
  {
    assert Plus(ZERO, ZERO) == ZERO;
    assert Sum6(ZERO, ZERO, ZERO, ZERO, ZERO, ZERO) == ZERO;
    assert Eighth(ZERO) == ZERO;
  }

  lemma SentNextPixel(img: Image, tx: int, ty: int, e: nat, x: int, y: int)
    requires img.Valid() && ty < img.dy && 0 <= x < img.dx && 0 <= y < img.dy && e < 6
    ensures Sent(img, tx, ty, e, x, y, 6) == Sent(img, tx, ty, e, x + 1, y, 0)
  {
  }

  lemma HeldNextPixel(img: Image, tx: int, ty: int, x: int, y: int)
    requires img.Valid() && 0 <= tx < img.dx && 0 <= ty < img.dy && 0 <= x < img.dx && 0 <= y < img.dy
    ensures Held(img, tx, ty, x, y, 6) == Held(img, tx, ty, x + 1, y, 0)
  {
    forall e | 0 <= e < 6
      ensures Sent(img, tx, ty, e, x, y, 6) == Sent(img, tx, ty, e, x + 1, y, 0)
    {
      SentNextPixel(img, tx, ty, e, x, y);
    }
    HeldCongruent(img, tx, ty, x, y, 6, x + 1, y, 0);
  }

  lemma SentNextRow(img: Image, tx: int, ty: int, e: nat, y: int)
    requires img.Valid() && ty < img.dy && 0 <= y < img.dy && e < 6
    ensures Sent(img, tx, ty, e, img.dx, y, 0) == Sent(img, tx, ty, e, 0, y + 1, 0)
  {
  }

  lemma HeldNextRow(img: Image, tx: int, ty: int, y: int)
    requires img.Valid() && 0 <= tx < img.dx && 0 <= ty < img.dy && 0 <= y < img.dy
    ensures Held(img, tx, ty, img.dx, y, 0) == Held(img, tx, ty, 0, y + 1, 0)
  {
    forall e | 0 <= e < 6
      ensures Sent(img, tx, ty, e, img.dx, y, 0) == Sent(img, tx, ty, e, 0, y + 1, 0)
    {
      SentNextRow(img, tx, ty, e, y);
    }
    HeldCongruent(img, tx, ty, img.dx, y, 0, 0, y + 1, 0);
  }

  ghost predicate PointsAt(x: int, y: int, k: nat, tx: int, ty: int)
    requires k < 6
  {
    tx == x + KERNEL[k].0 && ty == y + KERNEL[k].1
  }

  lemma SentNextEntry(img: Image, tx: int, ty: int, e: nat, x: int, y: int, k: nat)
    requires img.Valid() && ty < img.dy && 0 <= x < img.dx && 0 <= y < img.dy && e < 6 && k < 6
    ensures !(e == k && PointsAt(x, y, k, tx, ty)) ==> Sent(img, tx, ty, e, x, y, k + 1) == Sent(img, tx, ty, e, x, y, k)
    ensures e == k && PointsAt(x, y, k, tx, ty) ==>
      Sent(img, tx, ty, e, x, y, k + 1) == Err(img, x, y) && Sent(img, tx, ty, e, x, y, k) == ZERO
  {
  }

  /** Handling kernel entry k of (x, y) changes exactly the pixel it points at. */
  lemma HeldNextEntry(img: Image, tx: int, ty: int, x: int, y: int, k: nat)
    requires img.Valid() && 0 <= tx < img.dx && 0 <= ty < img.dy && 0 <= x < img.dx && 0 <= y < img.dy && k < 6
    ensures Held(img, tx, ty, x, y, k + 1) ==
            if PointsAt(x, y, k, tx, ty) then Plus(Held(img, tx, ty, x, y, k), Eighth(Err(img, x, y))) else Held(img, tx, ty, x, y, k)
  {
    SentNextEntry(img, tx, ty, 0, x, y, k);
    SentNextEntry(img, tx, ty, 1, x, y, k);
    SentNextEntry(img, tx, ty, 2, x, y, k);
    SentNextEntry(img, tx, ty, 3, x, y, k);
    SentNextEntry(img, tx, ty, 4, x, y, k);
    SentNextEntry(img, tx, ty, 5, x, y, k);
    SumWithOne(ToV3(img.Pixel(tx, ty)),
      Sent(img, tx, ty, 0, x, y, k), Sent(img, tx, ty, 1, x, y, k), Sent(img, tx, ty, 2, x, y, k),
      Sent(img, tx, ty, 3, x, y, k), Sent(img, tx, ty, 4, x, y, k), Sent(img, tx, ty, 5, x, y, k), Err(img, x, y));
  }

  /** Putting v where a zero stood adds an eighth of v. */
  lemma SumWithOne(p: V3, a: V3, b: V3, c: V3, d: V3, e: V3, f: V3, v: V3)
    ensures a == ZERO ==> Plus(p, Eighth(Sum6(v, b, c, d, e, f))) == Plus(Plus(p, Eighth(Sum6(a, b, c, d, e, f))), Eighth(v))
    ensures b == ZERO ==> Plus(p, Eighth(Sum6(a, v, c, d, e, f))) == Plus(Plus(p, Eighth(Sum6(a, b, c, d, e, f))), Eighth(v))
    ensures c == ZERO ==> Plus(p, Eighth(Sum6(a, b, v, d, e, f))) == Plus(Plus(p, Eighth(Sum6(a, b, c, d, e, f))), Eighth(v))
    ensures d == ZERO ==> Plus(p, Eighth(Sum6(a, b, c, v, e, f))) == Plus(Plus(p, Eighth(Sum6(a, b, c, d, e, f))), Eighth(v))
    ensures e == ZERO ==> Plus(p, Eighth(Sum6(a, b, c, d, v, f))) == Plus(Plus(p, Eighth(Sum6(a, b, c, d, e, f))), Eighth(v))
    ensures f == ZERO ==> Plus(p, Eighth(Sum6(a, b, c, d, e, v))) == Plus(Plus(p, Eighth(Sum6(a, b, c, d, e, f))), Eighth(v))
  {
  }

  // ---------------------------------------------------------------- the loop

  /** The three work buffers as one value. */
  datatype Work = Work(r: seq<real>, g: seq<real>, b: seq<real>) {
    ghost predicate Sized(n: nat) {
      |r| == n && |g| == n && |b| == n
    }

    ghost function Get(i: int): V3 {
      if 0 <= i < |r| && i < |g| && i < |b| then V3(r[i], g[i], b[i]) else ZERO
    }

    ghost function Add(i: int, e: V3): Work
      requires 0 <= i < |r| && i < |g| && i < |b|
    {
      Work(r[i := r[i] + e.r], g[i := g[i] + e.g], b[i := b[i] + e.b])
    }
  }

  ghost function WorkAt(wk: Work, w: nat, x: int, y: int): V3 {
    wk.Get(Ix(w, x, y))
  }

  /** Every pixel that is still to be read holds its source value plus what has been sent to it. */
  ghost predicate Holds(img: Image, wk: Work, x: int, y: int, k: nat)
    requires img.Valid() && 0 <= y <= img.dy
  {
    && wk.Sized(img.dx * img.dy)
    && forall tx, ty {:trigger WorkAt(wk, img.dx, tx, ty)} :: 0 <= tx < img.dx && 0 <= ty < img.dy && !Before(tx, ty, x, y) ==>
         WorkAt(wk, img.dx, tx, ty) == Held(img, tx, ty, x, y, k)
  }

  lemma WorkUpdate(wk: Work, w: nat, h: nat, x: int, y: int, e: V3)
    requires wk.Sized(w * h) && 0 <= x < w && 0 <= y < h
    ensures 0 <= Ix(w, x, y) < w * h
    ensures forall u, v {:trigger WorkAt(wk.Add(Ix(w, x, y), e), w, u, v)} :: 0 <= u < w && 0 <= v < h ==>
      WorkAt(wk.Add(Ix(w, x, y), e), w, u, v) ==
      if u == x && v == y then Plus(WorkAt(wk, w, u, v), e) else WorkAt(wk, w, u, v)
  {
    IxRange(w, h, x, y);
    var nw := wk.Add(Ix(w, x, y), e);
    forall u, v | 0 <= u < w && 0 <= v < h
      ensures WorkAt(nw, w, u, v) == if u == x && v == y then Plus(WorkAt(wk, w, u, v), e) else WorkAt(wk, w, u, v)
    {
      IxRange(w, h, u, v);
      if Ix(w, x, y) == Ix(w, u, v) {
        IxInjective(w, x, y, u, v);
      }
    }
  }

  lemma StepInside(img: Image, wk: Work, x: int, y: int, k: nat)
    requires img.Valid() && 0 <= x < img.dx && 0 <= y < img.dy && k < 6 && Holds(img, wk, x, y, k)
    requires 0 <= x + KERNEL[k].0 < img.dx && y + KERNEL[k].1 < img.dy
    ensures 0 <= Ix(img.dx, x + KERNEL[k].0, y + KERNEL[k].1) < img.dx * img.dy
    ensures Holds(img, wk.Add(Ix(img.dx, x + KERNEL[k].0, y + KERNEL[k].1), Eighth(Err(img, x, y))), x, y, k + 1)
  {
    hide Held, Err, Eighth, Ix, Work.Get;
    WorkUpdate(wk, img.dx, img.dy, x + KERNEL[k].0, y + KERNEL[k].1, Eighth(Err(img, x, y)));
    var nw := wk.Add(Ix(img.dx, x + KERNEL[k].0, y + KERNEL[k].1), Eighth(Err(img, x, y)));
    forall tx, ty | 0 <= tx < img.dx && 0 <= ty < img.dy && !Before(tx, ty, x, y)
      ensures WorkAt(nw, img.dx, tx, ty) == Held(img, tx, ty, x, y, k + 1)
    {
      HeldNextEntry(img, tx, ty, x, y, k);
      assert WorkAt(wk, img.dx, tx, ty) == Held(img, tx, ty, x, y, k);
    }
  }

  lemma StepOutside(img: Image, wk: Work, x: int, y: int, k: nat)
    requires img.Valid() && 0 <= x < img.dx && 0 <= y < img.dy && k < 6 && Holds(img, wk, x, y, k)
    requires !(0 <= x + KERNEL[k].0 < img.dx && y + KERNEL[k].1 < img.dy)
    ensures Holds(img, wk, x, y, k + 1)
  {
    forall tx, ty | 0 <= tx < img.dx && 0 <= ty < img.dy && !Before(tx, ty, x, y)
      ensures WorkAt(wk, img.dx, tx, ty) == Held(img, tx, ty, x, y, k + 1)
    {
      HeldNextEntry(img, tx, ty, x, y, k);
    }
  }

  lemma StepPixel(img: Image, wk: Work, x: int, y: int)
    requires img.Valid() && 0 <= x < img.dx && 0 <= y < img.dy && Holds(img, wk, x, y, 6)
    ensures Holds(img, wk, x + 1, y, 0)
  {
    forall tx, ty | 0 <= tx < img.dx && 0 <= ty < img.dy && !Before(tx, ty, x + 1, y)
      ensures WorkAt(wk, img.dx, tx, ty) == Held(img, tx, ty, x + 1, y, 0)
    {
      HeldNextPixel(img, tx, ty, x, y);
    }
  }

  lemma StepRow(img: Image, wk: Work, y: int)
    requires img.Valid() && 0 <= y < img.dy && Holds(img, wk, img.dx, y, 0)
    ensures Holds(img, wk, 0, y + 1, 0)
  {
    forall tx, ty | 0 <= tx < img.dx && 0 <= ty < img.dy && !Before(tx, ty, 0, y + 1)
      ensures WorkAt(wk, img.dx, tx, ty) == Held(img, tx, ty, 0, y + 1, 0)
    {
      HeldNextRow(img, tx, ty, y);
    }
  }

  ghost function DitheredCode(img: Image, x: nat, y: nat): bv8
    requires img.Valid() && x < img.dx && y < img.dy
  {
    CodeOf(NearestBT601(Read(img, x, y)))
  }

  /** In raster order before (x, y), the plane holds the codes of the recurrence. */
  ghost predicate CodedUpTo(img: Image, plane: seq<bv8>, x: nat, y: nat)
    requires img.Valid()
  {
    && |plane| == img.dx * img.dy
    && forall u, v {:trigger At(plane, img.dx, u, v)} :: 0 <= u < img.dx && 0 <= v < img.dy && Before(u, v, x, y) ==>
         At(plane, img.dx, u, v) == DitheredCode(img, u, v)
  }

  lemma CodedStep(img: Image, plane: seq<bv8>, x: nat, y: nat)
    requires img.Valid() && x < img.dx && y < img.dy && CodedUpTo(img, plane, x, y)
    ensures 0 <= Ix(img.dx, x, y) < |plane|
    ensures CodedUpTo(img, plane[Ix(img.dx, x, y) := DitheredCode(img, x, y)], x + 1, y)
  {
    AtUpdate(plane, img.dx, img.dy, x, y, DitheredCode(img, x, y));
  }

  /** `plane` is the upright code plane of the dithered image. */
  ghost predicate IsDithered(img: Image, plane: seq<bv8>)
    requires img.Valid()
  {
    CodedUpTo(img, plane, 0, img.dy)
  }

  /** In raster order before (x, y) the buffers hold the source; the rest is still zero. */
  ghost predicate Loaded(img: Image, wk: Work, x: int, y: int)
    requires img.Valid()
  {
    && wk.Sized(img.dx * img.dy)
    && forall u, v {:trigger WorkAt(wk, img.dx, u, v)} :: 0 <= u < img.dx && 0 <= v < img.dy ==>
         WorkAt(wk, img.dx, u, v) == if Before(u, v, x, y) then ToV3(img.Pixel(u, v)) else ZERO
  }

  lemma LoadedStep(img: Image, wk: Work, x: int, y: int)
    requires img.Valid() && 0 <= x < img.dx && 0 <= y < img.dy && Loaded(img, wk, x, y)
    ensures wk.Sized(img.dx * img.dy) && 0 <= Ix(img.dx, x, y) < img.dx * img.dy
    ensures wk.Get(Ix(img.dx, x, y)) == ZERO
    ensures Loaded(img, wk.Add(Ix(img.dx, x, y), ToV3(img.Pixel(x, y))), x + 1, y)
  {
    WorkUpdate(wk, img.dx, img.dy, x, y, ToV3(img.Pixel(x, y)));
    assert WorkAt(wk, img.dx, x, y) == ZERO;
  }

  lemma NothingLoaded(img: Image, wk: Work)
    requires img.Valid() && wk.Sized(img.dx * img.dy)
    requires forall i :: 0 <= i < img.dx * img.dy ==> wk.r[i] == 0.0 && wk.g[i] == 0.0 && wk.b[i] == 0.0
    ensures Loaded(img, wk, 0, 0)
  {
  }

  lemma LoadedRow(img: Image, wk: Work, y: int)
    requires img.Valid() && 0 <= y < img.dy && Loaded(img, wk, img.dx, y)
    ensures Loaded(img, wk, 0, y + 1)
  {
  }

  lemma LoadedHolds(img: Image, wk: Work)
    requires img.Valid() && Loaded(img, wk, 0, img.dy)
    ensures Holds(img, wk, 0, 0, 0)
  {
    forall tx, ty | 0 <= tx < img.dx && 0 <= ty < img.dy
      ensures WorkAt(wk, img.dx, tx, ty) == Held(img, tx, ty, 0, 0, 0)
    {
      HeldAtStart(img, tx, ty);
    }
  }

  /** Store a colour where the three buffers still hold zero. */
  method PutAt(r: array<real>, g: array<real>, bl: array<real>, j: nat, p: V3)
    requires r != g && r != bl && g != bl && j < r.Length && j < g.Length && j < bl.Length
    requires Work(r[..], g[..], bl[..]).Get(j) == ZERO
    modifies r, g, bl
    ensures Work(r[..], g[..], bl[..]) == old(Work(r[..], g[..], bl[..])).Add(j, p)
  {
    r[j] := p.r;
    g[j] := p.g;
    bl[j] := p.b;
  }

  method LoadPixel(img: Image, r: array<real>, g: array<real>, bl: array<real>, x: nat, y: nat)
    requires img.Valid() && x < img.dx && y < img.dy && r != g && r != bl && g != bl
    requires Loaded(img, Work(r[..], g[..], bl[..]), x, y)
    modifies r, g, bl
    ensures Loaded(img, Work(r[..], g[..], bl[..]), x + 1, y)
  {
    LoadedStep(img, Work(r[..], g[..], bl[..]), x, y);
    hide Loaded, Work.Add, Work.Get;
    PutAt(r, g, bl, y * img.dx + x, ToV3(img.Pixel(x, y)));
  }

  /** The buffers before any pixel is loaded. */
  method NewBuffers(img: Image) returns (r: array<real>, g: array<real>, bl: array<real>)
    requires img.Valid()
    ensures fresh(r) && fresh(g) && fresh(bl) && r != g && r != bl && g != bl
    ensures Loaded(img, Work(r[..], g[..], bl[..]), 0, 0)
  {
    hide Loaded;
    var n := img.dx * img.dy;
    r := new real[n](_ => 0.0);
    g := new real[n](_ => 0.0);
    bl := new real[n](_ => 0.0);
    NothingLoaded(img, Work(r[..], g[..], bl[..]));
  }

  method LoadSource(img: Image) returns (r: array<real>, g: array<real>, bl: array<real>)
    requires img.Valid()
    ensures fresh(r) && fresh(g) && fresh(bl) && r != g && r != bl && g != bl
    ensures Holds(img, Work(r[..], g[..], bl[..]), 0, 0, 0)
  {
    hide Loaded, Holds;
    r, g, bl := NewBuffers(img);
    for y := 0 to img.dy
      invariant Loaded(img, Work(r[..], g[..], bl[..]), 0, y)
    {
      for x := 0 to img.dx
        invariant Loaded(img, Work(r[..], g[..], bl[..]), x, y)
      {
        LoadPixel(img, r, g, bl, x, y);
      }
      LoadedRow(img, Work(r[..], g[..], bl[..]), y);
    }
    LoadedHolds(img, Work(r[..], g[..], bl[..]));
  }

  /** Add a colour to element j of the three buffers. */
  method AddAt(r: array<real>, g: array<real>, bl: array<real>, j: nat, e: V3)
    requires r != g && r != bl && g != bl && j < r.Length && j < g.Length && j < bl.Length
    modifies r, g, bl
    ensures Work(r[..], g[..], bl[..]) == old(Work(r[..], g[..], bl[..])).Add(j, e)
  {
    r[j] := r[j] + e.r;
    g[j] := g[j] + e.g;
    bl[j] := bl[j] + e.b;
  }

  lemma HoldsSized(img: Image, wk: Work, x: int, y: int, k: nat)
    requires img.Valid() && 0 <= y <= img.dy && Holds(img, wk, x, y, k)
    ensures wk.Sized(img.dx * img.dy)
  {
  }

  /** Spread the error of (x, y) over the six kernel neighbours that lie on the image. */
  method Diffuse(img: Image, r: array<real>, g: array<real>, bl: array<real>, x: nat, y: nat, e: V3)
    requires img.Valid() && x < img.dx && y < img.dy && r != g && r != bl && g != bl
    requires Holds(img, Work(r[..], g[..], bl[..]), x, y, 0) && e == Eighth(Err(img, x, y))
    modifies r, g, bl
    ensures Holds(img, Work(r[..], g[..], bl[..]), x + 1, y, 0)
  {
    hide Holds, Eighth, Err, Work.Add;
    for k := 0 to 6
      invariant Holds(img, Work(r[..], g[..], bl[..]), x, y, k)
    {
      ghost var was := Work(r[..], g[..], bl[..]);
      HoldsSized(img, was, x, y, k);
      var nx, ny := x + KERNEL[k].0, y + KERNEL[k].1;
      if nx >= 0 && nx < img.dx && ny >= 0 && ny < img.dy {
        StepInside(img, was, x, y, k);
        AddAt(r, g, bl, ny * img.dx + nx, e);
      } else {
        StepOutside(img, was, x, y, k);
      }
    }
    StepPixel(img, Work(r[..], g[..], bl[..]), x, y);
  }

  /** What the loop reads at (x, y) is the recurrence's value there. */
  lemma LoopReads(img: Image, wk: Work, x: nat, y: nat)
    requires img.Valid() && x < img.dx && y < img.dy && Holds(img, wk, x, y, 0)
    ensures 0 <= Ix(img.dx, x, y) < img.dx * img.dy
    ensures wk.Get(Ix(img.dx, x, y)) == Read(img, x, y)
  {
    IxRange(img.dx, img.dy, x, y);
    HeldIsRead(img, x, y);
    assert WorkAt(wk, img.dx, x, y) == Held(img, x, y, x, y, 0);
  }

  /** One pixel of the pass: choose its code, then spread its error. */
  method QuantizePixel(img: Image, r: array<real>, g: array<real>, bl: array<real>, code: array<bv8>, x: nat, y: nat)
    requires img.Valid() && x < img.dx && y < img.dy && r != g && r != bl && g != bl
    requires (code as object) != r && (code as object) != g && (code as object) != bl
    requires Holds(img, Work(r[..], g[..], bl[..]), x, y, 0) && CodedUpTo(img, code[..], x, y)
    modifies r, g, bl, code
    ensures Holds(img, Work(r[..], g[..], bl[..]), x + 1, y, 0) && CodedUpTo(img, code[..], x + 1, y)
  {
    hide NearestBT601;
    LoopReads(img, Work(r[..], g[..], bl[..]), x, y);
    CodedStep(img, code[..], x, y);
    ghost var was := Work(r[..], g[..], bl[..]);
    var i := y * img.dx + x;
    var v := V3(r[i], g[i], bl[i]);
    var best := NearestCodeBT601(v);
    code[i] := CodeOf(best);
    assert r[..] == was.r && g[..] == was.g && bl[..] == was.b;
    Diffuse(img, r, g, bl, x, y, Eighth(Minus(v, PaletteF(best))));
  }

  lemma CodedAtStart(img: Image, plane: seq<bv8>)
    requires img.Valid() && |plane| == img.dx * img.dy
    ensures CodedUpTo(img, plane, 0, 0)
  {
  }

  lemma CodedRow(img: Image, plane: seq<bv8>, y: nat)
    requires img.Valid() && y < img.dy && CodedUpTo(img, plane, img.dx, y)
    ensures CodedUpTo(img, plane, 0, y + 1)
  {
  }

  /** The in-place pass computes the recurrence, for every image size. */
  method QuantizeDitherUpright(img: Image) returns (codes: seq<bv8>)
    requires img.Valid()
    ensures IsDithered(img, codes)
  {
    hide NearestBT601, Holds, CodedUpTo;
    var r, g, bl := LoadSource(img);
    var code := new bv8[img.dx * img.dy];
    CodedAtStart(img, code[..]);
    for y := 0 to img.dy
      invariant Holds(img, Work(r[..], g[..], bl[..]), 0, y, 0) && CodedUpTo(img, code[..], 0, y)
    {
      for x := 0 to img.dx
        invariant Holds(img, Work(r[..], g[..], bl[..]), x, y, 0) && CodedUpTo(img, code[..], x, y)
      {
        QuantizePixel(img, r, g, bl, code, x, y);
      }
      StepRow(img, Work(r[..], g[..], bl[..]), y);
      CodedRow(img, code[..], y);
    }
    codes := code[..];
  }

  // ---------------------------------------------------------------- properties of the recurrence

  ghost predicate ReadRange(v: V3) {
    -765.0 <= v.r <= 1020.0 && -765.0 <= v.g <= 1020.0 && -765.0 <= v.b <= 1020.0
  }

  ghost predicate ErrRange(v: V3) {
    -1020.0 <= v.r <= 1020.0 && -1020.0 <= v.g <= 1020.0 && -1020.0 <= v.b <= 1020.0
  }

  /** The unclamped recurrence is bounded whatever the image: three quarters of each error is passed on. */
  lemma {:induction false} ReadBounded(img: Image, x: nat, y: nat)
    requires img.Valid() && x < img.dx && y < img.dy
    ensures ReadRange(Read(img, x, y)) && ErrRange(Err(img, x, y))
    decreases y, x
  {
    forall e | 0 <= e < 6
      ensures ErrRange(Incoming(img, x, y, e))
    {
      var px, py := x - KERNEL[e].0, y - KERNEL[e].1;
      if Reaches(img.dx, px, py) {
        ReadBounded(img, px, py);
      }
    }
    assert ErrRange(Incoming(img, x, y, 0)) && ErrRange(Incoming(img, x, y, 1)) && ErrRange(Incoming(img, x, y, 2));
    assert ErrRange(Incoming(img, x, y, 3)) && ErrRange(Incoming(img, x, y, 4)) && ErrRange(Incoming(img, x, y, 5));
  }

  /** Every pixel of the image already has one of the four palette colours. */
  ghost predicate PaletteOnly(img: Image)
    requires img.Valid()
  {
    forall x: nat, y: nat :: x < img.dx && y < img.dy ==> img.Pixel(x, y) in PALETTE
  }

  lemma NearestBT601OfPalette(k: nat)
    requires k < 4
    ensures NearestBT601(PaletteF(k)) == k
  {
    var ds := WeightedDists(PaletteF(k));
    assert FirstMin(ds, k);
    FirstMinUnique(ds, k, NearestBT601(PaletteF(k)));
  }

  lemma ReadWithoutIncoming(img: Image, x: nat, y: nat)
    requires img.Valid() && x < img.dx && y < img.dy
    requires forall e :: 0 <= e < 6 ==> Incoming(img, x, y, e) == ZERO
    ensures Read(img, x, y) == ToV3(img.Pixel(x, y))
  {
    SumOfZeros(ToV3(img.Pixel(x, y)));
  }

  /** On such an image nothing is diffused: every pixel reads as its source and has no error. */
  lemma {:induction false} PaletteReadsSource(img: Image, x: nat, y: nat)
    requires img.Valid() && PaletteOnly(img) && x < img.dx && y < img.dy
    ensures Read(img, x, y) == ToV3(img.Pixel(x, y)) && Err(img, x, y) == ZERO
    ensures NearestBT601(Read(img, x, y)) == Nearest(img.Pixel(x, y))
    decreases y, x
  {
    hide NearestBT601, Nearest, Read;
    forall e | 0 <= e < 6
      ensures Incoming(img, x, y, e) == ZERO
    {
      var px, py := x - KERNEL[e].0, y - KERNEL[e].1;
      if Reaches(img.dx, px, py) {
        PaletteReadsSource(img, px, py);
      }
    }
    ReadWithoutIncoming(img, x, y);
    var p := img.Pixel(x, y);
    var k :| 0 <= k < 4 && PALETTE[k] == p;
    NearestBT601OfPalette(k);
    NearestOfPalette(k);
  }

  /** Dithering an image of palette colours and quantizing it without dithering give the same plane. */
  lemma PaletteImageIgnoresDither(img: Image, dithered: seq<bv8>, plain: seq<bv8>)
    requires img.Valid() && PaletteOnly(img) && IsDithered(img, dithered) && IsQuantized(img, plain)
    ensures dithered == plain
  {
    hide NearestBT601, Nearest;
    forall x, y | 0 <= x < img.dx && 0 <= y < img.dy
      ensures At(dithered, img.dx, x, y) == At(plain, img.dx, x, y)
    {
      PaletteReadsSource(img, x, y);
      assert At(plain, img.dx, x, y) == PixelCode(img, x, y);
    }
    PlaneExtensional(img.dx, img.dy, dithered, plain);
  }

  /** The recurrence determines the plane, so the in-place pass has exactly one possible result. */
  lemma DitheredUnique(img: Image, a: seq<bv8>, b: seq<bv8>)
    requires img.Valid() && IsDithered(img, a) && IsDithered(img, b)
    ensures a == b
  {
    forall x, y | 0 <= x < img.dx && 0 <= y < img.dy
      ensures At(a, img.dx, x, y) == At(b, img.dx, x, y)
    {
      assert At(b, img.dx, x, y) == DitheredCode(img, x, y);
    }
    PlaneExtensional(img.dx, img.dy, a, b);
  }

  // ---------------------------------------------------------------- the packed panel frame

  const DITHER_NONE := 0
  const DITHER_ATKINSON := 1

  datatype PackResult = Packed(bytes: seq<bv8>) | OffSize | UnknownDither

  /** `bytes` is the panel frame of an upright code plane: its rows mirrored, then four codes a byte. */
  ghost predicate IsPanelFrame(upright: seq<bv8>, bytes: seq<bv8>) {
    exists codes :: IsFlip(WIDTH, HEIGHT, upright, codes) && IsPacked(codes, bytes)
  }

  method PackWithDither(img: Image, d: int) returns (res: PackResult, ghost upright: seq<bv8>)
    requires img.Valid()
    ensures res.OffSize? <==> img.dx != 400 || img.dy != 300
    ensures res.UnknownDither? <==> !res.OffSize? && d != 0 && d != 1
    ensures res.Packed? ==> |res.bytes| == 30000 && IsPanelFrame(upright, res.bytes)
    ensures res.Packed? ==> if d == 0 then IsQuantized(img, upright) else IsDithered(img, upright)
  {
    hide NearestBT601, Nearest;
    upright := [];
    if img.dx != WIDTH || img.dy != HEIGHT {
      return OffSize, upright;
    }
    var codes;
    if d == DITHER_NONE {
      codes := QuantizeFlipped(img);
      upright := UprightPlane(img, codes);
    } else if d == DITHER_ATKINSON {
      var plane := QuantizeDitherUpright(img);
      upright := plane;
      codes := FlipCodes(WIDTH, HEIGHT, plane);
    } else {
      return UnknownDither, upright;
    }
    var out := Pack2bpp(codes);
    res := Packed(out);
  }

  /** The upright plane whose mirror the fused quantizer produced. */
  lemma UprightPlane(img: Image, codes: seq<bv8>) returns (upright: seq<bv8>)
    requires img.Valid() && MirroredUpTo(img, codes, 0, img.dy)
    ensures IsQuantized(img, upright) && IsFlip(img.dx, img.dy, upright, codes)
  {
    hide Nearest;
    var w, h := img.dx, img.dy;
    if w == 0 || h == 0 {
      upright := codes;
    } else {
      forall i | 0 <= i < w * h
        ensures 0 <= i % w < w && 0 <= i / w < h
      {
        IxSplit(w, h, i);
      }
      upright := seq(w * h, i requires 0 <= i < w * h => PixelCode(img, i % w, i / w));
      hide PixelCode, At, Ix;
      forall x, y | 0 <= x < w && 0 <= y < h
        ensures At(upright, w, x, y) == PixelCode(img, x, y)
      {
        AtSplits(upright, w, h, x, y);
      }
    }
  }

  lemma AtSplits(plane: seq<bv8>, w: nat, h: nat, x: int, y: int)
    requires |plane| == w * h && 0 <= x < w && 0 <= y < h
    ensures 0 <= Ix(w, x, y) < |plane| && At(plane, w, x, y) == plane[Ix(w, x, y)]
    ensures Ix(w, x, y) % w == x && Ix(w, x, y) / w == y
  {
    IxRange(w, h, x, y);
    IxSplit(w, h, Ix(w, x, y));
    IxInjective(w, Ix(w, x, y) % w, Ix(w, x, y) / w, x, y);
  }
}
