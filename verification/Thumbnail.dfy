/** The thumbnail box filter: the bounded target size, and one pass that sums every source pixel into its cell. */
module Thumbnail {
  import opened Machine

  /** A premultiplied pixel, 16 bits a channel as `color.RGBA` reports it; channels 0..3 are r, g, b, a. */
  datatype Pixel = Pixel(r: U16, g: U16, b: U16, a: U16) {
    function Channel(c: nat): nat
      requires c < 4
    {
      (if c == 0 then r as int else if c == 1 then g as int else if c == 2 then b as int else a as int) / 0x100
    }
  }

  datatype Image = Image(dx: nat, dy: nat, rows: seq<seq<Pixel>>) {
    ghost predicate Valid() {
      |rows| == dy && forall y :: 0 <= y < dy ==> |rows[y]| == dx
    }
  }

  // ---------------------------------------------------------------- the target size

  function AtLeast1(v: int): int {
    if v < 1 then 1 else v
  }

  function FitBox(sw: nat, sh: nat, maxDim: nat): (int, int)
    requires maxDim >= 1
  {
    if sw <= maxDim && sh <= maxDim then (AtLeast1(sw), AtLeast1(sh))
    else if sw >= sh then (maxDim, AtLeast1(sh * maxDim / sw))
    else (AtLeast1(sw * maxDim / sh), maxDim)
  }

  lemma {:induction false} MulStep(a: nat, b: nat, n: nat)
    requires a < b
    ensures a * n + n <= b * n
    decreases b - a
  {
    if a + 1 < b {
      MulStep(a, b - 1, n);
    }
    assert b * n == (b - 1) * n + n;
  }

  lemma FloorDivide(n: nat, s: nat)
    requires s > 0
    ensures n / s * s <= n < n / s * s + s
  {
    assert n == n / s * s + n % s;
  }

  lemma FloorUnique(n: nat, s: nat, p: nat, q: nat)
    requires p * s <= n < p * s + s && q * s <= n < q * s + s
    ensures p == q
  {
    if p < q {
      MulStep(p, q, s);
    } else if q < p {
      MulStep(q, p, s);
    }
  }

  lemma QuotientIs(n: nat, s: nat, t: nat)
    requires s > 0 && t * s <= n < t * s + s
    ensures n / s == t
  {
    FloorDivide(n, s);
    FloorUnique(n, s, n / s, t);
  }

  lemma QuotientMonotone(m: nat, n: nat, s: nat)
    requires s > 0 && m <= n
    ensures m / s <= n / s
  {
    FloorDivide(m, s);
    FloorDivide(n, s);
    if n / s < m / s {
      MulStep(n / s, m / s, s);
    }
  }

  lemma QuotientOfProduct(k: nat, s: nat)
    requires s > 0
    ensures k * s / s == k
  {
    QuotientIs(k * s, s, k);
  }

  /** A source of at least one pixel is never enlarged and fits the box; the aspect ratio is kept to the
      rounding of the shorter side, which never drops below one. */
  lemma FitBoxShrinks(sw: nat, sh: nat, maxDim: nat)
    requires sw >= 1 && sh >= 1 && maxDim >= 1
    ensures var (dw, dh) := FitBox(sw, sh, maxDim);
      && 1 <= dw <= sw && 1 <= dh <= sh && dw <= maxDim && dh <= maxDim
      && (sw <= maxDim && sh <= maxDim ==> dw == sw && dh == sh)
      && (sw >= sh && sw > maxDim ==> dw == maxDim && (dh - 1) * sw <= sh * dw && sh * dw < (dh + 1) * sw)
      && (sh > sw && sh > maxDim ==> dh == maxDim && (dw - 1) * sh <= sw * dh && sw * dh < (dw + 1) * sh)
  {
    if sw <= maxDim && sh <= maxDim {
    } else if sw >= sh {
      ShorterSide(sw, sh, maxDim);
    } else {
      ShorterSide(sh, sw, maxDim);
    }
  }

  lemma ShorterSide(long: nat, short: nat, maxDim: nat)
    requires 1 <= short <= long && 1 <= maxDim < long
    ensures var d := AtLeast1(short * maxDim / long);
      1 <= d <= short && d <= maxDim && (d - 1) * long <= short * maxDim < (d + 1) * long
  {
    FloorDivide(short * maxDim, long);
    QuotientBelow(short, maxDim, long);
    QuotientBelow(maxDim, short, long);
    Bracket(short * maxDim / long, long, short * maxDim);
  }

  lemma QuotientBelow(a: nat, b: nat, c: nat)
    requires c > 0 && b <= c
    ensures a * b / c <= a
  {
    if b < c {
      MulStep(b, c, a);
    }
    QuotientMonotone(a * b, a * c, c);
    QuotientOfProduct(a, c);
  }

  lemma Bracket(q: nat, long: nat, n: nat)
    requires q * long <= n < q * long + long
    ensures var d := AtLeast1(q); (d - 1) * long <= n < (d + 1) * long
  {
    assert (q + 1) * long == q * long + long;
    if q >= 1 {
      assert (q - 1) * long == q * long - long;
    } else {
      assert 0 * long == 0 && (0 + 1) * long == long && 2 * long == long + long;
    }
  }

  // ---------------------------------------------------------------- cells

  /** The target coordinate of a source coordinate, along one side of s source and d target pixels. */
  function Scale(x: nat, s: nat, d: nat): nat
    requires s > 0
  {
    x * d / s
  }

  lemma ScaleInRange(x: nat, s: nat, d: nat)
    requires x < s && d >= 1
    ensures Scale(x, s, d) < d
  {
    FloorDivide(x * d, s);
    MulStep(x, s, d);
    var q := x * d / s;
    if q > d {
      MulStep(d, q, s);
    }
  }

  /** Shrinking hits every target coordinate. */
  lemma ScaleOnto(t: nat, s: nat, d: nat) returns (x: nat)
    requires t < d <= s
    ensures x < s && Scale(x, s, d) == t
  {
    var n := t * s + d - 1;
    x := n / d;
    FloorDivide(n, d);
    MulStep(t, d, s);
    CeilBelow(x, s, d, n);
    QuotientIs(x * d, s, t);
  }

  lemma CeilBelow(x: nat, s: nat, d: nat, n: nat)
    requires x * d <= n && n < d * s
    ensures x < s
  {
    if x > s {
      MulStep(s, x, d);
    }
  }

  /** A source image shrunk to dw by dh. */
  datatype Job = Job(img: Image, dw: nat, dh: nat) {
    ghost predicate Valid() {
      img.Valid() && 1 <= dw <= img.dx && 1 <= dh <= img.dy
    }

    /** The flat index of the cell a source pixel falls into. */
    function Cell(x: nat, y: nat): nat
      requires Valid() && x < img.dx && y < img.dy
    {
      Scale(y, img.dy, dh) * dw + Scale(x, img.dx, dw)
    }

    /** What a source pixel adds to channel c of cell i; channel 4 counts pixels. */
    function Share(i: nat, c: nat, x: nat, y: nat): nat
      requires Valid() && x < img.dx && y < img.dy && c < 5
    {
      if Cell(x, y) != i then 0 else if c == 4 then 1 else img.rows[y][x].Channel(c)
    }

    /** The sum over the first x pixels of row y. */
    function RowSum(i: nat, c: nat, y: nat, x: nat): nat
      requires Valid() && x <= img.dx && y < img.dy && c < 5
    {
      if x == 0 then 0 else RowSum(i, c, y, x - 1) + Share(i, c, x - 1, y)
    }

    /** The sum over the first y rows. */
    function RowsSum(i: nat, c: nat, y: nat): nat
      requires Valid() && y <= img.dy && c < 5
    {
      if y == 0 then 0 else RowsSum(i, c, y - 1) + RowSum(i, c, y - 1, img.dx)
    }

    /** The sum over all source pixels of the cell. */
    function CellSum(i: nat, c: nat): nat
      requires Valid() && c < 5
    {
      RowsSum(i, c, img.dy)
    }
  }

  lemma FlatIndex(ty: nat, tx: nat, dw: nat, dh: nat)
    requires tx < dw && ty < dh
    ensures ty * dw + tx < dw * dh
  {
    MulStep(ty, dh, dw);
  }

  lemma CellInRange(j: Job, x: nat, y: nat)
    requires j.Valid() && x < j.img.dx && y < j.img.dy
    ensures j.Cell(x, y) < j.dw * j.dh
  {
    hide Scale;
    ScaleInRange(x, j.img.dx, j.dw);
    ScaleInRange(y, j.img.dy, j.dh);
    FlatIndex(Scale(y, j.img.dy, j.dh), Scale(x, j.img.dx, j.dw), j.dw, j.dh);
  }

  // ---------------------------------------------------------------- the accumulation pass

  /** Channel c of every cell, once y rows and x pixels of the next have been added. */
  ghost function Added(j: Job, c: nat, y: nat, x: nat): (s: seq<nat>)
    requires j.Valid() && c < 5 && y <= j.img.dy && x <= j.img.dx && (x == 0 || y < j.img.dy)
    ensures |s| == j.dw * j.dh
  {
    seq(j.dw * j.dh, i requires 0 <= i < j.dw * j.dh =>
      j.RowsSum(i, c, y) + if x == 0 then 0 else j.RowSum(i, c, y, x))
  }

  ghost function Sums(j: Job, c: nat): (s: seq<nat>)
    requires j.Valid() && c < 5
    ensures |s| == j.dw * j.dh && forall i :: 0 <= i < |s| ==> s[i] == j.CellSum(i, c)
  {
    Added(j, c, j.img.dy, 0)
  }

  lemma NothingAdded(j: Job)
    requires j.Valid()
    ensures forall c :: 0 <= c < 5 ==> Added(j, c, 0, 0) == seq(j.dw * j.dh, _ => 0)
  {
  }

  /** One pixel changes one cell, in every channel. */
  lemma ChannelAdded(j: Job, c: nat, y: nat, x: nat)
    requires j.Valid() && c < 5 && y < j.img.dy && x < j.img.dx
    ensures j.Cell(x, y) < j.dw * j.dh
    ensures var i := j.Cell(x, y);
      Added(j, c, y, x + 1) == Added(j, c, y, x)[i := Added(j, c, y, x)[i] + j.Share(i, c, x, y)]
  {
    CellInRange(j, x, y);
    hide Scale;
    var i := j.Cell(x, y);
    forall k | 0 <= k < j.dw * j.dh
      ensures Added(j, c, y, x + 1)[k] == Added(j, c, y, x)[k] + if k == i then j.Share(i, c, x, y) else 0
    {
      assert j.RowSum(k, c, y, x + 1) == j.RowSum(k, c, y, x) + j.Share(k, c, x, y);
    }
  }

  lemma RowAdded(j: Job, y: nat)
    requires j.Valid() && y < j.img.dy
    ensures forall c :: 0 <= c < 5 ==> Added(j, c, y, j.img.dx) == Added(j, c, y + 1, 0)
  {
  }

  /** One channel of a pixel goes into its cell. */
  method AddChannel(j: Job, c: nat, y: nat, x: nat, i: nat, v: nat, a: array<nat>)
    requires j.Valid() && c < 5 && y < j.img.dy && x < j.img.dx && i == j.Cell(x, y) && v == j.Share(i, c, x, y)
    requires a[..] == Added(j, c, y, x)
    modifies a
    ensures a[..] == Added(j, c, y, x + 1)
  {
    ChannelAdded(j, c, y, x);
    hide Added, Scale, Job.Cell, Job.Share;
    a[i] := a[i] + v;
  }

  /** To its own cell a pixel gives the upper byte of each channel, and counts one. */
  lemma PixelShares(j: Job, y: nat, x: nat)
    requires j.Valid() && y < j.img.dy && x < j.img.dx
    ensures var p, i := j.img.rows[y][x], j.Cell(x, y);
      && i >= 0 && j.Share(i, 0, x, y) == p.r / 0x100 && j.Share(i, 1, x, y) == p.g / 0x100
      && j.Share(i, 2, x, y) == p.b / 0x100 && j.Share(i, 3, x, y) == p.a / 0x100 && j.Share(i, 4, x, y) == 1
  {
  }

  /** One pixel goes into its cell, in place. */
  method AddPixel(j: Job, y: nat, x: nat, i: nat,
                  rs: array<nat>, gs: array<nat>, bs: array<nat>, al: array<nat>, cnt: array<nat>)
    requires j.Valid() && y < j.img.dy && x < j.img.dx && i == j.Cell(x, y)
    requires rs != gs && rs != bs && rs != al && rs != cnt && gs != bs && gs != al && gs != cnt
    requires bs != al && bs != cnt && al != cnt
    requires rs[..] == Added(j, 0, y, x) && gs[..] == Added(j, 1, y, x) && bs[..] == Added(j, 2, y, x)
    requires al[..] == Added(j, 3, y, x) && cnt[..] == Added(j, 4, y, x)
    modifies rs, gs, bs, al, cnt
    ensures rs[..] == Added(j, 0, y, x + 1) && gs[..] == Added(j, 1, y, x + 1) && bs[..] == Added(j, 2, y, x + 1)
    ensures al[..] == Added(j, 3, y, x + 1) && cnt[..] == Added(j, 4, y, x + 1)
  {
    PixelShares(j, y, x);
    hide Added, Scale, Job.Cell, Job.Share;
    var p := j.img.rows[y][x];
    AddChannel(j, 0, y, x, i, p.r / 0x100, rs);
    AddChannel(j, 1, y, x, i, p.g / 0x100, gs);
    AddChannel(j, 2, y, x, i, p.b / 0x100, bs);
    AddChannel(j, 3, y, x, i, p.a / 0x100, al);
    AddChannel(j, 4, y, x, i, 1, cnt);
  }

  /** The pixel loop: four colour sums and a count for each target cell. */
  method Accumulate(j: Job) returns (rs: array<nat>, gs: array<nat>, bs: array<nat>, al: array<nat>, cnt: array<nat>)
    requires j.Valid()
    ensures rs[..] == Sums(j, 0) && gs[..] == Sums(j, 1) && bs[..] == Sums(j, 2)
    ensures al[..] == Sums(j, 3) && cnt[..] == Sums(j, 4)
  {
    hide Added;
    var sw, sh, n := j.img.dx, j.img.dy, j.dw * j.dh;
    rs, gs, bs := new nat[n](_ => 0), new nat[n](_ => 0), new nat[n](_ => 0);
    al, cnt := new nat[n](_ => 0), new nat[n](_ => 0);
    NothingAdded(j);
    for y := 0 to sh
      invariant rs[..] == Added(j, 0, y, 0) && gs[..] == Added(j, 1, y, 0) && bs[..] == Added(j, 2, y, 0)
      invariant al[..] == Added(j, 3, y, 0) && cnt[..] == Added(j, 4, y, 0)
    {
      var ty := y * j.dh / sh;
      var rowBase := ty * j.dw;
      for x := 0 to sw
        invariant rs[..] == Added(j, 0, y, x) && gs[..] == Added(j, 1, y, x) && bs[..] == Added(j, 2, y, x)
        invariant al[..] == Added(j, 3, y, x) && cnt[..] == Added(j, 4, y, x)
      {
        var tx := x * j.dw / sw;
        assert rowBase + tx == j.Cell(x, y);
        AddPixel(j, y, x, rowBase + tx, rs, gs, bs, al, cnt);
      }
      RowAdded(j, y);
    }
  }

  // ---------------------------------------------------------------- every cell has a pixel, every pixel one cell

  lemma {:induction false} RowSumGrows(j: Job, i: nat, c: nat, y: nat, x: nat, upto: nat)
    requires j.Valid() && y < j.img.dy && c < 5 && x < upto <= j.img.dx
    ensures j.RowSum(i, c, y, upto) >= j.Share(i, c, x, y)
  {
    if x + 1 < upto {
      RowSumGrows(j, i, c, y, x, upto - 1);
    }
  }

  lemma {:induction false} RowsSumGrows(j: Job, i: nat, c: nat, y: nat, upto: nat)
    requires j.Valid() && c < 5 && y < upto <= j.img.dy
    ensures j.RowsSum(i, c, upto) >= j.RowSum(i, c, y, j.img.dx)
  {
    if y + 1 < upto {
      RowsSumGrows(j, i, c, y, upto - 1);
    }
  }

  /** Every target cell receives at least one source pixel, so the empty-cell branch is dead. */
  lemma NoEmptyCell(j: Job, i: nat)
    requires j.Valid() && i < j.dw * j.dh
    ensures j.CellSum(i, 4) >= 1
  {
    var tx, ty := i % j.dw, i / j.dw;
    assert i == ty * j.dw + tx;
    IndexRow(ty, i, j.dw, j.dh);
    var x := ScaleOnto(tx, j.img.dx, j.dw);
    var y := ScaleOnto(ty, j.img.dy, j.dh);
    hide Scale;
    assert j.Share(i, 4, x, y) == 1;
    RowSumGrows(j, i, 4, y, x, j.img.dx);
    RowsSumGrows(j, i, 4, y, j.img.dy);
  }

  lemma IndexRow(ty: nat, i: nat, dw: nat, dh: nat)
    requires ty * dw <= i < dw * dh
    ensures ty < dh
  {
    if ty > dh {
      MulStep(dh, ty, dw);
    }
  }

  /** The pixels counted in the first n cells. */
  ghost function Counted(j: Job, n: nat): nat
    requires j.Valid()
  {
    if n == 0 then 0 else Counted(j, n - 1) + j.CellSum(n - 1, 4)
  }

  ghost function RowCounted(j: Job, n: nat, y: nat, x: nat): nat
    requires j.Valid() && y < j.img.dy && x <= j.img.dx
  {
    if n == 0 then 0 else RowCounted(j, n - 1, y, x) + j.RowSum(n - 1, 4, y, x)
  }

  ghost function RowsCounted(j: Job, n: nat, y: nat): nat
    requires j.Valid() && y <= j.img.dy
  {
    if n == 0 then 0 else RowsCounted(j, n - 1, y) + j.RowsSum(n - 1, 4, y)
  }

  lemma {:induction false} OnePixelOneCell(j: Job, n: nat, y: nat, x: nat)
    requires j.Valid() && y < j.img.dy && x < j.img.dx
    ensures RowCounted(j, n, y, x + 1) == RowCounted(j, n, y, x) + if j.Cell(x, y) < n then 1 else 0
  {
    if n > 0 {
      OnePixelOneCell(j, n - 1, y, x);
    }
  }

  lemma {:induction false} RowCountedAll(j: Job, y: nat, x: nat)
    requires j.Valid() && y < j.img.dy && x <= j.img.dx
    ensures RowCounted(j, j.dw * j.dh, y, x) == x
  {
    hide RowCounted, Job.Cell;
    if x == 0 {
      NothingInEmptyRow(j, j.dw * j.dh, y);
    } else {
      RowCountedAll(j, y, x - 1);
      OnePixelOneCell(j, j.dw * j.dh, y, x - 1);
      CellInRange(j, x - 1, y);
    }
  }

  lemma {:induction false} NothingInEmptyRow(j: Job, n: nat, y: nat)
    requires j.Valid() && y < j.img.dy
    ensures RowCounted(j, n, y, 0) == 0
  {
    if n > 0 {
      NothingInEmptyRow(j, n - 1, y);
    }
  }

  lemma {:induction false} RowsCountedStep(j: Job, n: nat, y: nat)
    requires j.Valid() && y < j.img.dy
    ensures RowsCounted(j, n, y + 1) == RowsCounted(j, n, y) + RowCounted(j, n, y, j.img.dx)
  {
    if n > 0 {
      RowsCountedStep(j, n - 1, y);
    }
  }

  lemma {:induction false} RowsCountedAll(j: Job, y: nat)
    requires j.Valid() && y <= j.img.dy
    ensures RowsCounted(j, j.dw * j.dh, y) == y * j.img.dx
  {
    hide RowCounted, RowsCounted;
    if y == 0 {
      NothingInNoRows(j, j.dw * j.dh);
    } else {
      RowsCountedAll(j, y - 1);
      RowsCountedStep(j, j.dw * j.dh, y - 1);
      RowCountedAll(j, y - 1, j.img.dx);
      Distribute(j.img.dx, y - 1, 1);
    }
  }

  lemma {:induction false} NothingInNoRows(j: Job, n: nat)
    requires j.Valid()
    ensures RowsCounted(j, n, 0) == 0
  {
    if n > 0 {
      NothingInNoRows(j, n - 1);
    }
  }

  lemma {:induction false} CountedIsRowsCounted(j: Job, n: nat)
    requires j.Valid()
    ensures Counted(j, n) == RowsCounted(j, n, j.img.dy)
  {
    if n > 0 {
      CountedIsRowsCounted(j, n - 1);
    }
  }

  /** The cell counts sum to the number of source pixels: none is dropped or counted twice. */
  lemma CountsSumToPixels(j: Job)
    requires j.Valid()
    ensures Counted(j, j.dw * j.dh) == j.img.dy * j.img.dx
  {
    CountedIsRowsCounted(j, j.dw * j.dh);
    RowsCountedAll(j, j.img.dy);
  }

  // ---------------------------------------------------------------- means

  ghost predicate Dominated(j: Job, i: nat, c: nat, d: nat, k: nat)
    requires j.Valid() && c < 5 && d < 5
  {
    forall u, v :: 0 <= u < j.img.dx && 0 <= v < j.img.dy ==> j.Share(i, c, u, v) <= k * j.Share(i, d, u, v)
  }

  lemma {:induction false} RowDominated(j: Job, i: nat, c: nat, d: nat, k: nat, y: nat, x: nat)
    requires j.Valid() && y < j.img.dy && x <= j.img.dx && c < 5 && d < 5 && Dominated(j, i, c, d, k)
    ensures j.RowSum(i, c, y, x) <= k * j.RowSum(i, d, y, x)
  {
    hide Job.Share;
    if x > 0 {
      RowDominated(j, i, c, d, k, y, x - 1);
      Distribute(k, j.RowSum(i, d, y, x - 1), j.Share(i, d, x - 1, y));
    }
  }

  lemma Distribute(k: nat, a: nat, b: nat)
    ensures k * (a + b) == k * a + k * b
  {
  }

  /** A bound that holds pixel by pixel holds for the sums. */
  lemma {:induction false} RowsDominated(j: Job, i: nat, c: nat, d: nat, k: nat, y: nat)
    requires j.Valid() && y <= j.img.dy && c < 5 && d < 5 && Dominated(j, i, c, d, k)
    ensures j.RowsSum(i, c, y) <= k * j.RowsSum(i, d, y)
  {
    hide Job.Share, Job.RowSum, Dominated;
    if y > 0 {
      RowsDominated(j, i, c, d, k, y - 1);
      RowDominated(j, i, c, d, k, y - 1, j.img.dx);
      Distribute(k, j.RowsSum(i, d, y - 1), j.RowSum(i, d, y - 1, j.img.dx));
    }
  }

  /** Every mean is a byte. */
  lemma MeanIsByte(j: Job, i: nat, c: nat)
    requires j.Valid() && i < j.dw * j.dh && c < 4
    ensures j.CellSum(i, 4) >= 1 && j.CellSum(i, c) / j.CellSum(i, 4) <= 255
  {
    NoEmptyCell(j, i);
    assert Dominated(j, i, c, 4, 255);
    RowsDominated(j, i, c, 4, 255, j.img.dy);
    QuotientMonotone(j.CellSum(i, c), 255 * j.CellSum(i, 4), j.CellSum(i, 4));
    QuotientOfProduct(255, j.CellSum(i, 4));
  }

  ghost predicate Premultiplied(img: Image)
    requires img.Valid()
  {
    forall x, y :: 0 <= x < img.dx && 0 <= y < img.dy ==>
      var p := img.rows[y][x]; p.r <= p.a && p.g <= p.a && p.b <= p.a
  }

  /** The thumbnail of a premultiplied image is premultiplied: no colour mean exceeds its alpha mean. */
  lemma MeansStayPremultiplied(j: Job, i: nat, c: nat)
    requires j.Valid() && i < j.dw * j.dh && c < 3 && Premultiplied(j.img)
    ensures j.CellSum(i, 4) >= 1 && j.CellSum(i, c) / j.CellSum(i, 4) <= j.CellSum(i, 3) / j.CellSum(i, 4)
  {
    NoEmptyCell(j, i);
    assert Dominated(j, i, c, 3, 1) by {
      hide Job.Cell;
      forall u, v | 0 <= u < j.img.dx && 0 <= v < j.img.dy
        ensures j.Share(i, c, u, v) <= 1 * j.Share(i, 3, u, v)
      {
        var p := j.img.rows[v][u];
        assert p.r <= p.a && p.g <= p.a && p.b <= p.a;
      }
    }
    RowsDominated(j, i, c, 3, 1, j.img.dy);
    QuotientMonotone(j.CellSum(i, c), j.CellSum(i, 3), j.CellSum(i, 4));
  }

  // ---------------------------------------------------------------- the whole operation

  ghost predicate IsMean(j: Job, i: nat, c: nat, v: U8)
    requires j.Valid() && c < 4
  {
    j.CellSum(i, 4) >= 1 && v == j.CellSum(i, c) / j.CellSum(i, 4)
  }

  /** The four bytes of target pixel k are the floored means of its cell. */
  ghost predicate PixelIsMean(j: Job, s: seq<U8>, k: nat)
    requires j.Valid() && 4 * k + 3 < |s|
  {
    && IsMean(j, k, 0, s[4 * k]) && IsMean(j, k, 1, s[4 * k + 1])
    && IsMean(j, k, 2, s[4 * k + 2]) && IsMean(j, k, 3, s[4 * k + 3])
  }

  lemma BoxPositive(sw: nat, sh: nat, maxDim: nat)
    requires maxDim >= 1
    ensures FitBox(sw, sh, maxDim).0 >= 1 && FitBox(sw, sh, maxDim).1 >= 1
  {
  }

  /** Writes the means of cell i. */
  method StoreMeans(j: Job, pix: array<U8>, i: nat, r: nat, g: nat, b: nat, a: nat, count: nat)
    requires j.Valid() && i < j.dw * j.dh && pix.Length == 4 * (j.dw * j.dh)
    requires r == j.CellSum(i, 0) && g == j.CellSum(i, 1) && b == j.CellSum(i, 2)
    requires a == j.CellSum(i, 3) && count == j.CellSum(i, 4)
    modifies pix
    ensures PixelIsMean(j, pix[..], i)
    ensures forall k :: 0 <= k < pix.Length && !(4 * i <= k < 4 * i + 4) ==> pix[k] == old(pix[k])
  {
    var n := if count == 0 then 1 else count;
    NoEmptyCell(j, i);
    MeanIsByte(j, i, 0);
    MeanIsByte(j, i, 1);
    MeanIsByte(j, i, 2);
    MeanIsByte(j, i, 3);
    hide Job.CellSum, Job.Valid;
    pix[4 * i] := r / n;
    pix[4 * i + 1] := g / n;
    pix[4 * i + 2] := b / n;
    pix[4 * i + 3] := a / n;
  }

  /** The division loop: sums become means. */
  method Divide(j: Job, pix: array<U8>,
                rs: array<nat>, gs: array<nat>, bs: array<nat>, al: array<nat>, cnt: array<nat>)
    requires j.Valid() && pix.Length == 4 * (j.dw * j.dh)
    requires rs[..] == Sums(j, 0) && gs[..] == Sums(j, 1) && bs[..] == Sums(j, 2)
    requires al[..] == Sums(j, 3) && cnt[..] == Sums(j, 4)
    modifies pix
    ensures forall k :: 0 <= k < j.dw * j.dh ==> PixelIsMean(j, pix[..], k)
  {
    hide Job.CellSum, Image.Valid;
    var n := j.dw * j.dh;
    for i := 0 to n
      invariant forall k :: 0 <= k < i ==> PixelIsMean(j, pix[..], k)
    {
      assert rs[i] == rs[..][i] && gs[i] == gs[..][i] && bs[i] == bs[..][i];
      assert al[i] == al[..][i] && cnt[i] == cnt[..][i];
      ghost var was := pix[..];
      StoreMeans(j, pix, i, rs[i], gs[i], bs[i], al[i], cnt[i]);
      EarlierPixelsKept(j, was, pix[..], i);
    }
  }

  lemma EarlierPixelsKept(j: Job, was: seq<U8>, now: seq<U8>, i: nat)
    requires j.Valid() && |was| == |now| && 4 * i + 3 < |now|
    requires forall k :: 0 <= k < 4 * i ==> now[k] == was[k]
    requires forall k :: 0 <= k < i ==> PixelIsMean(j, was, k)
    ensures forall k :: 0 <= k < i ==> PixelIsMean(j, now, k)
  {
    forall k | 0 <= k < i
      ensures PixelIsMean(j, now, k)
    {
      assert PixelIsMean(j, was, k);
    }
  }

  /** The whole operation: every target byte is the floored mean of its channel over the cell. */
  method Downscale(img: Image, maxDim: nat) returns (dw: nat, dh: nat, pix: array<U8>)
    requires img.Valid() && maxDim >= 1
    ensures (dw as int, dh as int) == FitBox(img.dx, img.dy, maxDim) && pix.Length == 4 * (dw * dh)
    ensures img.dx == 0 || img.dy == 0 ==> forall i :: 0 <= i < pix.Length ==> pix[i] == 0
    ensures img.dx > 0 && img.dy > 0 ==>
      var j := Job(img, dw, dh);
      j.Valid() && forall k :: 0 <= k < dw * dh ==> PixelIsMean(j, pix[..], k)
  {
    var (w, h) := FitBox(img.dx, img.dy, maxDim);
    BoxPositive(img.dx, img.dy, maxDim);
    dw, dh := w, h;
    pix := new U8[4 * (dw * dh)](_ => 0);
    if img.dx <= 0 || img.dy <= 0 {
      return;
    }
    FitBoxShrinks(img.dx, img.dy, maxDim);
    var j := Job(img, dw, dh);
    var rs, gs, bs, al, cnt := Accumulate(j);
    Divide(j, pix, rs, gs, bs, al, cnt);
  }
}
