/** The firmware framebuffer: clipped, vertically mirrored 2bpp pixel writes, the drawing loops built on
    them, and the host decoder that undoes the mirror and the packing. */
module Framebuffer {
  import opened Bwry

  /** The two low bits of a C int, negative ones included. */
  function Low2(code: int): (c: bv8)
    ensures c & 3 == c && c as int == code % 4
  {
    CodeOf(code % 4)
  }

  // ---------------------------------------------------------------- one packed byte

  function SetField(b: bv8, i: nat, c: bv8): bv8
    requires i < 4
  {
    (b & !(3 << (6 - 2 * i))) | (c << (6 - 2 * i))
  }

  /** Writing field i changes field i and no other. */
  lemma FieldOfSetField(b: bv8, i: nat, c: bv8, j: nat)
    requires i < 4 && j < 4 && c & 3 == c
    ensures Field(SetField(b, i, c), j) == if i == j then c else Field(b, j)
  {
    if i == 0 { SetField0(b, c, j); }
    else if i == 1 { SetField1(b, c, j); }
    else if i == 2 { SetField2(b, c, j); }
    else { SetField3(b, c, j); }
  }

  lemma SetField0(b: bv8, c: bv8, j: nat)
    requires j < 4 && c & 3 == c
    ensures Field(SetField(b, 0, c), j) == if j == 0 then c else Field(b, j)
  {}

  lemma SetField1(b: bv8, c: bv8, j: nat)
    requires j < 4 && c & 3 == c
    ensures Field(SetField(b, 1, c), j) == if j == 1 then c else Field(b, j)
  {}

  lemma SetField2(b: bv8, c: bv8, j: nat)
    requires j < 4 && c & 3 == c
    ensures Field(SetField(b, 2, c), j) == if j == 2 then c else Field(b, j)
  {}

  lemma SetField3(b: bv8, c: bv8, j: nat)
    requires j < 4 && c & 3 == c
    ensures Field(SetField(b, 3, c), j) == if j == 3 then c else Field(b, j)
  {}

  // ---------------------------------------------------------------- what a frame shows

  function OnScreen(x: int, y: int): bool {
    0 <= x < WIDTH && 0 <= y < HEIGHT
  }

  /** The field index behind the viewer's pixel (x, y): the rows are stored bottom up. */
  function Slot(x: int, y: int): int {
    (HEIGHT - 1 - y) * WIDTH + x
  }

  /** The code a viewer sees at (x, y), as the host decoder reads it. */
  function Shown(fb: seq<bv8>, x: int, y: int): bv8
    requires |fb| == PACKED_SIZE && OnScreen(x, y)
  {
    Field(fb[Slot(x, y) / 4], Slot(x, y) % 4)
  }

  lemma ShownOfUpdate(fb: seq<bv8>, x: int, y: int, c: bv8, u: int, v: int)
    requires |fb| == PACKED_SIZE && OnScreen(x, y) && OnScreen(u, v) && c & 3 == c
    ensures Shown(fb[Slot(x, y) / 4 := SetField(fb[Slot(x, y) / 4], Slot(x, y) % 4, c)], u, v) ==
            if u == x && v == y then c else Shown(fb, u, v)
  {
    hide Field, SetField;
    FieldOfSetField(fb[Slot(x, y) / 4], Slot(x, y) % 4, c, Slot(u, v) % 4);
  }

  /** A frame is the packed mirror of the plane it shows. */
  lemma FrameIsPackedMirror(fb: seq<bv8>) returns (plane: seq<bv8>, codes: seq<bv8>)
    requires |fb| == PACKED_SIZE
    ensures |plane| == WIDTH * HEIGHT && IsFlip(WIDTH, HEIGHT, plane, codes) && IsPacked(codes, fb)
    ensures forall x, y {:trigger At(plane, WIDTH, x, y)} :: OnScreen(x, y) ==> At(plane, WIDTH, x, y) == Shown(fb, x, y)
  {
    plane := seq(WIDTH * HEIGHT, i requires 0 <= i < WIDTH * HEIGHT => Shown(fb, i % WIDTH, i / WIDTH));
    codes := seq(WIDTH * HEIGHT, i requires 0 <= i < WIDTH * HEIGHT => Field(fb[i / 4], i % 4));
    hide Field, Shown, At, Ix;
    forall x, y {:trigger At(plane, WIDTH, x, y)} | OnScreen(x, y)
      ensures At(plane, WIDTH, x, y) == Shown(fb, x, y)
    {
      AtIx(plane, x, y);
    }
    forall x, y {:trigger At(codes, WIDTH, x, y)} | 0 <= x < WIDTH && 0 <= y < HEIGHT
      ensures At(codes, WIDTH, x, y) == At(plane, WIDTH, x, HEIGHT - 1 - y)
    {
      AtIx(codes, x, y);
      ShownField(fb, x, HEIGHT - 1 - y);
      assert At(plane, WIDTH, x, HEIGHT - 1 - y) == Shown(fb, x, HEIGHT - 1 - y);
    }
    PacksItsFields(codes, fb);
  }

  lemma AtIx(plane: seq<bv8>, x: int, y: int)
    requires |plane| == WIDTH * HEIGHT && OnScreen(x, y)
    ensures 0 <= Ix(WIDTH, x, y) < |plane| && At(plane, WIDTH, x, y) == plane[Ix(WIDTH, x, y)]
    ensures Ix(WIDTH, x, y) % WIDTH == x && Ix(WIDTH, x, y) / WIDTH == y
  {
  }

  lemma ShownField(fb: seq<bv8>, x: int, y: int)
    requires |fb| == PACKED_SIZE && OnScreen(x, y)
    ensures 0 <= Ix(WIDTH, x, HEIGHT - 1 - y) < WIDTH * HEIGHT
    ensures Shown(fb, x, y) == Field(fb[Ix(WIDTH, x, HEIGHT - 1 - y) / 4], Ix(WIDTH, x, HEIGHT - 1 - y) % 4)
  {
  }

  lemma PacksItsFields(codes: seq<bv8>, fb: seq<bv8>)
    requires |codes| == 4 * |fb| && forall i :: 0 <= i < |codes| ==> codes[i] == Field(fb[i / 4], i % 4)
    ensures IsPacked(codes, fb)
  {
    hide Field;
    forall n, i | 0 <= n < |fb| && 0 <= i < 4
      ensures Field(fb[n], i) == CodeAt(codes, 4 * n + i)
    {
      FieldIsCode(fb[n], i);
      assert (4 * n + i) / 4 == n && (4 * n + i) % 4 == i;
    }
  }

  lemma FieldIsCode(b: bv8, i: nat)
    requires i < 4
    ensures Field(b, i) & 3 == Field(b, i)
  {
    assert i == 0 || i == 1 || i == 2 || i == 3;
  }

  /** Decoding the packed mirror of a plane of codes recovers the plane. */
  lemma DecodeRecoversPlane(plane: seq<bv8>, codes: seq<bv8>, fb: seq<bv8>, x: int, y: int)
    requires IsFlip(WIDTH, HEIGHT, plane, codes) && IsPacked(codes, fb) && OnScreen(x, y)
    ensures |fb| == PACKED_SIZE && Shown(fb, x, y) == At(plane, WIDTH, x, y) & 3
  {
    hide Field;
    assert At(codes, WIDTH, x, HEIGHT - 1 - y) == At(plane, WIDTH, x, y);
    assert Field(fb[Slot(x, y) / 4], Slot(x, y) % 4) == CodeAt(codes, 4 * (Slot(x, y) / 4) + Slot(x, y) % 4);
  }

  /** The host decoder's loops, up to the palette lookup. */
  method DecodeFrame(data: seq<bv8>) returns (ok: bool, img: seq<bv8>)
    ensures ok <==> |data| == PACKED_SIZE
    ensures ok ==> |img| == WIDTH * HEIGHT
    ensures ok ==> forall x, y {:trigger At(img, WIDTH, x, y)} :: OnScreen(x, y) ==> At(img, WIDTH, x, y) == Shown(data, x, y)
  {
    hide Field;
    if |data| != PACKED_SIZE {
      return false, [];
    }
    ok := true;
    var px := new bv8[WIDTH * HEIGHT];
    for y := 0 to HEIGHT
      invariant forall u, v {:trigger At(px[..], WIDTH, u, v)} :: OnScreen(u, v) && v < y ==> At(px[..], WIDTH, u, v) == Shown(data, u, v)
    {
      var sy := HEIGHT - 1 - y;
      for x := 0 to WIDTH
        invariant forall u, v {:trigger At(px[..], WIDTH, u, v)} :: OnScreen(u, v) && (v < y || (v == y && u < x)) ==>
          At(px[..], WIDTH, u, v) == Shown(data, u, v)
      {
        var idx := sy * WIDTH + x;
        AtUpdate(px[..], WIDTH, HEIGHT, x, y, Field(data[idx / 4], idx % 4));
        ghost var was := px[..];
        px[Ix(WIDTH, x, y)] := Field(data[idx / 4], idx % 4);
        assert px[..] == was[Ix(WIDTH, x, y) := Field(data[idx / 4], idx % 4)];
      }
    }
    img := px[..];
  }

  // ---------------------------------------------------------------- the midpoint circle's geometry

  /** (x, y) is a point of the first octant of the rasterized circle of radius r. */
  ghost predicate OnArc(r: int, x: int, y: int) {
    && 0 <= y <= x
    && r * r <= x * x + x + y * y
    && if r == 0 then x == 0 else x * x - x + y * y < r * r
  }

  /** What OnArc means: x is the integer nearest to the square root of r*r - y*y. */
  lemma ArcIsNearestColumn(r: int, x: int, y: int)
    requires r > 0 && 0 <= y <= x
    ensures OnArc(r, x, y) <==> (2 * x - 1) * (2 * x - 1) < 4 * (r * r - y * y) < (2 * x + 1) * (2 * x + 1)
  {
    assert (2 * x - 1) * (2 * x - 1) == 4 * (x * x - x) + 1;
    assert (2 * x + 1) * (2 * x + 1) == 4 * (x * x + x) + 1;
  }

  lemma SquareLess(a: int, b: int)
    requires 0 <= a < b
    ensures a * a + a <= b * b - b
  {
    assert (b - a - 1) * (a + b) >= 0;
    assert (b - a - 1) * (a + b) == b * b - a * a - a - b;
  }

  /** One point a row. */
  lemma ArcUnique(r: int, x: int, u: int, y: int)
    requires r >= 0 && OnArc(r, x, y) && OnArc(r, u, y)
    ensures x == u
  {
    if x < u {
      SquareLess(x, u);
    } else if u < x {
      SquareLess(u, x);
    }
  }

  /** Where the loop stops (x < y), no later row has a point in the octant. */
  lemma ArcEnds(r: int, x: int, y: int, u: int, v: int)
    requires r >= 0 && -1 <= x < y <= v && 1 <= y && r * r <= x * x + x + y * y
    ensures !OnArc(r, u, v)
  {
    SquareLess(if x < 0 then 0 else x, y);
    PronicMonotone(y, v);
    SquareMonotone(y, v);
    if v <= u {
      PronicMonotone(v, u);
    }
  }

  lemma PronicMonotone(a: int, b: int)
    requires 1 <= a <= b
    ensures a * a - a <= b * b - b
  {
    assert (b - a) * (b + a - 1) >= 0;
    assert (b - a) * (b + a - 1) == b * b - b - (a * a - a);
  }

  lemma SquareMonotone(a: int, b: int)
    requires 0 <= a <= b
    ensures a * a <= b * b
  {
    assert (b - a) * (b + a) >= 0;
    assert (b - a) * (b + a) == b * b - a * a;
  }

  function Abs(a: int): int {
    if a < 0 then -a else a
  }

  function Max(a: int, b: int): int {
    if a < b then b else a
  }

  function Min(a: int, b: int): int {
    if a < b then a else b
  }

  /** (u, v) is on the circle of radius r about (cx, cy), by the octant symmetry. */
  ghost predicate OnCircle(cx: int, cy: int, r: int, u: int, v: int) {
    OnArc(r, Max(Abs(u - cx), Abs(v - cy)), Min(Abs(u - cx), Abs(v - cy)))
  }

  /** The part of the circle in the first n rows of each octant. */
  ghost predicate CircleRows(cx: int, cy: int, r: int, n: int, u: int, v: int) {
    OnCircle(cx, cy, r, u, v) && Min(Abs(u - cx), Abs(v - cy)) < n
  }

  /** The loop invariant of the midpoint walk: the error term, and how close (x, y) is to the circle. */
  ghost predicate Walk(r: int, x: int, y: int, err: int) {
    && 0 <= y && -1 <= x
    && (r == 0 ==> x == -y)
    && err == x * x - x + (y + 1) * (y + 1) - r * r
    && r * r <= x * x + x + y * y
    && (x >= y ==> OnArc(r, x, y))
  }

  lemma WalkStart(r: int)
    requires r >= 0
    ensures Walk(r, r, 0, 1 - r)
  {
  }

  lemma WalkStep(r: int, x: int, y: int, err: int)
    requires r >= 0 && Walk(r, x, y, err) && x >= y
    ensures err < 0 ==> Walk(r, x, y + 1, err + 2 * (y + 1) + 1)
    ensures err >= 0 ==> Walk(r, x - 1, y + 1, err + 2 * (y + 1 - (x - 1)) + 1)
  {
    assert (y + 2) * (y + 2) == (y + 1) * (y + 1) + 2 * (y + 1) + 1;
    assert (x - 1) * (x - 1) - (x - 1) == x * x - x - 2 * (x - 1);
    assert (x - 1) * (x - 1) + (x - 1) == x * x - x;
    assert (y + 1) * (y + 1) == y * y + 2 * y + 1;
  }

  // ---------------------------------------------------------------- the drawing operations

  class Screen {
    const fb: array<bv8>

    ghost predicate Valid()
      reads this
    {
      fb.Length == PACKED_SIZE
    }

    constructor ()
      ensures Valid() && fresh(fb)
      ensures forall u, v :: OnScreen(u, v) ==> Shown(fb[..], u, v) == 0
    {
      fb := new bv8[PACKED_SIZE](_ => 0);
    }

    method Px(x: int, y: int, code: int)
      requires Valid()
      modifies fb
      ensures forall u, v {:trigger Shown(fb[..], u, v)} :: OnScreen(u, v) ==>
        Shown(fb[..], u, v) == if u == x && v == y then Low2(code) else old(Shown(fb[..], u, v))
    {
      hide Field, SetField;
      if x < 0 || x >= WIDTH || y < 0 || y >= HEIGHT {
        return;
      }
      var idx := (HEIGHT - 1 - y) * WIDTH + x;
      ghost var was := fb[..];
      fb[idx / 4] := SetField(fb[idx / 4], idx % 4, Low2(code));
      assert fb[..] == was[idx / 4 := SetField(was[idx / 4], idx % 4, Low2(code))];
      forall u, v | OnScreen(u, v)
        ensures Shown(fb[..], u, v) == if u == x && v == y then Low2(code) else Shown(was, u, v)
      {
        ShownOfUpdate(was, x, y, Low2(code), u, v);
      }
    }

    /** memset with a byte that repeats the code four times. */
    method Fill(code: int)
      requires Valid()
      modifies fb
      ensures forall u, v :: OnScreen(u, v) ==> Shown(fb[..], u, v) == Low2(code)
    {
      var b := Low2(code) * 0x55;
      forall i | 0 <= i < fb.Length {
        fb[i] := b;
      }
      FilledByte(Low2(code));
    }

    lemma FilledByte(c: bv8)
      requires c & 3 == c
      ensures Field(c * 0x55, 0) == c && Field(c * 0x55, 1) == c && Field(c * 0x55, 2) == c && Field(c * 0x55, 3) == c
    {
      assert c == 0 || c == 1 || c == 2 || c == 3;
    }

    method RectFilled(x: int, y: int, w: int, h: int, code: int)
      requires Valid() && w > 0 && h > 0
      modifies fb
      ensures forall u, v {:trigger Shown(fb[..], u, v)} :: OnScreen(u, v) ==>
        Shown(fb[..], u, v) == if x <= u < x + w && y <= v < y + h then Low2(code) else old(Shown(fb[..], u, v))
    {
      hide Field;
      for j := 0 to h
        invariant forall u, v {:trigger Shown(fb[..], u, v)} :: OnScreen(u, v) ==>
          Shown(fb[..], u, v) == if x <= u < x + w && y <= v < y + j then Low2(code) else old(Shown(fb[..], u, v))
      {
        for i := 0 to w
          invariant forall u, v {:trigger Shown(fb[..], u, v)} :: OnScreen(u, v) ==>
            Shown(fb[..], u, v) == if x <= u < x + w && (y <= v < y + j || (v == y + j && u < x + i)) then Low2(code) else old(Shown(fb[..], u, v))
        {
          Px(x + i, y + j, code);
        }
      }
    }

    method RectOutline(x: int, y: int, w: int, h: int, code: int)
      requires Valid() && w > 0 && h > 0
      modifies fb
      ensures forall u, v {:trigger Shown(fb[..], u, v)} :: OnScreen(u, v) ==>
        Shown(fb[..], u, v) ==
        if x <= u < x + w && y <= v < y + h && (u == x || u == x + w - 1 || v == y || v == y + h - 1) then Low2(code)
        else old(Shown(fb[..], u, v))
    {
      hide Field;
      for i := 0 to w
        invariant forall u, v {:trigger Shown(fb[..], u, v)} :: OnScreen(u, v) ==>
          Shown(fb[..], u, v) == if x <= u < x + i && (v == y || v == y + h - 1) then Low2(code) else old(Shown(fb[..], u, v))
      {
        Px(x + i, y, code);
        Px(x + i, y + h - 1, code);
      }
      for j := 0 to h
        invariant forall u, v {:trigger Shown(fb[..], u, v)} :: OnScreen(u, v) ==>
          Shown(fb[..], u, v) ==
          if (x <= u < x + w && (v == y || v == y + h - 1)) || (y <= v < y + j && (u == x || u == x + w - 1)) then Low2(code)
          else old(Shown(fb[..], u, v))
      {
        Px(x, y + j, code);
        Px(x + w - 1, y + j, code);
      }
    }

    /** Nothing is drawn for an empty size. */
    method Rect(x: int, y: int, w: int, h: int, code: int, filled: bool)
      requires Valid()
      modifies fb
      ensures forall u, v {:trigger Shown(fb[..], u, v)} :: OnScreen(u, v) ==>
        Shown(fb[..], u, v) ==
        if x <= u < x + w && y <= v < y + h && (filled || u == x || u == x + w - 1 || v == y || v == y + h - 1) then Low2(code)
        else old(Shown(fb[..], u, v))
    {
      hide Field;
      if w <= 0 || h <= 0 {
        return;
      }
      if filled {
        RectFilled(x, y, w, h, code);
      } else {
        RectOutline(x, y, w, h, code);
      }
    }

    /** The eight mirror images of one octant point. */
    method PlotOctants(cx: int, cy: int, x: int, y: int, code: int)
      requires Valid() && 0 <= y <= x
      modifies fb
      ensures forall u, v {:trigger Shown(fb[..], u, v)} :: OnScreen(u, v) ==>
        Shown(fb[..], u, v) ==
        if Max(Abs(u - cx), Abs(v - cy)) == x && Min(Abs(u - cx), Abs(v - cy)) == y then Low2(code) else old(Shown(fb[..], u, v))
    {
      hide Field;
      Px(cx + x, cy + y, code);
      Px(cx + y, cy + x, code);
      Px(cx - y, cy + x, code);
      Px(cx - x, cy + y, code);
      Px(cx - x, cy - y, code);
      Px(cx - y, cy - x, code);
      Px(cx + y, cy - x, code);
      Px(cx + x, cy - y, code);
    }

    /** The midpoint loop paints the visible points of the circle and nothing else, for every radius. */
    method Circle(cx: int, cy: int, r: int, code: int)
      requires Valid()
      modifies fb
      ensures forall u, v {:trigger Shown(fb[..], u, v)} :: OnScreen(u, v) ==>
        Shown(fb[..], u, v) == if r >= 0 && OnCircle(cx, cy, r, u, v) then Low2(code) else old(Shown(fb[..], u, v))
    {
      hide Field, OnArc;
      if r < 0 {
        return;
      }
      var x, y, err := r, 0, 1 - r;
      WalkStart(r);
      while x >= y
        invariant Walk(r, x, y, err) && (x < y ==> y >= 1)
        invariant forall u, v {:trigger Shown(fb[..], u, v)} :: OnScreen(u, v) ==>
          Shown(fb[..], u, v) == if CircleRows(cx, cy, r, y, u, v) then Low2(code) else old(Shown(fb[..], u, v))
        decreases x - y
      {
        PlotOctants(cx, cy, x, y, code);
        forall u, v | OnScreen(u, v)
          ensures CircleRows(cx, cy, r, y + 1, u, v) <==>
            CircleRows(cx, cy, r, y, u, v) || (Max(Abs(u - cx), Abs(v - cy)) == x && Min(Abs(u - cx), Abs(v - cy)) == y)
        {
          RowOf(cx, cy, r, x, y, u, v);
        }
        WalkStep(r, x, y, err);
        y := y + 1;
        if err < 0 {
          err := err + 2 * y + 1;
        } else {
          x := x - 1;
          err := err + 2 * (y - x) + 1;
        }
      }
      forall u, v | OnScreen(u, v)
        ensures CircleRows(cx, cy, r, y, u, v) <==> OnCircle(cx, cy, r, u, v)
      {
        NoRowAfter(cx, cy, r, x, y, u, v, err);
      }
    }

    lemma RowOf(cx: int, cy: int, r: int, x: int, y: int, u: int, v: int)
      requires r >= 0 && OnArc(r, x, y)
      ensures CircleRows(cx, cy, r, y + 1, u, v) <==>
        CircleRows(cx, cy, r, y, u, v) || (Max(Abs(u - cx), Abs(v - cy)) == x && Min(Abs(u - cx), Abs(v - cy)) == y)
    {
      hide OnArc;
      if OnCircle(cx, cy, r, u, v) && Min(Abs(u - cx), Abs(v - cy)) == y {
        ArcUnique(r, x, Max(Abs(u - cx), Abs(v - cy)), y);
      }
    }

    lemma NoRowAfter(cx: int, cy: int, r: int, x: int, y: int, u: int, v: int, err: int)
      requires r >= 0 && Walk(r, x, y, err) && x < y && y >= 1
      ensures CircleRows(cx, cy, r, y, u, v) <==> OnCircle(cx, cy, r, u, v)
    {
      hide OnArc;
      if OnCircle(cx, cy, r, u, v) && Min(Abs(u - cx), Abs(v - cy)) >= y {
        ArcEnds(r, x, y, Max(Abs(u - cx), Abs(v - cy)), Min(Abs(u - cx), Abs(v - cy)));
      }
    }
  }
}
