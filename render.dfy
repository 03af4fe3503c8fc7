/** Model of src/render.rs: the software rasteriser. `Render` fills a w×h RGB
    buffer in place: for every polygon, in list order, it scans the bounding box
    of the polygon's vertices and blends the polygon's colour into every pixel the
    even-odd test accepts, remembering those pixels; at the end every pixel no
    polygon touched is painted white.

    The buffer's initial contents come from the image library; they are the
    `background` parameter here. An out-of-bounds `get_pixel`/`put_pixel` panics in
    the program; here it makes `Render` return `ok == false`. */
module Render {
  import opened Geometry

  /** `image::Rgb<u8>`. */
  datatype Rgb = Rgb(r: Byte, g: Byte, b: Byte)

  const WHITE: Rgb := Rgb(255, 255, 255)

  /** A pixel position `(x, y)`. */
  type Pixel = (nat, nat)

  /** `ImageBuf<Rgb<u8>>`: a `width` × `height` grid of pixels indexed `[x, y]`. */
  class ImageBuf {
    const width: U32
    const height: U32
    const pixels: array2<Rgb>

    ghost predicate Valid()
    {
      pixels.Length0 == width && pixels.Length1 == height
    }

    /** `ImageBuf::new(w, h)`, every pixel holding the library's initial value. */
    constructor (w: U32, h: U32, background: Rgb)
      ensures Valid() && width == w && height == h && fresh(pixels)
      ensures forall x, y :: 0 <= x < w && 0 <= y < h ==> pixels[x, y] == background
    {
      width, height := w, h;
      pixels := new Rgb[w, h]((_, _) => background);
    }

    method GetPixel(x: nat, y: nat) returns (c: Rgb)
      requires Valid() && x < width && y < height
      ensures c == pixels[x, y]
    {
      c := pixels[x, y];
    }

    method PutPixel(x: nat, y: nat, c: Rgb)
      requires Valid() && x < width && y < height
      modifies pixels
      ensures pixels[x, y] == c
      ensures forall i, j :: 0 <= i < width && 0 <= j < height && (i != x || j != y) ==>
                pixels[i, j] == old(pixels[i, j])
    {
      pixels[x, y] := c;
    }
  }

  // ---------------------------------------------------------------------------
  // Blending

  /** `nr as u32 * a / 255`: a colour channel scaled by alpha. It never exceeds the
      channel, so the cast back to `u8` never truncates. */
  function Scale(n: Byte, alpha: Byte): (s: Byte)
    ensures s <= n
    ensures alpha == 0 ==> s == 0
    ensures alpha == 255 ==> s == n
  {
    ScaleBound(n, alpha);
    n * alpha / 255
  }

  lemma ScaleBound(n: Byte, alpha: Byte)
    ensures 0 <= n * alpha / 255 <= n
  {
    assert 0 <= n * alpha <= n * 255;
  }

  /** `u8 + u8`, which wraps modulo 256 in the Rust this program was written in. */
  function WrappingAdd(x: Byte, y: Byte): (z: Byte)
    ensures x + y < 256 ==> z == x + y
    ensures x + y >= 256 ==> z == x + y - 256
  {
    (x + y) % 256
  }

  /** `blend`: adds the alpha-scaled new colour to the old one, channel by channel. */
  function Blend(prev: Rgb, c: Color): (r: Rgb)
    ensures c.a == 0 ==> r == prev
    ensures (r.r - prev.r) % 256 == Scale(c.r, c.a)
    ensures (r.g - prev.g) % 256 == Scale(c.g, c.a)
    ensures (r.b - prev.b) % 256 == Scale(c.b, c.a)
  {
    Rgb(WrappingAdd(prev.r, Scale(c.r, c.a)),
        WrappingAdd(prev.g, Scale(c.g, c.a)),
        WrappingAdd(prev.b, Scale(c.b, c.a)))
  }

  /** A fully transparent colour leaves the pixel unchanged; an opaque one adds
      its channels to the old ones. */
  lemma BlendByAlpha(prev: Rgb, c: Color)
    ensures c.a == 0 ==> Blend(prev, c) == prev
    ensures c.a == 255 ==> Blend(prev, c) == Rgb(WrappingAdd(prev.r, c.r), WrappingAdd(prev.g, c.g), WrappingAdd(prev.b, c.b))
  {
  }

  /** The old colour is not scaled down, so an opaque bright colour over a bright
      pixel overflows the channel and wraps around: red 200 under red 100 at full
      alpha gives 44, not 100. */
  lemma BlendWrapsAround()
    ensures Blend(Rgb(200, 0, 0), Color(100, 0, 0, 255)) == Rgb(44, 0, 0)
  {
  }

  // ---------------------------------------------------------------------------
  // Bounding box

  /** `v as u32` for a coordinate: the floor of a non-negative value, 0 for a
      negative one. */
  function Cast(v: real): (n: nat)
    ensures v >= 0.0 ==> n as real <= v < n as real + 1.0
    ensures v < 0.0 ==> n == 0
  {
    if v < 0.0 then 0 else v.Floor
  }

  /** `n - 1` in `u32` arithmetic, which wraps to the largest value at 0. */
  function WrappingDec(n: U32): (m: U32)
    ensures n > 0 ==> m + 1 == n
    ensures n == 0 ==> m == 0xFFFF_FFFF
  {
    if n == 0 then 0xFFFF_FFFF else n - 1
  }

  function Min(a: nat, b: nat): nat { if a <= b then a else b }
  function Max(a: nat, b: nat): nat { if a >= b then a else b }

  /** The scan rectangle `[minx, maxx] × [miny, maxy]`. */
  datatype Box = Box(minx: nat, miny: nat, maxx: nat, maxy: nat)

  /** `(w - 1, h - 1, 0, 0)`: the box before any vertex is seen. */
  function InitialBox(w: U32, h: U32): Box
  {
    Box(WrappingDec(w), WrappingDec(h), 0, 0)
  }

  function Widen(box: Box, v: Point): Box
  {
    Box(Min(box.minx, Cast(v.x)), Min(box.miny, Cast(v.y)),
        Max(box.maxx, Cast(v.x)), Max(box.maxy, Cast(v.y)))
  }

  /** The box after widening `init` by the vertices `vs`, in order. */
  function BoxOf(vs: seq<Point>, init: Box): Box
  {
    if vs == [] then init else Widen(BoxOf(vs[..|vs| - 1], init), vs[|vs| - 1])
  }

  predicate InBox(box: Box, x: nat, y: nat)
  {
    box.minx <= x <= box.maxx && box.miny <= y <= box.maxy
  }

  /** The vertex loop of `render`: updates `minx`, `miny`, `maxx`, `maxy` per vertex. */
  method BoundingBox(polygon: Polygon, w: U32, h: U32) returns (box: Box)
    ensures box == BoxOf(polygon.vertices, InitialBox(w, h))
  {
    var vs := polygon.vertices;
    var minx: nat, miny: nat, maxx: nat, maxy: nat := WrappingDec(w), WrappingDec(h), 0, 0;
    for i := 0 to |vs|
      invariant Box(minx, miny, maxx, maxy) == BoxOf(vs[..i], InitialBox(w, h))
    {
      var vertex := vs[i];
      minx := Min(minx, Cast(vertex.x));
      miny := Min(miny, Cast(vertex.y));
      maxx := Max(maxx, Cast(vertex.x));
      maxy := Max(maxy, Cast(vertex.y));
      assert vs[..i + 1][..i] == vs[..i];
    }
    assert vs[..|vs|] == vs;
    box := Box(minx, miny, maxx, maxy);
  }

  /** The box only grows from its initial value and covers every vertex's cast
      coordinates. */
  lemma {:induction false} BoxOfCoversVertices(vs: seq<Point>, init: Box)
    ensures BoxOf(vs, init).minx <= init.minx && BoxOf(vs, init).miny <= init.miny
    ensures BoxOf(vs, init).maxx >= init.maxx && BoxOf(vs, init).maxy >= init.maxy
    ensures forall i :: 0 <= i < |vs| ==>
              BoxOf(vs, init).minx <= Cast(vs[i].x) <= BoxOf(vs, init).maxx &&
              BoxOf(vs, init).miny <= Cast(vs[i].y) <= BoxOf(vs, init).maxy
  {
    if vs != [] {
      var front := vs[..|vs| - 1];
      BoxOfCoversVertices(front, init);
      forall i | 0 <= i < |vs| - 1
        ensures vs[i] == front[i]
      {
      }
    }
  }

  // ---------------------------------------------------------------------------
  // What the inside test accepts

  /** The inside test at the integer pixel `(x, y)`. */
  predicate AcceptsPixel(polygon: Polygon, x: nat, y: nat)
  {
    Inside(Point(x as real, y as real), polygon)
  }

  /** The bounding-box scan misses nothing: every pixel the inside test accepts
      lies in the box, so only pixels of the box are ever blended for a polygon. */
  lemma AcceptedPixelInBox(polygon: Polygon, w: U32, h: U32, x: nat, y: nat)
    requires AcceptsPixel(polygon, x, y)
    ensures InBox(BoxOf(polygon.vertices, InitialBox(w, h)), x, y)
  {
    var vs := polygon.vertices;
    var pt := Point(x as real, y as real);
    InsideWithinVertexExtent(pt, polygon);
    BoxOfCoversVertices(vs, InitialBox(w, h));
    var i0 :| 0 <= i0 < |vs| && vs[i0].y <= pt.y;
    var i1 :| 0 <= i1 < |vs| && pt.y < vs[i1].y;
    var i2 :| 0 <= i2 < |vs| && vs[i2].x <= pt.x;
    var i3 :| 0 <= i3 < |vs| && pt.x < vs[i3].x;
    CastMonotone(vs[i0].y, y);
    CastMonotone(vs[i2].x, x);
    assert y <= Cast(vs[i1].y);
    assert x <= Cast(vs[i3].x);
  }

  lemma CastMonotone(v: real, n: nat)
    requires v <= n as real
    ensures Cast(v) <= n
  {
  }

  // ---------------------------------------------------------------------------
  // The rendered image

  /** The pixel's value after the polygons `ps` are composited over `init` in
      order: every polygon whose inside test accepts the pixel blends its colour. */
  function Composite(ps: seq<Polygon>, init: Rgb, x: nat, y: nat): Rgb
  {
    if ps == [] then init
    else
      var below := Composite(ps[..|ps| - 1], init, x, y);
      if AcceptsPixel(ps[|ps| - 1], x, y) then Blend(below, ps[|ps| - 1].color) else below
  }

  /** Some polygon of `ps` accepts the pixel. */
  ghost predicate Touched(ps: seq<Polygon>, x: nat, y: nat)
  {
    exists i :: 0 <= i < |ps| && AcceptsPixel(ps[i], x, y)
  }

  /** The final value of a canvas pixel: composited if touched, white otherwise. */
  ghost function RenderedPixel(enc: Encoding, background: Rgb, x: nat, y: nat): Rgb
  {
    if Touched(enc.polygons, x, y) then Composite(enc.polygons, background, x, y) else WHITE
  }

  /** Every pixel that any polygon accepts lies on the canvas, so rendering never
      reads or writes out of bounds. */
  ghost predicate OnCanvas(enc: Encoding)
  {
    forall i, x: nat, y: nat :: 0 <= i < |enc.polygons| && AcceptsPixel(enc.polygons[i], x, y) ==>
      x < enc.width && y < enc.height
  }

  /** Pixel `(px, py)` of the box lies on a row the scan has finished before row `y`. */
  predicate ScannedBefore(box: Box, y: nat, px: nat, py: nat)
  {
    InBox(box, px, py) && py < y
  }

  /** One iteration of `render`'s polygon loop: scans the polygon's box row by
      row, blends every accepted pixel and adds it to the set of touched pixels.
      Fails as soon as an accepted pixel is off the canvas. */
  method PaintPolygon(img: ImageBuf, polygon: Polygon, modified: set<Pixel>) returns (ok: bool, touched: set<Pixel>)
    requires img.Valid()
    modifies img.pixels
    ensures ok <==> forall x: nat, y: nat :: AcceptsPixel(polygon, x, y) ==> x < img.width && y < img.height
    ensures ok ==> forall x, y :: 0 <= x < img.width && 0 <= y < img.height ==>
              img.pixels[x, y] == if AcceptsPixel(polygon, x, y) then Blend(old(img.pixels[x, y]), polygon.color)
                                  else old(img.pixels[x, y])
    ensures ok ==> forall x: nat, y: nat :: (x, y) in touched <==> (x, y) in modified || AcceptsPixel(polygon, x, y)
  {
    var w, h := img.width, img.height;
    var box := BoundingBox(polygon, w, h);
    touched := modified;
    var y := box.miny;
    while y <= box.maxy
      invariant box.miny <= y && (y <= box.maxy + 1 || y == box.miny)
      invariant forall px, py :: 0 <= px < w && 0 <= py < h ==>
                  img.pixels[px, py] == if ScannedBefore(box, y, px, py) && AcceptsPixel(polygon, px, py)
                                        then Blend(old(img.pixels[px, py]), polygon.color) else old(img.pixels[px, py])
      invariant forall px: nat, py: nat :: ScannedBefore(box, y, px, py) && AcceptsPixel(polygon, px, py) ==>
                  px < w && py < h
      invariant forall px: nat, py: nat :: (px, py) in touched <==>
                  (px, py) in modified || (ScannedBefore(box, y, px, py) && AcceptsPixel(polygon, px, py))
    {
      var rowOk;
      rowOk, touched := PaintRow(img, polygon, box, y, touched);
      if !rowOk {
        var x: nat :| box.minx <= x <= box.maxx && AcceptsPixel(polygon, x, y) && !(x < w && y < h);
        ok := false;
        return;
      }
      y := y + 1;
    }
    forall px: nat, py: nat | AcceptsPixel(polygon, px, py)
      ensures ScannedBefore(box, y, px, py)
    {
      AcceptedPixelInBox(polygon, w, h, px, py);
    }
    ok := true;
  }

  /** One row `y` of the box scan: blends every pixel of `[minx, maxx]` on that
      row that the inside test accepts. Fails as soon as such a pixel is off the
      canvas. */
  method PaintRow(img: ImageBuf, polygon: Polygon, box: Box, y: nat, modified: set<Pixel>) returns (ok: bool, touched: set<Pixel>)
    requires img.Valid()
    modifies img.pixels
    ensures ok <==> forall x: nat :: box.minx <= x <= box.maxx && AcceptsPixel(polygon, x, y) ==>
                      x < img.width && y < img.height
    ensures ok ==> forall px, py :: 0 <= px < img.width && 0 <= py < img.height ==>
              img.pixels[px, py] == if py == y && box.minx <= px <= box.maxx && AcceptsPixel(polygon, px, py)
                                    then Blend(old(img.pixels[px, py]), polygon.color) else old(img.pixels[px, py])
    ensures ok ==> forall px: nat, py: nat :: (px, py) in touched <==>
              (px, py) in modified || (py == y && box.minx <= px <= box.maxx && AcceptsPixel(polygon, px, py))
  {
    var w, h := img.width, img.height;
    touched := modified;
    var x := box.minx;
    while x <= box.maxx
      invariant box.minx <= x && (x <= box.maxx + 1 || x == box.minx)
      invariant forall px, py :: 0 <= px < w && 0 <= py < h ==>
                  img.pixels[px, py] == if py == y && box.minx <= px < x && AcceptsPixel(polygon, px, py)
                                        then Blend(old(img.pixels[px, py]), polygon.color) else old(img.pixels[px, py])
      invariant forall px: nat :: box.minx <= px < x && AcceptsPixel(polygon, px, y) ==> px < w && y < h
      invariant forall px: nat, py: nat :: (px, py) in touched <==>
                  (px, py) in modified || (py == y && box.minx <= px < x && AcceptsPixel(polygon, px, py))
    {
      var inside := InsidePolygon(Point(x as real, y as real), polygon);
      if inside {
        if x >= w || y >= h {
          assert AcceptsPixel(polygon, x, y);
          ok := false;
          return;
        }
        var prev := img.GetPixel(x, y);
        img.PutPixel(x, y, Blend(prev, polygon.color));
        touched := touched + {(x, y)};
      }
      x := x + 1;
    }
    ok := true;
  }

  /** `render`: composites the polygons in order, then paints every untouched
      pixel white. The buffer has the encoding's dimensions; rendering succeeds
      exactly when every accepted pixel is on the canvas, and then every pixel is
      the composite of the polygons that accept it, or white if none does. */
  method Render(enc: Encoding, background: Rgb) returns (ok: bool, img: ImageBuf)
    ensures fresh(img) && fresh(img.pixels) && img.Valid()
    ensures img.width == enc.width && img.height == enc.height
    ensures ok <==> OnCanvas(enc)
    ensures ok ==> forall x, y :: 0 <= x < img.width && 0 <= y < img.height ==>
              img.pixels[x, y] == RenderedPixel(enc, background, x, y)
  {
    var w, h := enc.width, enc.height;
    img := new ImageBuf(w, h, background);
    var modified: set<Pixel> := {};
    var polygons := enc.polygons;
    for k := 0 to |polygons|
      invariant forall i, x: nat, y: nat :: 0 <= i < k && AcceptsPixel(polygons[i], x, y) ==> x < w && y < h
      invariant forall x, y :: 0 <= x < w && 0 <= y < h ==> img.pixels[x, y] == Composite(polygons[..k], background, x, y)
      invariant forall x: nat, y: nat :: (x, y) in modified <==> Touched(polygons[..k], x, y)
    {
      var painted;
      painted, modified := PaintPolygon(img, polygons[k], modified);
      if !painted {
        var x: nat, y: nat :| AcceptsPixel(polygons[k], x, y) && !(x < w && y < h);
        ok := false;
        return;
      }
      assert polygons[..k + 1][..k] == polygons[..k];
      forall x: nat, y: nat
        ensures Touched(polygons[..k + 1], x, y) <==> Touched(polygons[..k], x, y) || AcceptsPixel(polygons[k], x, y)
      {
        TouchedExtend(polygons, k, x, y);
      }
    }
    assert polygons[..|polygons|] == polygons;
    PaintUntouchedWhite(img, modified);
    ok := true;
  }

  /** Adding polygon `k` to the first `k` touches exactly the pixels it accepts. */
  lemma TouchedExtend(ps: seq<Polygon>, k: nat, x: nat, y: nat)
    requires k < |ps|
    ensures Touched(ps[..k + 1], x, y) <==> Touched(ps[..k], x, y) || AcceptsPixel(ps[k], x, y)
  {
    if Touched(ps[..k + 1], x, y) {
      var i :| 0 <= i < k + 1 && AcceptsPixel(ps[..k + 1][i], x, y);
      if i < k {
        assert ps[..k + 1][i] == ps[..k][i];
      }
    }
    if Touched(ps[..k], x, y) {
      var i :| 0 <= i < k && AcceptsPixel(ps[..k][i], x, y);
      assert ps[..k + 1][i] == ps[..k][i];
    }
    if AcceptsPixel(ps[k], x, y) {
      assert ps[..k + 1][k] == ps[k];
    }
  }

  /** The final loop of `render`: every canvas pixel outside `modified` becomes white. */
  method PaintUntouchedWhite(img: ImageBuf, modified: set<Pixel>)
    requires img.Valid()
    modifies img.pixels
    ensures forall x, y :: 0 <= x < img.width && 0 <= y < img.height ==>
              img.pixels[x, y] == if (x, y) in modified then old(img.pixels[x, y]) else WHITE
  {
    for y := 0 to img.height
      invariant forall px, py :: 0 <= px < img.width && 0 <= py < img.height ==>
                  img.pixels[px, py] == if py < y && (px, py) !in modified then WHITE else old(img.pixels[px, py])
    {
      for x := 0 to img.width
        invariant forall px, py :: 0 <= px < img.width && 0 <= py < img.height ==>
                    img.pixels[px, py] == if (py < y || (py == y && px < x)) && (px, py) !in modified then WHITE
                                          else old(img.pixels[px, py])
      {
        if (x, y) !in modified {
          img.PutPixel(x, y, WHITE);
        }
      }
    }
  }

  // ---------------------------------------------------------------------------
  // Properties of the rendered image

  /** The colours of the polygons of `ps` that accept the pixel, in list order. */
  function AcceptedColors(ps: seq<Polygon>, x: nat, y: nat): (cs: seq<Color>)
    ensures |cs| <= |ps|
  {
    if ps == [] then []
    else AcceptedColors(ps[..|ps| - 1], x, y)
         + (if AcceptsPixel(ps[|ps| - 1], x, y) then [ps[|ps| - 1].color] else [])
  }

  /** The left fold of `blend` over the colours `cs`, starting from `c`. */
  function BlendAll(c: Rgb, cs: seq<Color>): Rgb
  {
    if cs == [] then c else Blend(BlendAll(c, cs[..|cs| - 1]), cs[|cs| - 1])
  }

  lemma BlendAllSnoc(c: Rgb, cs: seq<Color>, d: Color)
    ensures BlendAll(c, cs + [d]) == Blend(BlendAll(c, cs), d)
  {
    assert (cs + [d])[..|cs|] == cs;
  }

  /** A pixel accepted by polygons p1..pk, in list order, holds the left fold of
      `blend` over their colours, starting from the initial value. */
  lemma {:induction false} CompositeIsBlendFold(ps: seq<Polygon>, init: Rgb, x: nat, y: nat)
    ensures Composite(ps, init, x, y) == BlendAll(init, AcceptedColors(ps, x, y))
  {
    if ps != [] {
      var front, last := ps[..|ps| - 1], ps[|ps| - 1];
      CompositeIsBlendFold(front, init, x, y);
      if AcceptsPixel(last, x, y) {
        BlendAllSnoc(init, AcceptedColors(front, x, y), last.color);
      } else {
        assert AcceptedColors(ps, x, y) == AcceptedColors(front, x, y);
      }
    }
  }

  /** No polygon accepts the pixel: compositing leaves its initial value. */
  lemma {:induction false} UntouchedKeepsInitial(ps: seq<Polygon>, init: Rgb, x: nat, y: nat)
    requires !Touched(ps, x, y)
    ensures Composite(ps, init, x, y) == init
  {
    if ps != [] {
      var front := ps[..|ps| - 1];
      assert !Touched(front, x, y) by {
        forall i | 0 <= i < |front|
          ensures front[i] == ps[i]
        {
        }
      }
      UntouchedKeepsInitial(front, init, x, y);
      assert !AcceptsPixel(ps[|ps| - 1], x, y);
    }
  }

  /** With no polygons rendering succeeds and every pixel is white; in general a
      pixel that no polygon accepts is white. */
  lemma UntouchedPixelsAreWhite(enc: Encoding, background: Rgb, x: nat, y: nat)
    ensures enc.polygons == [] ==> OnCanvas(enc) && RenderedPixel(enc, background, x, y) == WHITE
    ensures !Touched(enc.polygons, x, y) ==> RenderedPixel(enc, background, x, y) == WHITE
  {
  }

  /** Every vertex within `[0, w-1] × [0, h-1]`. */
  predicate VerticesOnCanvas(enc: Encoding)
  {
    forall i, j :: 0 <= i < |enc.polygons| && 0 <= j < |enc.polygons[i].vertices| ==>
      0.0 <= enc.polygons[i].vertices[j].x <= (enc.width - 1) as real &&
      0.0 <= enc.polygons[i].vertices[j].y <= (enc.height - 1) as real
  }

  /** When every vertex lies on the canvas, every pixel read or written does too,
      so `render` never fails. */
  lemma VerticesOnCanvasRenderSucceeds(enc: Encoding)
    requires VerticesOnCanvas(enc)
    ensures OnCanvas(enc)
  {
    forall i, x: nat, y: nat | 0 <= i < |enc.polygons| && AcceptsPixel(enc.polygons[i], x, y)
      ensures x < enc.width && y < enc.height
    {
      var polygon := enc.polygons[i];
      InsideWithinVertexExtent(Point(x as real, y as real), polygon);
      var jx :| 0 <= jx < |polygon.vertices| && (x as real) < polygon.vertices[jx].x;
      var jy :| 0 <= jy < |polygon.vertices| && (y as real) < polygon.vertices[jy].y;
    }
  }
}
