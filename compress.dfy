/** Model of src/compress.rs: the per-channel difference `diff`, the fitness score
    `fitness` (a sum of absolute channel differences over every pixel), and the
    evolutionary driver as it stands: `create_population` and `mutate` are stubs
    that return empty populations, so `compress`'s final `population[0]` is always
    out of bounds. */
module Compress {
  import opened Geometry
  import opened Render

  /** `ITERATIONS`: generations `compress` runs. */
  const ITERATIONS: nat := 50
  /** `MUTATIONS` of this file (not the one in src/constants.rs). */
  const MUTATIONS: nat := 10

  // ---------------------------------------------------------------------------
  // Fitness

  /** `diff`: the absolute difference of two bytes, computed by subtracting the
      smaller from the larger so that it never underflows. */
  function Diff(a: Byte, b: Byte): (d: nat)
    ensures d <= 255
    ensures d == 0 <==> a == b
    ensures d == a - b || d == b - a
  {
    if a > b then a - b else b - a
  }

  /** The difference is symmetric. */
  lemma DiffSymmetric(a: Byte, b: Byte)
    ensures Diff(a, b) == Diff(b, a)
  {
  }

  /** The score contribution of one pixel: the sum over its three channels. */
  function PixelDiff(p: Rgb, q: Rgb): (d: nat)
    ensures d <= 3 * 255
    ensures d == 0 <==> p == q
  {
    Diff(p.r, q.r) + Diff(p.g, q.g) + Diff(p.b, q.b)
  }

  /** The score of the first `n` pixels of row `y`. */
  ghost function RowScore(a: array2<Rgb>, b: array2<Rgb>, y: nat, n: nat): nat
    requires n <= a.Length0 && n <= b.Length0 && y < a.Length1 && y < b.Length1
    reads a, b
  {
    if n == 0 then 0 else RowScore(a, b, y, n - 1) + PixelDiff(a[n - 1, y], b[n - 1, y])
  }

  /** The score of the first `m` rows, each `w` pixels wide. */
  ghost function Score(a: array2<Rgb>, b: array2<Rgb>, w: nat, m: nat): nat
    requires w <= a.Length0 && w <= b.Length0 && m <= a.Length1 && m <= b.Length1
    reads a, b
  {
    if m == 0 then 0 else Score(a, b, w, m - 1) + RowScore(a, b, m - 1, w)
  }

  /** `fitness`: sums `diff` over the three channels of every pixel of `base`'s
      dimensions. Reading a pixel outside `candidate` panics, which happens
      exactly when `base` has at least one pixel and `candidate` is narrower or
      shorter; that panic is `ok == false`. Without a panic, the score is the sum
      over the base's region, and 0 when that region is empty. */
  method Fitness(base: ImageBuf, candidate: ImageBuf) returns (ok: bool, score: nat)
    requires base.Valid() && candidate.Valid()
    ensures ok <==> base.width == 0 || base.height == 0 ||
                    (base.width <= candidate.width && base.height <= candidate.height)
    ensures ok && (base.width == 0 || base.height == 0) ==> score == 0
    ensures ok && base.width <= candidate.width && base.height <= candidate.height ==>
              score == Score(base.pixels, candidate.pixels, base.width, base.height)
  {
    var w, h := base.width, base.height;
    score := 0;
    if !(w <= candidate.width && h <= candidate.height) {
      // The first pixel of `base` beyond `candidate` is read, unless there is none.
      ok := w == 0 || h == 0;
      return;
    }
    for y := 0 to h
      invariant score == Score(base.pixels, candidate.pixels, w, y)
    {
      for x := 0 to w
        invariant score == Score(base.pixels, candidate.pixels, w, y) + RowScore(base.pixels, candidate.pixels, y, x)
      {
        var b := base.GetPixel(x, y);
        var n := candidate.GetPixel(x, y);
        score := score + Diff(b.r, n.r) + Diff(b.g, n.g) + Diff(b.b, n.b);
      }
    }
    ok := true;
    ScoreEmptyRegion(base.pixels, candidate.pixels, w, h);
  }

  /** A region with no pixels scores 0. */
  lemma {:induction false} ScoreEmptyRegion(a: array2<Rgb>, b: array2<Rgb>, w: nat, m: nat)
    requires w <= a.Length0 && w <= b.Length0 && m <= a.Length1 && m <= b.Length1
    ensures w == 0 || m == 0 ==> Score(a, b, w, m) == 0
  {
    if m > 0 {
      ScoreEmptyRegion(a, b, w, m - 1);
    }
  }

  /** A row scores 0 exactly when it agrees pixel for pixel. */
  lemma {:induction false} RowScoreZeroIff(a: array2<Rgb>, b: array2<Rgb>, y: nat, n: nat)
    requires n <= a.Length0 && n <= b.Length0 && y < a.Length1 && y < b.Length1
    ensures RowScore(a, b, y, n) == 0 <==> forall x :: 0 <= x < n ==> a[x, y] == b[x, y]
  {
    if n > 0 {
      RowScoreZeroIff(a, b, y, n - 1);
    }
  }

  /** The score is 0 exactly when the two images agree on all three channels at
      every pixel of the `w × m` region. */
  lemma {:induction false} ScoreZeroIff(a: array2<Rgb>, b: array2<Rgb>, w: nat, m: nat)
    requires w <= a.Length0 && w <= b.Length0 && m <= a.Length1 && m <= b.Length1
    ensures Score(a, b, w, m) == 0 <==> forall x, y :: 0 <= x < w && 0 <= y < m ==> a[x, y] == b[x, y]
  {
    if m > 0 {
      ScoreZeroIff(a, b, w, m - 1);
      RowScoreZeroIff(a, b, m - 1, w);
    }
  }

  /** An image scores 0 against itself. */
  lemma ScoreOfSelf(a: array2<Rgb>)
    ensures Score(a, a, a.Length0, a.Length1) == 0
  {
    ScoreZeroIff(a, a, a.Length0, a.Length1);
  }

  lemma {:induction false} RowScoreBound(a: array2<Rgb>, b: array2<Rgb>, y: nat, n: nat)
    requires n <= a.Length0 && n <= b.Length0 && y < a.Length1 && y < b.Length1
    ensures RowScore(a, b, y, n) <= 765 * n
  {
    if n > 0 {
      RowScoreBound(a, b, y, n - 1);
    }
  }

  /** The score is at most `3 * 255 * w * h`. */
  lemma {:induction false} ScoreBound(a: array2<Rgb>, b: array2<Rgb>, w: nat, m: nat)
    requires w <= a.Length0 && w <= b.Length0 && m <= a.Length1 && m <= b.Length1
    ensures Score(a, b, w, m) <= 3 * 255 * w * m
  {
    if m > 0 {
      ScoreBound(a, b, w, m - 1);
      RowScoreBound(a, b, m - 1, w);
      assert 3 * 255 * w * m == 3 * 255 * w * (m - 1) + 765 * w;
    }
  }

  lemma {:induction false} RowScoreSymmetric(a: array2<Rgb>, b: array2<Rgb>, y: nat, n: nat)
    requires n <= a.Length0 && n <= b.Length0 && y < a.Length1 && y < b.Length1
    ensures RowScore(a, b, y, n) == RowScore(b, a, y, n)
  {
    if n > 0 {
      RowScoreSymmetric(a, b, y, n - 1);
    }
  }

  /** Over a region both images cover, the score does not depend on which image
      is the base. */
  lemma {:induction false} ScoreSymmetric(a: array2<Rgb>, b: array2<Rgb>, w: nat, m: nat)
    requires w <= a.Length0 && w <= b.Length0 && m <= a.Length1 && m <= b.Length1
    ensures Score(a, b, w, m) == Score(b, a, w, m)
  {
    if m > 0 {
      ScoreSymmetric(a, b, w, m - 1);
      RowScoreSymmetric(a, b, m - 1, w);
    }
  }

  // ---------------------------------------------------------------------------
  // The evolutionary driver (stubs)

  /** How `compress` ends: with the first individual, or with the panic of
      indexing an empty population. */
  datatype Outcome = Compressed(encoding: Encoding) | IndexOutOfBounds(index: nat, len: nat)

  /** `population[0]`: bounds-checked indexing. */
  function First(population: seq<Encoding>): (r: Outcome)
    ensures r.Compressed? <==> |population| > 0
    ensures r.Compressed? ==> r.encoding == population[0]
    ensures r.IndexOutOfBounds? ==> r == IndexOutOfBounds(0, |population|)
  {
    if |population| == 0 then IndexOutOfBounds(0, 0) else Compressed(population[0])
  }

  /** `create_population`: a stub that returns no individuals. */
  function CreatePopulation(base: ImageBuf): (population: seq<Encoding>)
    ensures |population| == 0
  {
    []
  }

  /** `mutate`: visits every candidate `MUTATIONS` times but never pushes anything,
      so the next population is always empty. */
  method Mutate(population: seq<Encoding>) returns (next: seq<Encoding>)
    ensures next == []
  {
    next := [];
    for i := 0 to |population| {
      var candidate := population[i];
      for j := 0 to MUTATIONS {
      }
    }
  }

  /** `compress`: starts from `create_population`, runs `ITERATIONS` rounds of
      `mutate` and returns `population[0]`. With the stubs the population is
      always empty, so it always fails. */
  method Compress(img: ImageBuf) returns (r: Outcome)
    ensures r == IndexOutOfBounds(0, 0)
  {
    var population := CreatePopulation(img);
    for i := 0 to ITERATIONS
      invariant population == []
    {
      population := Mutate(population);
    }
    r := First(population);
  }
}
