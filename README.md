# gpe core in Dafny

This project models the core of `gpe`, an early polygon image compressor written in Rust. An image is approximated by an *encoding*: a list of coloured polygons on a `w × h` canvas. The model covers five parts:

- **`geometry.dfy`** (`src/encoding.rs`): the data model (`Point`, `Polygon`, `Encoding`), point addition and subtraction, the closed edge loop `Polygon::edges`, and the even-odd ray-casting test `Point::inside_polygon`.
- **`render.dfy`** (`src/render.rs`): the software rasteriser `render`. An `ImageBuf` class holds a `w × h` pixel array, and the buffer is updated in place:
  - For each polygon in order, the renderer scans the bounding box of the polygon's vertices.
  - Every pixel that the inside test accepts is blended with the polygon's colour and recorded in a `modified` set.
  - At the end, every pixel not in the set is painted white.
  - `blend` is also modelled.
- **`compress.dfy`** (`src/compress.rs`): the per-channel difference `diff`, the fitness score `fitness`, and the evolutionary driver. The driver is a set of stubs: `create_population`, `mutate` and `compress`.
- **`fnv.dfy`** (`src/fnvhasher.rs`): the 64-bit FNV-1a hasher. It is a stateful fold over bytes, with the state kept as a `bv64`.
- **`constants.dfy`** (`src/constants.rs`): the tuning constants and the firing rule `should_mutate`. The random draw is a parameter.

The main results are these:

- **`inside_polygon`**: it computes the parity of the crossing count. Its division is never by zero.
- **Closed loops**: a closed loop straddles any row an even number of times. So a point accepted by the even-odd test lies within its polygon's vertex extent.
- **The bounding-box scan**: the scan in `render` misses no accepted pixel, so `render` produces exactly the composite of the polygons that accept each pixel, or white where none does.
- **When `render` panics**: the model takes `get_pixel`/`put_pixel` to panic at any position outside the `w × h` canvas. Under that assumption, `render` panics exactly when some accepted pixel is off the canvas, and this cannot happen when every vertex is on the canvas.
- **`fitness`**: it is zero exactly when the two images agree on the base's `w × h` region, and bounded by `3·255·w·h`. Over a region both images cover it is symmetric, so it is symmetric for images of equal size.
- **`compress`**: it always fails on `population[0]`.
- **FNV**: the hash composes over chunked writes and matches the published test vectors.
- **`should_mutate(max)`**: exactly `k` of the draw values `0 … k·max − 1` fire. This counts draw values, not successive calls.

The model follows the code as written; in particular:

- `fitness` sums **absolute** channel differences, not squared ones.
- `blend` computes `old + new·a/255` per channel and wraps modulo 256 on overflow. It is not an "over" blend that scales the old colour by `255 - a`. `Render.BlendWrapsAround` exhibits the wrap.
- Polygons may have any number of vertices, including none. There is no minimum of three.
- The background is not one fixed colour:
  - A pixel that no polygon accepts ends white.
  - A pixel that some polygon accepts is composited over the buffer's initial contents, whatever the image library's `ImageBuf::new` fills it with. That value is the `background` parameter of `Render.Render`.
- There are no pixel overrides, no antialiasing, no blur factor and no cached derived geometry.

`Point`, `Polygon` and `Encoding` are immutable datatypes. So `edges` and `inside_polygon` cannot modify the polygon or the point. The FNV state is a `bv64`, so it always stays within the `u64` range.

## Model

| member | source | states |
|---|---|---|
| Geometry.Add | src/encoding.rs:58-62 | subtracting either summand from the sum gives back the other summand |
| Geometry.Sub | src/encoding.rs:64-68 | adding `q` back to `p - q` gives `p`, coordinate by coordinate |
| Geometry.AddSubComponentwise | src/encoding.rs:58-68 | `Add` and `Sub` act coordinate by coordinate; subtracting what was added gives the point back, and addition commutes |
| Geometry.Edges | src/encoding.rs:83-91 | the pushing loop returns exactly the closed edge list: one pair `(v[i], v[(i+1) % len])` per vertex, in vertex order |
| Geometry.EdgeListClosedLoop | src/encoding.rs:83-91 | there are `len` edges, none for an empty polygon; edge `i` starts at vertex `i`; its end is the start of edge `(i+1) % len`; the last edge closes back to vertex 0 |
| Geometry.SuccessorIndex | src/encoding.rs:87 | `(i + 1) % len` is `i + 1` except at the last index, where it wraps to 0 |
| Geometry.CrossingEdgeNotHorizontal | src/encoding.rs:29-30 | an edge that meets the crossing condition has `a.y != b.y`, so the short-circuited division is never by zero |
| Geometry.InsidePolygon | src/encoding.rs:26-37 | the flag-toggling loop returns true iff an odd number of edges meet the crossing condition |
| Geometry.NothingInsideEmptyPolygon | src/encoding.rs:26-37 | a polygon with no vertices contains no point |
| Geometry.PathStraddleParity | src/encoding.rs:29 | along an open vertex path, the row `y` is straddled an odd number of times iff the path starts and ends on different sides of it |
| Geometry.EdgeListIsClosedPath | src/encoding.rs:83-91 | the edge loop is the open vertex path followed by the closing edge from the last vertex to the first |
| Geometry.ClosedLoopStraddlesEvenly | src/encoding.rs:28-30 | the edges of any polygon straddle any row an even number of times |
| Geometry.CrossingBetweenEndpoints | src/encoding.rs:30 | where a straddling edge meets the row lies between the edge's endpoints horizontally |
| Geometry.StepFraction | src/encoding.rs:30 | for a straddling edge, `(y - a.y) / (b.y - a.y)` is a fraction in `[0, 1]` |
| Geometry.CountsAgreeWhenAllCrossed | src/encoding.rs:28-34 | when every straddling edge also passes the `x` test, the crossing count equals the straddle count |
| Geometry.LeftOfAllVerticesIsOutside | src/encoding.rs:26-37 | a point strictly left of every vertex is outside |
| Geometry.SomeEdgeCrossed | src/encoding.rs:28-34 | a positive crossing count implies some edge meets the crossing condition |
| Geometry.InsideWithinVertexExtent | src/encoding.rs:26-37 | an accepted point has a vertex at or below and one strictly above its row, and a vertex at or left of and one strictly right of it |
| Geometry.SquareExample | src/encoding.rs:26-37 | for the square (0,0)-(10,10), (5,5) is inside and (15,15) is not |
| Render.ImageBuf.constructor | src/render.rs:15-16 | the new buffer has the given dimensions and every pixel holds the initial value |
| Render.ImageBuf.GetPixel | src/render.rs:34 | returns the stored pixel; requires the position to be on the canvas |
| Render.ImageBuf.PutPixel | src/render.rs:35 | overwrites exactly one pixel and leaves every other pixel unchanged |
| Render.Scale | src/render.rs:56-57 | `n*a/255` never exceeds `n`, so the cast to `u8` never truncates; it is 0 at alpha 0 and `n` at alpha 255 |
| Render.WrappingAdd | src/render.rs:57 | `u8 + u8` is the plain sum below 256 and the sum minus 256 otherwise |
| Render.Blend | src/render.rs:53-58 | alpha 0 leaves the old colour unchanged; each channel grows, modulo 256, by exactly the alpha-scaled new channel |
| Render.BlendByAlpha | src/render.rs:53-58 | alpha 0 leaves the old colour unchanged; alpha 255 adds the new channels to the old ones, wrapping |
| Render.BlendWrapsAround | src/render.rs:57 | red 200 blended with opaque red 100 gives red 44 |
| Render.Cast | src/render.rs:24-27 | `v as u32` is the floor of a non-negative in-range coordinate; for a negative one the model chooses 0, as a saturating cast gives |
| Render.WrappingDec | src/render.rs:20-21 | `w - 1` is the predecessor for positive `w` and wraps to `0xFFFF_FFFF` at 0 |
| Render.BoundingBox | src/render.rs:20-28 | the vertex loop leaves `(minx, miny, maxx, maxy)` equal to the initial box widened by each vertex's cast coordinates, in order |
| Render.BoxOfCoversVertices | src/render.rs:23-28 | the box only grows from its initial value and covers every vertex's cast coordinates |
| Render.AcceptedPixelInBox | src/render.rs:20-39 | every pixel the inside test accepts lies in the scanned box, so the scan misses none and blends nothing outside the box |
| Render.CastMonotone | src/render.rs:24-27 | a coordinate at most `n` casts to at most `n` |
| Render.PaintRow | src/render.rs:31-38 | one scan row fails iff an accepted pixel of the row is off the canvas; on success it blends exactly the accepted pixels of the row and adds them to the set |
| Render.PaintPolygon | src/render.rs:19-40 | one polygon fails iff one of its accepted pixels is off the canvas; on success it blends exactly its accepted pixels, leaves every other pixel unchanged, and adds exactly the accepted pixels to `modified` |
| Render.Render | src/render.rs:14-51 | the buffer has the encoding's dimensions; rendering succeeds iff every accepted pixel is on the canvas; then each pixel is the in-order composite of the polygons accepting it, or white if none does |
| Render.TouchedExtend | src/render.rs:36 | after polygon `k`, the touched pixels are those touched before plus those polygon `k` accepts |
| Render.PaintUntouchedWhite | src/render.rs:42-48 | every canvas pixel outside `modified` becomes white and every pixel in it is kept |
| Render.CompositeIsBlendFold | src/render.rs:16-37 | a pixel's composite is the left fold of `blend` over the colours of the polygons accepting it, in list order, starting from the initial value |
| Render.UntouchedKeepsInitial | src/render.rs:19-40 | compositing leaves the initial value in a pixel that no polygon accepts |
| Render.UntouchedPixelsAreWhite | src/render.rs:18-48 | with no polygons, rendering succeeds and every pixel is white; a pixel no polygon accepts ends white |
| Render.VerticesOnCanvasRenderSucceeds | src/render.rs:20-35 | if every vertex lies in `[0, w-1] × [0, h-1]`, every accepted pixel, and so every pixel read or written, is on the canvas |
| Compress.Diff | src/compress.rs:50-52 | the difference is `a - b` or `b - a`, at most 255, and 0 iff the bytes are equal |
| Compress.DiffSymmetric | src/compress.rs:50-52 | `diff(a, b) == diff(b, a)` |
| Compress.PixelDiff | src/compress.rs:63 | one pixel contributes at most `3*255`, and 0 iff the two pixels are equal |
| Compress.Fitness | src/compress.rs:54-68 | with `get_pixel` taken to panic outside `w × h`, fitness fails iff the base has pixels and the candidate is narrower or shorter; otherwise the nested loops sum the three channel differences over every pixel of the base's dimensions, 0 for an empty base |
| Compress.ScoreEmptyRegion | src/compress.rs:58-65 | a region with no pixels scores 0 |
| Compress.RowScoreZeroIff | src/compress.rs:59-64 | a row's score is 0 iff the two rows agree pixel for pixel |
| Compress.ScoreZeroIff | src/compress.rs:54-68 | fitness is 0 iff the images agree on all three channels at every pixel of the base's dimensions |
| Compress.ScoreOfSelf | src/compress.rs:54-68 | an image scores 0 against itself |
| Compress.RowScoreBound | src/compress.rs:59-64 | a row of `n` pixels scores at most `765*n` |
| Compress.ScoreBound | src/compress.rs:54-68 | fitness is at most `3*255*w*h` |
| Compress.RowScoreSymmetric | src/compress.rs:59-64 | a row's score does not depend on which image is the base |
| Compress.ScoreSymmetric | src/compress.rs:54-68 | fitness is symmetric over a region both images cover |
| Compress.First | src/compress.rs:32 | `population[0]` yields the first individual iff the population is non-empty, and otherwise an out-of-bounds failure at index 0 |
| Compress.CreatePopulation | src/compress.rs:35-37 | the initial population is always empty |
| Compress.Mutate | src/compress.rs:39-48 | the next population is always empty, since nothing is pushed |
| Compress.Compress | src/compress.rs:10-33 | with the stubbed population, `compress` always fails indexing `population[0]` on an empty population |
| Fnv.FnvState.constructor | src/fnvhasher.rs:10 | the state starts at the given seed |
| Fnv.FnvState.Write | src/fnvhasher.rs:18-25 | the state after `write` is the left fold, in byte order, of the XOR-then-multiply step over the bytes |
| Fnv.WriteAllSmall | src/fnvhasher.rs:20-23 | writing no bytes leaves the state alone; one byte `b` maps `s` to `(s XOR b) * 0x100000001b3` mod 2^64 |
| Fnv.WriteAllAppend | src/fnvhasher.rs:18-25 | writing `a` and then `b` gives the same state as writing `a ++ b` |
| Fnv.Hash | src/fnvhasher.rs:9-14 | `hash` starts at `0xcbf29ce484222325` and returns the fold over all written bytes, however the value splits them into writes |
| Fnv.KnownVectors | src/fnvhasher.rs:9-25 | the empty input, "a" and "foobar" hash to the published FNV-1a 64-bit values |
| Constants.ShouldMutate | src/constants.rs:22-25 | `should_mutate(max)` needs `max > 0`, since the remainder by 0 panics; it can fire only when `max >= 2` |
| Constants.RateOneNeverFires | src/constants.rs:24 | with `max == 1` the rule never fires |
| Constants.OneFiringDrawPerPeriod | src/constants.rs:24 | for `max >= 2`, the draw 1 is the only one in `[0, max)` that fires |
| Constants.RemainderInPeriod | src/constants.rs:24 | the draw `k*max + j` leaves remainder `j` |
| Constants.FiringsWithinPeriod | src/constants.rs:24 | inside a period, the firings grow by one once the draw `k*max + 1` is passed |
| Constants.FiringsPerPeriods | src/constants.rs:22-25 | exactly `k` of the draw values `0 … k*max - 1` fire |
| Constants.ConstantsAreUsable | src/constants.rs:4-20 | every `*_RATE` is at least 2; `VERTICES >= 3`; `POPULATION_SIZE`, `MUTATIONS`, `WORKERS` and `INITIAL_POLYGONS` are positive |

## Left out

- `src/main.rs` (argument parsing, reading and writing image files) is I/O and is not part of this model.
- `src/build.rs` (the CUDA build script) is an external toolchain and is not part of this model.
- Floating point: coordinates are `real`. `f32` rounding in `inside_polygon`, in `Point` arithmetic and in the `x as f32` conversion of pixel positions is not modelled.
- Render.Cast: models `v as u32` as the floor of a value in `[0, u32::MAX]`. In this version of Rust the cast is unspecified for NaN, for values above `u32::MAX` and for values of -1.0 or less; on common hardware `-1.0 as u32` gave `0xFFFF_FFFF`. The model chooses 0 for every negative value, which is the later saturating behaviour, and has no upper clamp. For a polygon with a vertex at or below -1, `Render.AcceptedPixelInBox` and `Render.Render` depend on that choice. With a wrapped cast, `maxx`/`maxy` become that huge value and the negative vertex no longer lowers `minx`/`miny`. The scan then starts at the other vertices' smallest cast, or at `w-1`/`h-1`, and skips accepted pixels to the left of or above it.
- Compress.Fitness: the score is an unbounded `nat`. It does not model overflow of the `uint` accumulator. `Compress.ScoreBound` bounds the score by `3*255*w*h`. Its failure condition rests on the same assumption as `Render.Render`, that `get_pixel` panics at any position outside `w × h`. If the image library indexes one flat vector at `y*w + x`, a narrower but taller candidate is read at `y*cw + x` and panics only when that index reaches `cw*ch`. The model does not capture that.
- Render.Render: the initial contents of `ImageBuf::new` come from the image library and are the `background` parameter. The model assumes `get_pixel`/`put_pixel` panic at any position outside `w × h`, and that panic is `ok == false`, with no partial image promised. The image library is not part of this model. If it indexes one flat vector at `y*w + x`, an accepted pixel `(x, y)` with `x >= w` would blend pixel `(x mod w, y + x div w)` while `y*w + x < w*h`, and panic only once that index reaches `w*h`. The model does not capture that.
- The `HashSet` of modified pixels is a Dafny `set` of positions. Its hashing is not modelled.
- Randomness: the draw of `std::rand::random` in `should_mutate` is a parameter. `Constants.ShouldMutate` accepts any natural number as the draw, not only 64-bit values. Nothing is said about the distribution of successive draws. Since 400, 1000 and 1200 do not divide 2^64, a uniform 64-bit draw fires with a probability only close to `1 / max`.
- `FITNESS_THRESHOLD`, `CHANGE_COLOR_MAX` and `MOVE_VERTEX_MAX` are floating-point constants that nothing in these files uses.
- The `Hash` trait plumbing (`t.hash(&mut state)`) belongs to the standard library. `Fnv.Hash` takes the sequence of byte slices that the value writes.
- The `fmt::Show` implementations and the commented-out code in `src/encoding.rs` and `src/compress.rs` have no behaviour to model.
- The generational search, mutation operators, convex-hull ordering, antialiasing, error map, pixel overrides, size estimator and worker pool do not exist in these files.
