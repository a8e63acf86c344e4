/** processing.py: pixels to brightness, brightness to normalised brightness, brightness to glyphs. */
module Processing {
  import opened Errors
  import opened Data
  import opened Rounding

  function Min(a: int, b: int): (r: int) { if a <= b then a else b }

  // ---------------------------------------------------------------------------
  // to_array: chunk the flat pixel list into rows of the image's width
  // ---------------------------------------------------------------------------

  /** The number of values `range(0, total, width)` produces. */
  function RowCount(total: nat, width: nat): (r: nat)
    requires width > 0
  {
    (total + width - 1) / width
  }

  /** Multiplying by a natural number preserves order. */
  lemma MulMonotone(a: nat, b: nat, w: nat)
    requires a <= b
    ensures a * w <= b * w
  {
    assert b * w == a * w + (b - a) * w;
  }

  /** The Euclidean division behind RowCount. */
  lemma RowCountDivision(total: nat, width: nat)
    requires width > 0
    ensures var c := RowCount(total, width);
      c * width <= total + width - 1 < c * width + width
  {
    var c := RowCount(total, width);
    var rem := (total + width - 1) % width;
    assert total + width - 1 == c * width + rem && 0 <= rem < width;
  }

  /** Facts about RowCount: row k < RowCount starts inside the list, and RowCount rows cover it. */
  lemma RowCountBounds(total: nat, width: nat, k: nat)
    requires width > 0
    ensures k < RowCount(total, width) ==> k * width < total
    ensures RowCount(total, width) * width >= total
  {
    var c := RowCount(total, width);
    RowCountDivision(total, width);
    if k < c {
      MulMonotone(k + 1, c, width);
      assert (k + 1) * width == k * width + width;
    }
  }

  /** When the width divides the length, RowCount rows cover the list exactly. */
  lemma RowCountExact(total: nat, width: nat)
    requires width > 0 && total % width == 0
    ensures RowCount(total, width) * width == total
  {
    var c := RowCount(total, width);
    RowCountDivision(total, width);
    var q := total / width;
    assert total == q * width;
    if c > q {
      MulMonotone(q + 1, c, width);
    } else if c < q {
      MulMonotone(c + 1, q, width);
    }
  }

  /** Row k of the chunked list: `pixels[k*width : k*width+width]`. */
  function Chunk<T>(pixels: seq<T>, width: nat, k: nat): (r: seq<T>)
    requires width > 0 && k < RowCount(|pixels|, width)
  {
    RowCountBounds(|pixels|, width, k);
    pixels[k * width .. Min(k * width + width, |pixels|)]
  }

  /** to_array: the list comprehension over `range(0, len(pixels), width)`; a zero width is a ValueError. */
  function ToArray<T>(pixels: seq<T>, width: nat): (r: Result<seq<seq<T>>>)
    ensures r.Err? <==> width == 0
    ensures r.Err? ==> r.fault == ValueError
  {
    if width == 0 then Err(ValueError)
    else Ok(seq(RowCount(|pixels|, width), k requires 0 <= k < RowCount(|pixels|, width) => Chunk(pixels, width, k)))
  }

  /** Concatenation of a list of rows. */
  function Flatten<T>(rows: seq<seq<T>>): seq<T>
  {
    if rows == [] then [] else Flatten(rows[..|rows| - 1]) + rows[|rows| - 1]
  }

  /** Flattening one more row appends that row. */
  lemma FlattenSnoc<T>(rows: seq<seq<T>>, k: nat)
    requires k < |rows|
    ensures Flatten(rows[..k + 1]) == Flatten(rows[..k]) + rows[k]
  {
    assert rows[..k + 1][..k] == rows[..k];
  }

  lemma {:induction false} ToArrayPrefix<T>(pixels: seq<T>, width: nat, k: nat)
    requires width > 0
    requires k <= RowCount(|pixels|, width)
    ensures Flatten(ToArray(pixels, width).value[..k]) == pixels[..Min(k * width, |pixels|)]
  {
    var rows := ToArray(pixels, width).value;
    if k > 0 {
      ToArrayPrefix(pixels, width, k - 1);
      FlattenSnoc(rows, k - 1);
      var start := (k - 1) * width;
      var end := Min(k * width, |pixels|);
      assert start < |pixels| && start + width == k * width by {
        RowCountBounds(|pixels|, width, k - 1);
      }
      assert rows[k - 1] == pixels[start .. end];
      assert pixels[..start] + pixels[start .. end] == pixels[..end];
    }
  }

  /** Concatenating the rows of to_array gives back the flat pixel list. */
  lemma ToArrayFlatten<T>(pixels: seq<T>, width: nat)
    requires width > 0
    ensures Flatten(ToArray(pixels, width).value) == pixels
  {
    var rows := ToArray(pixels, width).value;
    ToArrayPrefix(pixels, width, |rows|);
    RowCountBounds(|pixels|, width, 0);
    assert rows[..|rows|] == rows;
  }

  /** Row k of to_array has `width` pixels unless it is the last row, which has between 1 and `width`. */
  lemma ToArrayRowLength<T>(pixels: seq<T>, width: nat, k: nat)
    requires width > 0 && k < RowCount(|pixels|, width)
    ensures var rows := ToArray(pixels, width).value;
      && (k < |rows| - 1 ==> |rows[k]| == width)
      && (k == |rows| - 1 ==> 0 < |rows[k]| <= width)
  {
    var rows := ToArray(pixels, width).value;
    RowCountBounds(|pixels|, width, k);
    if k < |rows| - 1 {
      RowCountBounds(|pixels|, width, k + 1);
      assert (k + 1) * width == k * width + width;
    }
  }

  /** Every row but the last has exactly `width` pixels, and the last has between 1 and `width`;
      there are no rows exactly when there are no pixels. */
  lemma ToArrayRowLengths<T>(pixels: seq<T>, width: nat)
    requires width > 0
    ensures var rows := ToArray(pixels, width).value;
      && (forall k :: 0 <= k < |rows| - 1 ==> |rows[k]| == width)
      && (|rows| > 0 ==> 0 < |rows[|rows| - 1]| <= width)
      && (|rows| == 0 <==> |pixels| == 0)
  {
    var rows := ToArray(pixels, width).value;
    forall k | 0 <= k < |rows| - 1
      ensures |rows[k]| == width
    {
      ToArrayRowLength(pixels, width, k);
    }
    if |rows| > 0 {
      ToArrayRowLength(pixels, width, |rows| - 1);
    }
    RowCountBounds(|pixels|, width, 0);
  }

  /** When the length is a multiple of the width, every row is full. */
  lemma ToArrayFullRows<T>(pixels: seq<T>, width: nat)
    requires width > 0 && |pixels| % width == 0
    ensures var rows := ToArray(pixels, width).value;
      forall k :: 0 <= k < |rows| ==> |rows[k]| == width
  {
    var rows := ToArray(pixels, width).value;
    RowCountExact(|pixels|, width);
    forall k | 0 <= k < |rows|
      ensures |rows[k]| == width
    {
      MulMonotone(k + 1, |rows|, width);
      assert (k + 1) * width == k * width + width;
    }
  }

  // ---------------------------------------------------------------------------
  // brightness: luminosity-weighted channel sum, capped at MAX_PIXEL_VALUE
  // ---------------------------------------------------------------------------

  /** The luminosity weights for (R, G, B). */
  const WEIGHTS: seq<real> := [0.21, 0.72, 0.07]

  /** Sum of `p * w` over `zip(pixel, weights)`: only the first min(|pixel|, |weights|) channels count. */
  function WeightedSum(pixel: seq<int>, weights: seq<real>): (r: real)
    decreases |pixel|
  {
    var m := Min(|pixel|, |weights|);
    if m == 0 then 0.0
    else WeightedSum(pixel[..m - 1], weights[..m - 1]) + pixel[m - 1] as real * weights[m - 1]
  }

  /** brightness: the weighted sum, capped by `min(output, MAX_PIXEL_VALUE)`. */
  function BrightnessOf(pixel: Pixel): (r: real)
    ensures r <= MAX_PIXEL_VALUE as real && r <= WeightedSum(pixel, WEIGHTS)
    ensures r == WeightedSum(pixel, WEIGHTS) || r == MAX_PIXEL_VALUE as real
  {
    var s := WeightedSum(pixel, WEIGHTS);
    if MAX_PIXEL_VALUE as real < s then MAX_PIXEL_VALUE as real else s
  }

  /** For a pixel with at least the three channels R, G, B, the sum is 0.21·R + 0.72·G + 0.07·B. */
  lemma LuminosityFormula(pixel: Pixel)
    requires |pixel| >= 3
    ensures WeightedSum(pixel, WEIGHTS) == 0.21 * pixel[0] as real + 0.72 * pixel[1] as real + 0.07 * pixel[2] as real
  {
    var p3 := pixel[..3];
    assert p3[..2] == pixel[..2] && pixel[..2][..1] == pixel[..1] && pixel[..1][..0] == [];
    assert WEIGHTS[..3] == WEIGHTS;
    assert WeightedSum(pixel[..1], WEIGHTS[..1]) == pixel[0] as real * 0.21;
    assert WeightedSum(pixel[..2], WEIGHTS[..2]) == pixel[0] as real * 0.21 + pixel[1] as real * 0.72;
  }

  predicate ChannelsInRange(pixel: Pixel)
  {
    forall k :: 0 <= k < |pixel| ==> 0 <= pixel[k] <= MAX_PIXEL_VALUE
  }

  /** An RGB pixel with channels in [0, 255] has brightness in [0, 255]: the weights sum to 1,
      so the cap never changes the value. */
  lemma BrightnessInRange(pixel: Pixel)
    requires |pixel| >= 3 && ChannelsInRange(pixel)
    ensures 0.0 <= WeightedSum(pixel, WEIGHTS) <= MAX_PIXEL_VALUE as real
    ensures BrightnessOf(pixel) == WeightedSum(pixel, WEIGHTS)
  {
    LuminosityFormula(pixel);
  }

  /** brightness, as the source computes it: accumulate `p * w` over `zip(pixel, weights)`, then cap. */
  method Brightness(pixel: Pixel) returns (r: real)
    ensures r == BrightnessOf(pixel)
  {
    var weights := WEIGHTS;
    var output := 0.0;
    var m := Min(|pixel|, |weights|);
    var k := 0;
    while k < m
      invariant 0 <= k <= m
      invariant output == WeightedSum(pixel[..k], weights[..k])
    {
      assert pixel[..k + 1][..k] == pixel[..k] && weights[..k + 1][..k] == weights[..k];
      output := output + pixel[k] as real * weights[k];
      k := k + 1;
    }
    if m > 0 {
      assert pixel[..m][..m - 1] == pixel[..m - 1] && weights[..m][..m - 1] == weights[..m - 1];
    }
    r := if MAX_PIXEL_VALUE as real < output then MAX_PIXEL_VALUE as real else output;
  }

  /** brightness_matrix: brightness of every pixel, in place of the pixel. */
  function BrightnessMatrix(image: ImageArray): (m: BrightnessArray)
    ensures SameShape(image, m)
    ensures forall i, j :: 0 <= i < |m| && 0 <= j < |m[i]| ==> m[i][j] == BrightnessOf(image[i][j])
  {
    seq(|image|, i requires 0 <= i < |image| =>
      seq(|image[i]|, j requires 0 <= j < |image[i]| => BrightnessOf(image[i][j])))
  }

  /** An image of RGB pixels with channels in [0, 255] has every brightness in [0, 255]. */
  lemma BrightnessMatrixInRange(image: ImageArray)
    requires forall i, j :: 0 <= i < |image| && 0 <= j < |image[i]| ==> |image[i][j]| >= 3 && ChannelsInRange(image[i][j])
    ensures var m := BrightnessMatrix(image);
      forall i, j :: 0 <= i < |m| && 0 <= j < |m[i]| ==> 0.0 <= m[i][j] <= MAX_PIXEL_VALUE as real
  {
    var m := BrightnessMatrix(image);
    forall i, j | 0 <= i < |m| && 0 <= j < |m[i]|
      ensures 0.0 <= m[i][j] <= MAX_PIXEL_VALUE as real
    {
      BrightnessInRange(image[i][j]);
    }
  }

  // ---------------------------------------------------------------------------
  // normalize_brightness: rescale the grid so its own extremes become 0 and 255
  // ---------------------------------------------------------------------------

  /** Python's max() of a non-empty list. */
  function MaxOf(s: seq<real>): (m: real)
    requires |s| > 0
    ensures forall k :: 0 <= k < |s| ==> s[k] <= m
    ensures exists k :: 0 <= k < |s| && s[k] == m
  {
    if |s| == 1 then s[0]
    else
      var m := MaxOf(s[..|s| - 1]);
      if m < s[|s| - 1] then s[|s| - 1] else m
  }

  /** Python's min() of a non-empty list. */
  function MinOf(s: seq<real>): (m: real)
    requires |s| > 0
    ensures forall k :: 0 <= k < |s| ==> m <= s[k]
    ensures exists k :: 0 <= k < |s| && s[k] == m
  {
    if |s| == 1 then s[0]
    else
      var m := MinOf(s[..|s| - 1]);
      if s[|s| - 1] < m then s[|s| - 1] else m
  }

  /** `max(max(x) for x in mat)`: the largest cell of the grid. */
  function GridMax(g: BrightnessArray): (m: real)
    requires Populated(g)
    ensures forall i, j :: 0 <= i < |g| && 0 <= j < |g[i]| ==> g[i][j] <= m
    ensures exists i, j :: 0 <= i < |g| && 0 <= j < |g[i]| && g[i][j] == m
  {
    if |g| == 1 then MaxOf(g[0])
    else
      var m := GridMax(g[..|g| - 1]);
      var last := MaxOf(g[|g| - 1]);
      assert forall i :: 0 <= i < |g| - 1 ==> g[..|g| - 1][i] == g[i];
      if m < last then last else m
  }

  /** `min(min(x) for x in mat)`: the smallest cell of the grid. */
  function GridMin(g: BrightnessArray): (m: real)
    requires Populated(g)
    ensures forall i, j :: 0 <= i < |g| && 0 <= j < |g[i]| ==> m <= g[i][j]
    ensures exists i, j :: 0 <= i < |g| && 0 <= j < |g[i]| && g[i][j] == m
  {
    if |g| == 1 then MinOf(g[0])
    else
      var m := GridMin(g[..|g| - 1]);
      var last := MinOf(g[|g| - 1]);
      assert forall i :: 0 <= i < |g| - 1 ==> g[..|g| - 1][i] == g[i];
      if last < m then last else m
  }

  /** Every cell of the grid holds the same value. */
  ghost predicate Uniform(g: BrightnessArray)
    requires Populated(g)
  {
    forall i, j :: 0 <= i < |g| && 0 <= j < |g[i]| ==> g[i][j] == g[0][0]
  }

  /** Multiplication by a non-negative real preserves order. */
  lemma MulMonotoneReal(w: real, x: real, y: real)
    requires w >= 0.0 && x <= y
    ensures w * x <= w * y
  {
    assert w * y - w * x == w * (y - x);
  }

  /** Division by a positive real preserves order. */
  lemma DivMonotone(x: real, y: real, d: real)
    requires d > 0.0 && x <= y
    ensures x / d <= y / d
  {
    var p, q := x / d, y / d;
    assert p * d == x && q * d == y;
  }

  /** The rescale formula maps [lo, hi] onto [0, top], lo to 0 and hi to top. */
  lemma RescaleFormula(v: real, lo: real, hi: real, top: real)
    requires lo < hi && top >= 0.0
    ensures lo <= v <= hi ==> 0.0 <= top * (v - lo) / (hi - lo) <= top
    ensures v == lo ==> top * (v - lo) / (hi - lo) == 0.0
    ensures v == hi ==> top * (v - lo) / (hi - lo) == top
  {
    var d := hi - lo;
    assert (top * d) / d == top;
    if lo <= v <= hi {
      MulMonotoneReal(top, 0.0, v - lo);
      MulMonotoneReal(top, v - lo, d);
      DivMonotone(0.0, top * (v - lo), d);
      DivMonotone(top * (v - lo), top * d, d);
    }
  }

  /** One cell's rescale: `MAX_PIXEL_VALUE * (pixel - min_pixel) / (max_pixel - min_pixel)`. */
  function Rescale(v: real, lo: real, hi: real): (r: real)
    requires lo < hi
    ensures lo <= v <= hi ==> 0.0 <= r <= MAX_PIXEL_VALUE as real
    ensures v == lo ==> r == 0.0
    ensures v == hi ==> r == MAX_PIXEL_VALUE as real
  {
    RescaleFormula(v, lo, hi, MAX_PIXEL_VALUE as real);
    MAX_PIXEL_VALUE as real * (v - lo) / (hi - lo)
  }

  /** Rescaling is order-preserving. */
  lemma RescaleMonotone(a: real, b: real, lo: real, hi: real)
    requires lo < hi && a <= b
    ensures Rescale(a, lo, hi) <= Rescale(b, lo, hi)
  {
    var x := MAX_PIXEL_VALUE as real * (a - lo);
    var y := MAX_PIXEL_VALUE as real * (b - lo);
    MulMonotoneReal(MAX_PIXEL_VALUE as real, a - lo, b - lo);
    DivMonotone(x, y, hi - lo);
    assert Rescale(a, lo, hi) == x / (hi - lo);
    assert Rescale(b, lo, hi) == y / (hi - lo);
  }

  /** A row with every cell rescaled. */
  function RescaleRow(row: seq<real>, lo: real, hi: real): (r: seq<real>)
    requires lo < hi
  {
    seq(|row|, j requires 0 <= j < |row| => Rescale(row[j], lo, hi))
  }

  /** normalize_brightness as a value: the rescaled grid, or the exception the code raises.
      max()/min() over an empty grid or an empty row raise ValueError; equal extremes make
      the division raise ZeroDivisionError. */
  function Normalize(g: BrightnessArray): (r: Result<BrightnessArray>)
    ensures r.Err? ==> (r.fault == ValueError <==> !Populated(g))
    ensures r.Err? ==> (r.fault == ZeroDivisionError <==> Populated(g) && Uniform(g))
    ensures r.Ok? <==> Populated(g) && !Uniform(g)
    ensures r.Ok? ==> SameShape(g, r.value)
    ensures r.Ok? ==> forall i, j :: 0 <= i < |g| && 0 <= j < |g[i]| ==> 0.0 <= r.value[i][j] <= MAX_PIXEL_VALUE as real
  {
    if !Populated(g) then Err(ValueError)
    else
      var hi := GridMax(g);
      var lo := GridMin(g);
      if hi == lo then
        assert Uniform(g);
        Err(ZeroDivisionError)
      else
        assert !Uniform(g) by {
          var i, j :| 0 <= i < |g| && 0 <= j < |g[i]| && g[i][j] == hi;
          var k, l :| 0 <= k < |g| && 0 <= l < |g[k]| && g[k][l] == lo;
        }
        Ok(seq(|g|, i requires 0 <= i < |g| => RescaleRow(g[i], lo, hi)))
  }

  /** Each normalised row is the input row rescaled by the grid's own extremes. */
  lemma NormalizeRows(g: BrightnessArray)
    requires Normalize(g).Ok?
    ensures GridMin(g) < GridMax(g)
    ensures |Normalize(g).value| == |g|
    ensures forall k :: 0 <= k < |g| ==> Normalize(g).value[k] == RescaleRow(g[k], GridMin(g), GridMax(g))
  {
  }

  /** A grid whose every row is the rescale of the corresponding input row is the normalised grid. */
  lemma NormalizeRowwise(g: BrightnessArray, after: BrightnessArray)
    requires Populated(g) && GridMin(g) < GridMax(g)
    requires |after| == |g|
    requires forall k :: 0 <= k < |g| ==> after[k] == RescaleRow(g[k], GridMin(g), GridMax(g))
    ensures Normalize(g) == Ok(after)
  {
    NormalizeRows(g);
    var n := Normalize(g).value;
    assert forall k :: 0 <= k < |n| ==> n[k] == after[k];
    assert n == after;
  }

  /** A normalised cell is the rescale of the input cell by the grid's own original extremes. */
  lemma NormalizeCell(g: BrightnessArray, i: nat, j: nat)
    requires Normalize(g).Ok? && i < |g| && j < |g[i]|
    ensures GridMin(g) < GridMax(g)
    ensures Normalize(g).value[i][j] == Rescale(g[i][j], GridMin(g), GridMax(g))
  {
  }

  /** Cells equal to the grid's minimum become 0 and cells equal to its maximum become 255. */
  lemma NormalizeExtremeCells(g: BrightnessArray, i: nat, j: nat)
    requires Normalize(g).Ok? && i < |g| && j < |g[i]|
    ensures g[i][j] == GridMin(g) ==> Normalize(g).value[i][j] == 0.0
    ensures g[i][j] == GridMax(g) ==> Normalize(g).value[i][j] == MAX_PIXEL_VALUE as real
  {
    NormalizeCell(g, i, j);
  }

  /** normalize_brightness is order-preserving across the whole grid. */
  lemma NormalizeMonotone(g: BrightnessArray, i: nat, j: nat, k: nat, l: nat)
    requires Normalize(g).Ok?
    requires i < |g| && j < |g[i]| && k < |g| && l < |g[k]|
    requires g[i][j] <= g[k][l]
    ensures Normalize(g).value[i][j] <= Normalize(g).value[k][l]
  {
    NormalizeCell(g, i, j);
    NormalizeCell(g, k, l);
    RescaleMonotone(g[i][j], g[k][l], GridMin(g), GridMax(g));
  }

  /** The normalised grid spans exactly [0, 255]: its minimum is 0 and its maximum is 255. */
  lemma NormalizeSpansRange(g: BrightnessArray)
    requires Normalize(g).Ok?
    ensures Populated(Normalize(g).value)
    ensures GridMin(Normalize(g).value) == 0.0
    ensures GridMax(Normalize(g).value) == MAX_PIXEL_VALUE as real
  {
    var n := Normalize(g).value;
    var i, j :| 0 <= i < |g| && 0 <= j < |g[i]| && g[i][j] == GridMin(g);
    var k, l :| 0 <= k < |g| && 0 <= l < |g[k]| && g[k][l] == GridMax(g);
    NormalizeExtremeCells(g, i, j);
    NormalizeExtremeCells(g, k, l);
    var lo, hi := GridMin(n), GridMax(n);
    assert lo <= n[i][j] && n[i][j] == 0.0;
    assert hi >= n[k][l] && n[k][l] == MAX_PIXEL_VALUE as real;
    var a, b :| 0 <= a < |n| && 0 <= b < |n[a]| && n[a][b] == lo;
    var c, d :| 0 <= c < |n| && 0 <= d < |n[c]| && n[c][d] == hi;
  }

  /** A uniform grid (every cell equal) makes normalize_brightness divide by zero. */
  lemma UniformGridDividesByZero(g: BrightnessArray)
    requires Populated(g) && Uniform(g)
    ensures Normalize(g) == Err(ZeroDivisionError)
  {
  }

  /** The current contents of a list of row buffers. */
  function Snapshot(rows: seq<array<real>>): (g: BrightnessArray)
    reads set r | r in rows
    ensures |g| == |rows| && forall i :: 0 <= i < |rows| ==> g[i] == rows[i][..]
  {
    if rows == [] then [] else Snapshot(rows[..|rows| - 1]) + [rows[|rows| - 1][..]]
  }

  /** normalize_brightness as the source runs it. `brightness_mat.copy()` is a shallow copy:
      the returned outer list holds the very same row buffers, so every write also lands in
      the input. The extremes are taken before the first write, and each cell is read just
      before it is overwritten, so every cell is rescaled with the original extremes. Rows are
      distinct buffers, as every caller builds them. On an exception nothing has been written. */
  method NormalizeBrightness(mat: seq<array<real>>) returns (r: Result<seq<array<real>>>)
    requires forall a, b :: 0 <= a < b < |mat| ==> mat[a] != mat[b]
    modifies set row | row in mat
    ensures r.Err? ==> Normalize(old(Snapshot(mat))) == Err(r.fault) && Snapshot(mat) == old(Snapshot(mat))
    ensures r.Ok? ==> r.value == mat && Normalize(old(Snapshot(mat))) == Ok(Snapshot(mat))
  {
    var g := Snapshot(mat);
    if !Populated(g) {
      return Err(ValueError);
    }
    var maxPixel := GridMax(g);
    var minPixel := GridMin(g);
    if maxPixel == minPixel {
      return Err(ZeroDivisionError);
    }
    var output := mat;
    RescaleRowsInPlace(output, minPixel, maxPixel);
    ghost var after := Snapshot(mat);
    assert forall k :: 0 <= k < |g| ==> after[k] == RescaleRow(g[k], minPixel, maxPixel);
    NormalizeRowwise(g, after);
    return Ok(output);
  }

  /** The outer loop of normalize_brightness: rescale each row in turn. */
  method RescaleRowsInPlace(rows: seq<array<real>>, lo: real, hi: real)
    requires lo < hi
    requires forall a, b :: 0 <= a < b < |rows| ==> rows[a] != rows[b]
    modifies set row | row in rows
    ensures forall k :: 0 <= k < |rows| ==> rows[k][..] == RescaleRow(old(rows[k][..]), lo, hi)
  {
    var i := 0;
    while i < |rows|
      invariant 0 <= i <= |rows|
      invariant forall k :: 0 <= k < i ==> rows[k][..] == RescaleRow(old(rows[k][..]), lo, hi)
      invariant forall k :: i <= k < |rows| ==> rows[k][..] == old(rows[k][..])
    {
      RescaleRowInPlace(rows[i], lo, hi);
      i := i + 1;
    }
  }

  /** The inner loop of normalize_brightness: overwrite each cell of one row with its rescale,
      reading the cell just before writing it. */
  method RescaleRowInPlace(row: array<real>, lo: real, hi: real)
    requires lo < hi
    modifies row
    ensures row[..] == RescaleRow(old(row[..]), lo, hi)
  {
    var j := 0;
    while j < row.Length
      invariant 0 <= j <= row.Length
      invariant forall c :: 0 <= c < j ==> row[c] == Rescale(old(row[c]), lo, hi)
      invariant forall c :: j <= c < row.Length ==> row[c] == old(row[c])
    {
      var pixel := row[j];
      row[j] := MAX_PIXEL_VALUE as real * (pixel - lo) / (hi - lo);
      j := j + 1;
    }
  }

  // ---------------------------------------------------------------------------
  // ascii_char, asciify: quantise a normalised brightness to a palette index
  // ---------------------------------------------------------------------------

  /** Python's `s[k]`: a negative index counts from the end; anything else out of range is an IndexError. */
  function PyIndex<T>(s: seq<T>, k: int): (r: Result<T>)
    ensures r.Ok? <==> -|s| <= k < |s|
    ensures r.Ok? ==> r.value == (if k >= 0 then s[k] else s[|s| + k])
    ensures r.Err? ==> r.fault == IndexError
  {
    if 0 <= k < |s| then Ok(s[k])
    else if -|s| <= k < 0 then Ok(s[|s| + k])
    else Err(IndexError)
  }

  /** The unrounded index `i_hat = (n - 1) * brightness / MAX_PIXEL_VALUE`. */
  function ScaledIndex(b: real, n: nat): (r: real)
  {
    (n - 1) as real * b / MAX_PIXEL_VALUE as real
  }

  /** The palette index ascii_char looks up: `round(i_hat)`. */
  function AsciiIndex(b: real, n: nat): (r: int)
  {
    RoundHalfEven(ScaledIndex(b, n))
  }

  /** ascii_char: the glyph for one brightness value, or the IndexError of the lookup. */
  function AsciiChar(b: real, palette: string): (r: Result<char>)
  {
    PyIndex(palette, AsciiIndex(b, |palette|))
  }

  /** For a brightness in [0, 255] and a non-empty palette the index lies in [0, n - 1], so the
      lookup succeeds without wrapping; 0 selects the first glyph and 255 the last. */
  lemma AsciiCharInRange(b: real, palette: string)
    requires 0.0 <= b <= MAX_PIXEL_VALUE as real && |palette| > 0
    ensures 0 <= AsciiIndex(b, |palette|) < |palette|
    ensures AsciiChar(b, palette) == Ok(palette[AsciiIndex(b, |palette|)])
    ensures b == 0.0 ==> AsciiChar(b, palette) == Ok(palette[0])
    ensures b == MAX_PIXEL_VALUE as real ==> AsciiChar(b, palette) == Ok(palette[|palette| - 1])
  {
    AsciiIndexBounds(b, |palette|);
  }

  /** The palette index of a brightness in [0, 255] lies in [0, n - 1]; 0 gives 0 and 255 gives n - 1. */
  lemma AsciiIndexBounds(b: real, n: nat)
    requires 0.0 <= b <= MAX_PIXEL_VALUE as real && n > 0
    ensures 0 <= AsciiIndex(b, n) < n
    ensures b == 0.0 ==> AsciiIndex(b, n) == 0
    ensures b == MAX_PIXEL_VALUE as real ==> AsciiIndex(b, n) == n - 1
  {
    ScaledIndexBounds(b, n);
    RoundWithin(ScaledIndex(b, n), 0, n - 1);
    if b == 0.0 {
      RoundOfInteger(0);
    } else if b == MAX_PIXEL_VALUE as real {
      RoundOfInteger(n - 1);
    }
  }

  /** The unrounded index of a brightness in [0, 255] lies in [0, n - 1]. */
  lemma ScaledIndexBounds(b: real, n: nat)
    requires 0.0 <= b <= MAX_PIXEL_VALUE as real && n > 0
    ensures 0.0 <= ScaledIndex(b, n) <= (n - 1) as real
    ensures b == 0.0 ==> ScaledIndex(b, n) == 0.0
    ensures b == MAX_PIXEL_VALUE as real ==> ScaledIndex(b, n) == (n - 1) as real
  {
    var top := MAX_PIXEL_VALUE as real;
    var w := (n - 1) as real;
    MulMonotoneReal(w, 0.0, b);
    MulMonotoneReal(w, b, top);
    DivMonotone(0.0, w * b, top);
    DivMonotone(w * b, w * top, top);
    assert (w * top) / top == w;
  }

  /** The unrounded index is monotone in the brightness. */
  lemma ScaledIndexMonotone(a: real, b: real, n: nat)
    requires a <= b && n > 0
    ensures ScaledIndex(a, n) <= ScaledIndex(b, n)
  {
    var w, top := (n - 1) as real, MAX_PIXEL_VALUE as real;
    assert top == 255.0;
    var x, y := w * a, w * b;
    MulMonotoneReal(w, a, b);
    assert x <= y;
    DivMonotone(x, y, top);
    assert ScaledIndex(a, n) == x / top && ScaledIndex(b, n) == y / top;
  }

  /** The palette index is monotone in the brightness. */
  lemma AsciiIndexMonotone(a: real, b: real, n: nat)
    requires a <= b && n > 0
    ensures AsciiIndex(a, n) <= AsciiIndex(b, n)
  {
    ScaledIndexMonotone(a, b, n);
    RoundMonotone(ScaledIndex(a, n), ScaledIndex(b, n));
  }

  /** An empty palette makes every lookup an IndexError. */
  lemma AsciiCharEmptyPalette(b: real)
    ensures AsciiChar(b, []) == Err(IndexError)
  {
  }

  /** Ties go to the even index: with three glyphs, brightness 63.75 (index 0.5) picks glyph 0
      and 191.25 (index 1.5) picks glyph 2. */
  lemma AsciiIndexTiesToEven()
    ensures AsciiIndex(63.75, 3) == 0
    ensures AsciiIndex(191.25, 3) == 2
  {
    assert ScaledIndex(63.75, 3) == 0.5;
    assert ScaledIndex(191.25, 3) == 1.5;
  }

  /** asciify: every cell replaced by its glyph; the first failed lookup raises IndexError. */
  function Asciify(m: BrightnessArray, palette: string): (r: Result<AsciiImage>)
    ensures r.Ok? <==> forall i, j :: 0 <= i < |m| && 0 <= j < |m[i]| ==> AsciiChar(m[i][j], palette).Ok?
    ensures r.Err? ==> r.fault == IndexError
    ensures r.Ok? ==> SameShape(m, r.value)
  {
    if forall i, j :: 0 <= i < |m| && 0 <= j < |m[i]| ==> AsciiChar(m[i][j], palette).Ok? then
      Ok(seq(|m|, i requires 0 <= i < |m| =>
        seq(|m[i]|, j requires 0 <= j < |m[i]| => AsciiChar(m[i][j], palette).value)))
    else Err(IndexError)
  }

  /** Each cell of asciify's result is the palette glyph at the cell's index. */
  lemma AsciifyCell(m: BrightnessArray, palette: string, i: nat, j: nat)
    requires Asciify(m, palette).Ok? && i < |m| && j < |m[i]|
    requires 0.0 <= m[i][j] <= MAX_PIXEL_VALUE as real
    ensures 0 <= AsciiIndex(m[i][j], |palette|) < |palette|
    ensures Asciify(m, palette).value[i][j] == palette[AsciiIndex(m[i][j], |palette|)]
  {
    assert AsciiChar(m[i][j], palette).Ok?;
    AsciiCharInRange(m[i][j], palette);
  }

  // ---------------------------------------------------------------------------
  // convert: the three stages composed
  // ---------------------------------------------------------------------------

  /** convert: brightness matrix, then normalisation, then glyph mapping. */
  function Convert(palette: string, image: ImageArray): (r: Result<AsciiImage>)
  {
    match Normalize(BrightnessMatrix(image))
    case Err(f) => Err(f)
    case Ok(n) => Asciify(n, palette)
  }

  /** convert succeeds exactly when the palette is non-empty, the image has a pixel in every row,
      and not all pixels have the same brightness; the failures are the source's exceptions. */
  lemma ConvertSucceeds(palette: string, image: ImageArray)
    ensures Convert(palette, image).Ok? <==>
      |palette| > 0 && Populated(image) && !Uniform(BrightnessMatrix(image))
    ensures !Populated(image) ==> Convert(palette, image) == Err(ValueError)
    ensures Populated(image) && Uniform(BrightnessMatrix(image)) ==> Convert(palette, image) == Err(ZeroDivisionError)
    ensures Populated(image) && !Uniform(BrightnessMatrix(image)) && |palette| == 0 ==> Convert(palette, image) == Err(IndexError)
  {
    var m := BrightnessMatrix(image);
    assert Populated(m) <==> Populated(image);
    if Normalize(m).Ok? {
      var n := Normalize(m).value;
      if |palette| > 0 {
        forall i, j | 0 <= i < |n| && 0 <= j < |n[i]|
          ensures AsciiChar(n[i][j], palette).Ok?
        {
          AsciiCharInRange(n[i][j], palette);
        }
      } else {
        AsciiCharEmptyPalette(n[0][0]);
      }
    }
  }

  /** convert preserves the image's shape, and each glyph is the palette entry whose index
      the cell's normalised brightness selects. */
  lemma ConvertShape(palette: string, image: ImageArray)
    requires Convert(palette, image).Ok?
    ensures Normalize(BrightnessMatrix(image)).Ok?
    ensures SameShape(image, Convert(palette, image).value)
    ensures var n := Normalize(BrightnessMatrix(image)).value;
      forall i, j :: 0 <= i < |image| && 0 <= j < |image[i]| ==>
        0 <= AsciiIndex(n[i][j], |palette|) < |palette| &&
        Convert(palette, image).value[i][j] == palette[AsciiIndex(n[i][j], |palette|)]
  {
    var n := Normalize(BrightnessMatrix(image)).value;
    forall i, j | 0 <= i < |image| && 0 <= j < |image[i]|
      ensures 0 <= AsciiIndex(n[i][j], |palette|) < |palette|
      ensures Convert(palette, image).value[i][j] == palette[AsciiIndex(n[i][j], |palette|)]
    {
      AsciifyCell(n, palette, i, j);
      AsciiCharInRange(n[i][j], palette);
    }
  }

  lemma BlackBesideWhiteBrightness()
    ensures BrightnessMatrix([[[0, 0, 0], [255, 255, 255]]]) == [[0.0, 255.0]]
  {
    var image: ImageArray := [[[0, 0, 0], [255, 255, 255]]];
    var m := BrightnessMatrix(image);
    LuminosityFormula(image[0][0]);
    LuminosityFormula(image[0][1]);
    assert BrightnessOf(image[0][0]) == 0.0 && BrightnessOf(image[0][1]) == 255.0;
    assert |m| == 1 && |m[0]| == 2;
    assert m[0] == [0.0, 255.0];
  }

  lemma BlackBesideWhiteNormalized()
    ensures Normalize([[0.0, 255.0]]) == Ok([[0.0, 255.0]])
  {
    var m: BrightnessArray := [[0.0, 255.0]];
    assert m[0][1] != m[0][0];
    assert GridMin(m) == 0.0 && GridMax(m) == 255.0;
    var n := Normalize(m).value;
    NormalizeCell(m, 0, 0);
    NormalizeCell(m, 0, 1);
    assert |n| == 1 && |n[0]| == 2;
    assert n[0] == m[0];
    assert n == m;
  }

  lemma BlackBesideWhiteGlyphs()
    ensures Asciify([[0.0, 255.0]], "01") == Ok([['0', '1']])
  {
    var m: BrightnessArray := [[0.0, 255.0]];
    AsciiCharInRange(0.0, "01");
    AsciiCharInRange(255.0, "01");
    assert AsciiChar(m[0][0], "01") == Ok('0') && AsciiChar(m[0][1], "01") == Ok('1');
    var v := Asciify(m, "01").value;
    assert |v| == 1 && |v[0]| == 2;
    assert v[0] == ['0', '1'];
    assert v == [['0', '1']];
  }

  /** With palette "01", a black pixel beside a white one gives "0" then "1". */
  lemma ConvertBlackBesideWhite()
    ensures Convert("01", [[[0, 0, 0], [255, 255, 255]]]) == Ok([['0', '1']])
  {
    BlackBesideWhiteBrightness();
    BlackBesideWhiteNormalized();
    BlackBesideWhiteGlyphs();
  }

  /** A uniform black 2x2 image cannot be converted: normalisation divides by zero. */
  lemma ConvertUniformBlack()
    ensures Convert("01", [[[0, 0, 0], [0, 0, 0]], [[0, 0, 0], [0, 0, 0]]]) == Err(ZeroDivisionError)
  {
    var image: ImageArray := [[[0, 0, 0], [0, 0, 0]], [[0, 0, 0], [0, 0, 0]]];
    var m := BrightnessMatrix(image);
    assert Populated(m) && Uniform(m) by {
      LuminosityFormula([0, 0, 0]);
      assert forall i, j :: 0 <= i < |image| && 0 <= j < |image[i]| ==> image[i][j] == [0, 0, 0];
    }
    UniformGridDividesByZero(m);
  }
}
