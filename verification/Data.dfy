/** Python exceptions raised by the modelled code, as values. */
module Errors {

  /** The exception kinds the conversion pipeline can raise. */
  datatype Fault =
    | ValueError         // max()/min() of an empty sequence, range() with step 0
    | ZeroDivisionError  // rescaling a grid whose maximum equals its minimum
    | IndexError         // a palette lookup out of range

  /** Either a value or the exception that was raised instead. */
  datatype Result<T> = Ok(value: T) | Err(fault: Fault)
}

/** The constants and type aliases of data.py. */
module Data {

  /** The default palette, lightest glyph first (65 characters). */
  const ASCII_CHARS: string := "`^\",:;Il!i~+_-?][}{1)(|\\/tfjrxnuvczXYUJCLQ0OZmwqpdbkhao*#MW&8%B@$"

  /** The upper end of the brightness range. */
  const MAX_PIXEL_VALUE: int := 255

  /** A pixel as delivered by the image library: a list of channel values (R, G, B, ...). */
  type Pixel = seq<int>
  type ImageArray = seq<seq<Pixel>>
  type BrightnessArray = seq<seq<real>>
  /** A glyph grid; each row is the row's characters in order. */
  type AsciiImage = seq<seq<char>>

  /** Every row of the grid has the same shape as the corresponding row of another grid. */
  ghost predicate SameShape<A, B>(a: seq<seq<A>>, b: seq<seq<B>>)
  {
    |a| == |b| && forall i :: 0 <= i < |a| ==> |a[i]| == |b[i]|
  }

  /** The grid has at least one row and no empty row, so max() and min() over it are defined. */
  predicate Populated<T>(g: seq<seq<T>>)
  {
    |g| > 0 && forall i :: 0 <= i < |g| ==> |g[i]| > 0
  }
}

/** Python's one-argument round() on a number: nearest integer, ties to the even neighbour. */
module Rounding {

  function RoundHalfEven(x: real): (r: int)
    ensures x - 0.5 <= r as real <= x + 0.5
    ensures (r as real - x == 0.5 || x - r as real == 0.5) ==> r % 2 == 0
  {
    var f := x.Floor;
    var d := x - f as real;
    if d < 0.5 then f
    else if d > 0.5 then f + 1
    else if f % 2 == 0 then f
    else f + 1
  }

  /** round() returns an integer nearest to its argument. */
  lemma RoundIsNearest(x: real, k: int)
    ensures var r := RoundHalfEven(x);
      (if x >= r as real then x - r as real else r as real - x) <= (if x >= k as real then x - k as real else k as real - x)
  {
    var r := RoundHalfEven(x);
    if k < r {
      assert k as real <= r as real - 1.0;
    } else if k > r {
      assert k as real >= r as real + 1.0;
    }
  }

  /** round() is monotone. */
  lemma RoundMonotone(x: real, y: real)
    requires x <= y
    ensures RoundHalfEven(x) <= RoundHalfEven(y)
  {
    if x < y {
      var rx, ry := RoundHalfEven(x), RoundHalfEven(y);
      assert rx as real < ry as real + 1.0;
    }
  }

  /** round() of a value between two integers stays between them. */
  lemma RoundWithin(x: real, lo: int, hi: int)
    requires lo as real <= x <= hi as real
    ensures lo <= RoundHalfEven(x) <= hi
  {
    var r := RoundHalfEven(x);
    assert lo as real - 0.5 <= r as real <= hi as real + 0.5;
  }

  /** round() leaves an integer unchanged. */
  lemma RoundOfInteger(k: int)
    ensures RoundHalfEven(k as real) == k
  {
    var r := RoundHalfEven(k as real);
    assert k as real - 0.5 <= r as real <= k as real + 0.5;
  }
}
