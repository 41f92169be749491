/**
 * The in-place vertical flip of a texture buffer, with the C `int`
 * arithmetic of its row cursors.
 */
module FlipImage {
  import opened FlipSpec

  /** A C `int` (32-bit, two's complement). */
  newtype int32 = x: int | -0x8000_0000 <= x < 0x8000_0000

  predicate InInt32(x: int)
  {
    -0x8000_0000 <= x < 0x8000_0000
  }

  /** C's `h / 2` on an `int`: the quotient is truncated toward zero. */
  function CHalf(h: int32): (r: int32)
    ensures h >= 0 ==> 0 <= h as int - 2 * r as int <= 1
    ensures h < 0 ==> -1 <= h as int - 2 * r as int <= 0
  {
    if h >= 0 then h / 2 else (-((-(h as int)) / 2)) as int32
  }

  /**
   * What a caller must guarantee: whenever the flip touches the buffer
   * (at least two rows), every row offset the loops compute fits in an
   * `int`, and, when rows are non-empty, the buffer holds all
   * width * height * channels bytes.
   */
  predicate Admissible(length: nat, width: int32, height: int32, channels: int32)
  {
    var w, h, c := width as int, height as int, channels as int;
    h >= 2 ==>
      InInt32((h - 1) * w) && InInt32(w * c) && InInt32((h - 1) * w * c) &&
      (w * c > 0 ==> InInt32(h * w * c) && h * w * c <= length)
  }

  /** `a * x` lies between 0 and `b * x` when 0 <= a <= b. */
  lemma ScaledBetween(a: int, b: int, x: int)
    requires 0 <= a <= b
    ensures x >= 0 ==> 0 <= a * x <= b * x
    ensures x < 0 ==> b * x <= a * x <= 0
  {
    if x >= 0 {
      MulMono(0, a, x);
      MulMono(a, b, x);
    } else {
      MulMono(0, a, -x);
      MulMono(a, b, -x);
      assert a * -x == -(a * x) && b * -x == -(b * x);
    }
  }

  /** An admissible buffer holds the whole image the flip rearranges. */
  lemma AdmissibleHoldsImage(length: nat, width: int32, height: int32, channels: int32)
    requires Admissible(length, width, height, channels)
    ensures Extent(width as int * channels as int, height as int) <= length
  {
    var w, h, c := width as int, height as int, channels as int;
    if w * c > 0 && h >= 2 {
      assert h * w * c == h * (w * c);
      assert Extent(w * c, h) == h * (w * c);
    }
  }

  /**
   * For a pair `j` in the top half of an admissible image, the row offsets
   * the loops compute fit in an `int`, are those of rows `j` and
   * `height - 1 - j`, and (for non-empty rows) name two disjoint rows
   * inside the buffer whose cursors never pass the largest `int`.
   */
  lemma OffsetsFit(length: nat, j: int, width: int32, height: int32, channels: int32)
    requires Admissible(length, width, height, channels)
    requires 0 <= j && 2 * j + 2 <= height as int
    ensures var w, h, c := width as int, height as int, channels as int;
      InInt32(j * w) && InInt32(j * w * c) && InInt32(w * c) &&
      InInt32((h - 1 - j) * w) && InInt32((h - 1 - j) * w * c) &&
      j * w * c == j * (w * c) && (h - 1 - j) * w * c == (h - 1 - j) * (w * c)
    ensures var w, h, c := width as int, height as int, channels as int;
      w * c > 0 ==>
        0 <= j * w * c && j * w * c + w * c <= (h - 1 - j) * w * c &&
        (h - 1 - j) * w * c + w * c <= length && InInt32((h - 1 - j) * w * c + w * c)
  {
    var w, h, c := width as int, height as int, channels as int;
    ScaledBetween(j, h - 1, w);
    ScaledBetween(h - 1 - j, h - 1, w);
    assert j * w * c == j * (w * c);
    assert (h - 1 - j) * w * c == (h - 1 - j) * (w * c);
    assert (h - 1) * w * c == (h - 1) * (w * c);
    assert h * w * c == h * (w * c);
    ScaledBetween(j, h - 1, w * c);
    ScaledBetween(h - 1 - j, h - 1, w * c);
    if w * c > 0 {
      RowSpan(j, w * c, h - 1 - j);
      RowSpan(h - 1 - j, w * c, h);
    }
  }

  /**
   * The inner loop: exchanges, byte by byte through a temporary, the `i`
   * bytes from `index1` with the `i` bytes from `index2`, advancing both
   * cursors together while `i` counts down to zero. Nothing happens when
   * `i <= 0`. `swaps` counts the byte exchanges made.
   */
  method SwapRows(image: array<byte>, index1: int32, index2: int32, i: int32)
    returns (ghost swaps: nat)
    requires i > 0 ==> 0 <= index1 && index1 as int + i as int <= index2 as int
    requires i > 0 ==> index2 as int + i as int <= image.Length && InInt32(index2 as int + i as int)
    modifies image
    ensures i > 0 ==> image[..] == SwapBlocks(old(image[..]), index1 as int, index2 as int, i as int)
    ensures i <= 0 ==> image[..] == old(image[..])
    ensures swaps == if i > 0 then i as int else 0
  {
    ghost var s := image[..];
    ghost var n := if i > 0 then i as int else 0;
    var index1, index2, i := index1, index2, i;
    ghost var p, q := index1 as int, index2 as int;
    if n > 0 {
      assert forall k :: 0 <= k < |s| ==> SwapBlocks(s, p, q, 0)[k] == s[k];
    }
    swaps := 0;
    while i > 0
      invariant n == 0 ==> i <= 0 && image[..] == s
      invariant n > 0 ==> 0 <= i as int <= n
      invariant n > 0 ==> index1 as int == p + (n - i as int) && index2 as int == q + (n - i as int)
      invariant n > 0 ==> image[..] == SwapBlocks(s, p, q, n - i as int)
      invariant swaps == if n > 0 then n - i as int else 0
    {
      SwapBlocksStep(s, p, q, n - i as int);
      var tmp := image[index1];
      image[index1] := image[index2];
      image[index2] := tmp;
      swaps := swaps + 1;
      index1 := index1 + 1;
      index2 := index2 + 1;
      i := i - 1;
    }
  }

  /**
   * Flips the image held in `image` top-to-bottom in place: for each row
   * `j` in the top half, swaps it byte by byte with row `height - 1 - j`.
   * `swaps` counts the byte exchanges made.
   */
  method FlipImageVertically(image: array<byte>, width: int32, height: int32, channels: int32)
    returns (ghost swaps: nat)
    requires Admissible(image.Length, width, height, channels)
    modifies image
    ensures Extent(width as int * channels as int, height as int) <= image.Length
    ensures image[..] == Flipped(old(image[..]), width as int * channels as int, height as int)
    ensures multiset(image[..]) == multiset(old(image[..]))
    ensures swaps == if height >= 2 && width as int * channels as int > 0
      then (height as int / 2) * (width as int * channels as int) else 0
  {
    ghost var s := image[..];
    ghost var rowLen := width as int * channels as int;
    ghost var perRow := if rowLen > 0 then rowLen else 0;
    ghost var last := if height >= 2 then height as int / 2 else 0;
    AdmissibleHoldsImage(image.Length, width, height, channels);
    ProgressStart(s, rowLen, height as int);
    swaps := 0;
    var j: int32 := 0;
    while j < CHalf(height)
      invariant 0 <= j as int <= last
      invariant image[..] == Progress(s, rowLen, height as int, j as int)
      invariant swaps == j as int * perRow
    {
      OffsetsFit(image.Length, j as int, width, height, channels);
      var index1: int32 := j * width * channels;
      var index2: int32 := (height - 1 - j) * width * channels;
      if rowLen > 0 {
        ProgressSwapRow(s, rowLen, height as int, j as int);
      }
      ghost var rowSwaps := SwapRows(image, index1, index2, width * channels);
      if rowLen > 0 {
        assert (j as int + 1) * perRow == j as int * perRow + perRow;
      } else {
        assert perRow == 0 && (j as int + 1) * perRow == j as int * perRow;
        ProgressIdle(s, rowLen, height as int, j as int + 1);
        ProgressIdle(s, rowLen, height as int, j as int);
      }
      swaps := swaps + rowSwaps;
      j := j + 1;
    }
    ProgressComplete(s, rowLen, height as int, last);
    FlippedKeepsBytes(s, rowLen, height as int);
  }
}
