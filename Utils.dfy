/**
 * The integer helpers of the seam carver: minimum and maximum, Java's
 * remainder and the non-negative `mod` built on it, first-occurrence
 * argmin/argmax, the packed-RGB luma, edge-replicating padding, the
 * gradient (Sobel-style) energy, transposition and mirroring.
 *
 * Java's `int[][]` images are rectangular here and become `array2<int>`;
 * the parallel row loops are read as plain sequential loops over the rows.
 */
module Utils {

  function Abs(x: int): (r: int)
    ensures r >= 0 && (r == x || r == -x)
  {
    if x < 0 then -x else x
  }

  /** The smallest of three values; it is one of them. */
  function Min3(a: int, b: int, c: int): (r: int)
    ensures r <= a && r <= b && r <= c
    ensures r == a || r == b || r == c
  {
    if a < b then (if a < c then a else c) else (if b < c then b else c)
  }

  /** The largest of three values; it is one of them. */
  function Max3(a: int, b: int, c: int): (r: int)
    ensures r >= a && r >= b && r >= c
    ensures r == a || r == b || r == c
  {
    if a > b then (if a > c then a else c) else (if b > c then b else c)
  }

  function Min(a: int, b: int): (r: int)
    ensures r <= a && r <= b
    ensures r == a || r == b
  {
    if a < b then a else b
  }

  function Max(a: int, b: int): (r: int)
    ensures r >= a && r >= b
    ensures r == a || r == b
  {
    if a > b then a else b
  }

  /** Euclidean division is unique: any `q, r` with `a == m * q + r` and `0 <= r < m` are Dafny's `/` and `%`. */
  lemma EuclidUnique(a: int, m: int, q: int, r: int)
    requires m > 0 && 0 <= r < m && a == m * q + r
    ensures a / m == q && a % m == r
  {
    var q', r' := a / m, a % m;
    assert m * q' + r' == a;
    assert m * (q - q') == r' - r;
    if q > q' {
      MulAtLeast(m, q - q');
    } else if q < q' {
      MulAtLeast(m, q' - q);
    }
  }

  lemma MulAtLeast(m: int, d: int)
    requires m > 0 && d >= 1
    ensures m * d >= m
  {
    assert m * d == m * (d - 1) + m;
  }

  /**
   * Java's `a % b`: it truncates toward zero, so the remainder has the sign
   * of `a` and the magnitude of `|a| % |b|` (Dafny's own `%` is Euclidean).
   */
  function JavaRem(a: int, b: int): (r: int)
    requires b != 0
    ensures a >= 0 ==> 0 <= r < Abs(b)
    ensures a < 0 ==> -Abs(b) < r <= 0
    ensures Abs(r) == Abs(a) % Abs(b)
  {
    if a >= 0 then a % Abs(b) else -((-a) % Abs(b))
  }

  /**
   * `(a % m + m) % m` in Java: for m > 0 it is the Euclidean remainder,
   * in `[0, m)` and congruent to `a`.
   */
  function Mod(a: int, m: int): (r: int)
    requires m != 0
    ensures m > 0 ==> 0 <= r < m && r == a % m
  {
    var inner := JavaRem(a, m);
    var r := JavaRem(inner + m, m);
    if m > 0 then
      ModIsEuclidean(a, m);
      r
    else
      r
  }

  lemma ModIsEuclidean(a: int, m: int)
    requires m > 0
    ensures JavaRem(JavaRem(a, m) + m, m) == a % m
  {
    var inner := JavaRem(a, m);
    var x := inner + m;
    assert 0 < x < 2 * m;
    if x >= m {
      EuclidUnique(x, m, 1, x - m);
    } else {
      EuclidUnique(x, m, 0, x);
    }
    if a >= 0 {
      EuclidUnique(a, m, a / m, inner);
    } else {
      var q := (-a) / m;
      var rr := (-a) % m;
      assert -a == m * q + rr;
      if rr == 0 {
        EuclidUnique(a, m, -q, 0);
      } else {
        EuclidUnique(a, m, -q - 1, m - rr);
      }
    }
  }

  /** `i` is the first index among the first `size` entries of `s` holding their minimum. */
  ghost predicate IsFirstMin(s: seq<int>, size: int, i: int)
  {
    && 0 <= i < size <= |s|
    && (forall j | 0 <= j < size :: s[i] <= s[j])
    && (forall j | 0 <= j < i :: s[j] > s[i])
  }

  /** `i` is the first index among the first `size` entries of `s` holding their maximum. */
  ghost predicate IsFirstMax(s: seq<int>, size: int, i: int)
  {
    && 0 <= i < size <= |s|
    && (forall j | 0 <= j < size :: s[i] >= s[j])
    && (forall j | 0 <= j < i :: s[j] < s[i])
  }

  /** Index of the first minimum among `data[0..size)`; 0 when `size < 1`. */
  method ArgMin(data: seq<int>, size: int) returns (index: int)
    requires 1 <= |data| && size <= |data|
    ensures size >= 1 ==> IsFirstMin(data, size, index)
    ensures size < 1 ==> index == 0
  {
    index := 0;
    var min := data[0];
    var i := 1;
    while i < size
      invariant 1 <= i <= (if size < 1 then 1 else size)
      invariant 0 <= index < i && min == data[index]
      invariant forall j | 0 <= j < i :: min <= data[j]
      invariant forall j | 0 <= j < index :: data[j] > min
    {
      if data[i] < min {
        min := data[i];
        index := i;
      }
      i := i + 1;
    }
  }

  /** Index of the first maximum among `data[0..size)`; 0 when `size < 1`. */
  method ArgMax(data: seq<int>, size: int) returns (index: int)
    requires 1 <= |data| && size <= |data|
    ensures size >= 1 ==> IsFirstMax(data, size, index)
    ensures size < 1 ==> index == 0
  {
    index := 0;
    var max := data[0];
    var i := 1;
    while i < size
      invariant 1 <= i <= (if size < 1 then 1 else size)
      invariant 0 <= index < i && max == data[index]
      invariant forall j | 0 <= j < i :: max >= data[j]
      invariant forall j | 0 <= j < index :: data[j] < max
    {
      if data[i] > max {
        max := data[i];
        index := i;
      }
      i := i + 1;
    }
  }

  // Channels of a packed pixel.  For a Java int `p`, `(p >> 16) & 0xFF` is
  // `(p / 65536) % 256` with Dafny's floor division and Euclidean remainder.
  function Red(pixel: int): (c: int)
    ensures 0 <= c < 0x100
  {
    (pixel / 0x1_0000) % 0x100
  }

  function Green(pixel: int): (c: int)
    ensures 0 <= c < 0x100
  {
    (pixel / 0x100) % 0x100
  }

  function Blue(pixel: int): (c: int)
    ensures 0 <= c < 0x100
  {
    pixel % 0x100
  }

  /** The gray level `(3R + 4G + B) / 8` of a packed RGB pixel. */
  function Luma(pixel: int): (g: int)
    ensures 0 <= g <= 255
    ensures 8 * g <= 3 * Red(pixel) + 4 * Green(pixel) + Blue(pixel) < 8 * g + 8
  {
    (3 * Red(pixel) + 4 * Green(pixel) + Blue(pixel)) / 8
  }

  /** Gray version of an image: same dimensions, each cell the luma of its pixel. */
  method Grayscale(image: array2<int>) returns (gray: array2<int>)
    requires image.Length0 >= 1
    ensures fresh(gray)
    ensures gray.Length0 == image.Length0 && gray.Length1 == image.Length1
    ensures forall h, w | 0 <= h < gray.Length0 && 0 <= w < gray.Length1 ::
      gray[h, w] == Luma(image[h, w])
  {
    var height, width := image.Length0, image.Length1;
    gray := new int[height, width];
    var h := 0;
    while h < height
      invariant 0 <= h <= height
      invariant forall i, j | 0 <= i < h && 0 <= j < width :: gray[i, j] == Luma(image[i, j])
    {
      var w := 0;
      while w < width
        invariant 0 <= w <= width
        invariant forall i, j | 0 <= i < h && 0 <= j < width :: gray[i, j] == Luma(image[i, j])
        invariant forall j | 0 <= j < w :: gray[h, j] == Luma(image[h, j])
      {
        var pixel := image[h, w];
        var r := Red(pixel);
        var g := Green(pixel);
        var b := Blue(pixel);
        gray[h, w] := (3 * r + 4 * g + b) / 8;
        w := w + 1;
      }
      h := h + 1;
    }
  }

  /** `x` moved into `[lo, hi]`. */
  function Clamp(x: int, lo: int, hi: int): (r: int)
    requires lo <= hi
    ensures lo <= r <= hi
    ensures lo <= x <= hi ==> r == x
    ensures x < lo ==> r == lo
    ensures x > hi ==> r == hi
  {
    if x < lo then lo else if x > hi then hi else x
  }

  /** Fills row `h` of a padded image from row `src` of the image, replicating its end cells. */
  method PadRow(image: array2<int>, result: array2<int>, pad: int, h: int, src: int)
    requires result != image && pad >= 0 && image.Length1 >= 1
    requires result.Length0 == image.Length0 + 2 * pad && result.Length1 == image.Length1 + 2 * pad
    requires 0 <= h < result.Length0 && 0 <= src < image.Length0
    modifies result
    ensures forall w | 0 <= w < result.Length1 ::
      result[h, w] == image[src, Clamp(w - pad, 0, image.Length1 - 1)]
    ensures forall i, w | 0 <= i < result.Length0 && i != h && 0 <= w < result.Length1 ::
      result[i, w] == old(result[i, w])
  {
    var width := image.Length1;
    var w := 0;
    while w < pad
      invariant 0 <= w <= pad
      invariant forall j | 0 <= j < w :: result[h, j] == image[src, Clamp(j - pad, 0, width - 1)]
      invariant forall i, j | 0 <= i < result.Length0 && i != h && 0 <= j < result.Length1 ::
        result[i, j] == old(result[i, j])
    {
      result[h, w] := image[src, 0];
      w := w + 1;
    }
    while w < width + pad
      invariant pad <= w <= width + pad
      invariant forall j | 0 <= j < w :: result[h, j] == image[src, Clamp(j - pad, 0, width - 1)]
      invariant forall i, j | 0 <= i < result.Length0 && i != h && 0 <= j < result.Length1 ::
        result[i, j] == old(result[i, j])
    {
      result[h, w] := image[src, w - pad];
      w := w + 1;
    }
    while w < width + 2 * pad
      invariant width + pad <= w <= width + 2 * pad
      invariant forall j | 0 <= j < w :: result[h, j] == image[src, Clamp(j - pad, 0, width - 1)]
      invariant forall i, j | 0 <= i < result.Length0 && i != h && 0 <= j < result.Length1 ::
        result[i, j] == old(result[i, j])
    {
      result[h, w] := image[src, width - 1];
      w := w + 1;
    }
  }

  /**
   * The image surrounded by `pad` replicated cells on every side: each cell
   * of the result is the image cell at the clamped coordinate.
   */
  method Pad(image: array2<int>, pad: int) returns (result: array2<int>)
    requires image.Length0 >= 1 && image.Length1 >= 1 && pad >= 0
    ensures fresh(result)
    ensures result.Length0 == image.Length0 + 2 * pad && result.Length1 == image.Length1 + 2 * pad
    ensures forall h, w | 0 <= h < result.Length0 && 0 <= w < result.Length1 ::
      result[h, w] == image[Clamp(h - pad, 0, image.Length0 - 1), Clamp(w - pad, 0, image.Length1 - 1)]
    ensures forall h, w | 0 <= h < image.Length0 && 0 <= w < image.Length1 ::
      result[h + pad, w + pad] == image[h, w]
  {
    var height, width := image.Length0, image.Length1;
    result := new int[height + 2 * pad, width + 2 * pad];
    // Interior rows.
    var h := pad;
    while h < height + pad
      invariant pad <= h <= height + pad
      invariant forall i, w | pad <= i < h && 0 <= w < result.Length1 ::
        result[i, w] == image[Clamp(i - pad, 0, height - 1), Clamp(w - pad, 0, width - 1)]
    {
      PadRow(image, result, pad, h, h - pad);
      h := h + 1;
    }
    // Rows above the image repeat its first row.
    h := 0;
    while h < pad
      invariant 0 <= h <= pad
      invariant forall i, w | (0 <= i < h || pad <= i < height + pad) && 0 <= w < result.Length1 ::
        result[i, w] == image[Clamp(i - pad, 0, height - 1), Clamp(w - pad, 0, width - 1)]
    {
      PadRow(image, result, pad, h, 0);
      h := h + 1;
    }
    // Rows below the image repeat its last row.
    h := height + pad;
    while h < height + 2 * pad
      invariant height + pad <= h <= height + 2 * pad
      invariant forall i, w | 0 <= i < h && 0 <= w < result.Length1 ::
        result[i, w] == image[Clamp(i - pad, 0, height - 1), Clamp(w - pad, 0, width - 1)]
    {
      PadRow(image, result, pad, h, height - 1);
      h := h + 1;
    }
  }

  /** The gray level of the image padded by one replicated cell, at padded coordinate (i, j). */
  ghost function PaddedLuma(image: array2<int>, i: int, j: int): int
    requires image.Length0 >= 1 && image.Length1 >= 1
    reads image
  {
    Luma(image[Clamp(i - 1, 0, image.Length0 - 1), Clamp(j - 1, 0, image.Length1 - 1)])
  }

  /**
   * The horizontal derivative at padded coordinate (h, w), with the terms
   * of the row below exactly as the source writes them: the same cell is
   * added and subtracted.
   */
  ghost function SobelX(image: array2<int>, h: int, w: int): (d: int)
    requires image.Length0 >= 1 && image.Length1 >= 1
    reads image
    ensures -765 <= d <= 765
  {
    PaddedLuma(image, h - 1, w - 1) - PaddedLuma(image, h - 1, w + 1)
    + 2 * PaddedLuma(image, h, w - 1) - 2 * PaddedLuma(image, h, w + 1)
    + PaddedLuma(image, h + 1, w - 1) - PaddedLuma(image, h + 1, w - 1)
  }

  /** The vertical derivative at padded coordinate (h, w). */
  ghost function SobelY(image: array2<int>, h: int, w: int): (d: int)
    requires image.Length0 >= 1 && image.Length1 >= 1
    reads image
    ensures -1020 <= d <= 1020
  {
    PaddedLuma(image, h - 1, w - 1) + 2 * PaddedLuma(image, h - 1, w) + PaddedLuma(image, h - 1, w + 1)
    - PaddedLuma(image, h + 1, w - 1) - 2 * PaddedLuma(image, h + 1, w) - PaddedLuma(image, h + 1, w + 1)
  }

  /** As written, the horizontal derivative never depends on the row below. */
  lemma SobelXIgnoresRowBelow(image: array2<int>, h: int, w: int)
    requires image.Length0 >= 1 && image.Length1 >= 1
    ensures SobelX(image, h, w) ==
      PaddedLuma(image, h - 1, w - 1) - PaddedLuma(image, h - 1, w + 1)
      + 2 * PaddedLuma(image, h, w - 1) - 2 * PaddedLuma(image, h, w + 1)
  {
  }

  /**
   * Gradient energy: `H + 2` rows of which the first `H` hold `W`
   * non-negative values `|sx| + |sy|` over the padded gray image and the
   * last two stay empty.
   */
  method Sobel(image: array2<int>) returns (result: seq<seq<int>>)
    requires image.Length0 >= 1 && image.Length1 >= 1
    ensures |result| == image.Length0 + 2
    ensures result[image.Length0] == [] && result[image.Length0 + 1] == []
    ensures forall h | 0 <= h < image.Length0 :: SobelRow(image, result[h], h)
    ensures forall h | 0 <= h < image.Length0 :: |result[h]| == image.Length1
    ensures forall h, w | 0 <= h < image.Length0 && 0 <= w < image.Length1 :: result[h][w] >= 0
  {
    var height, width := image.Length0 + 2, image.Length1 + 2;
    var lumas := Grayscale(image);
    var gray := Pad(lumas, 1);
    result := seq(height, _ => []);
    var h := 1;
    while h < height - 1
      modifies {}
      invariant 1 <= h <= height - 1 && |result| == height
      invariant forall i | h - 1 <= i < height :: result[i] == []
      invariant forall i | 0 <= i < h - 1 :: |result[i]| == width - 2
      invariant forall i, j | 0 <= i < h - 1 && 0 <= j < width - 2 :: result[i][j] == Gradient(gray, i + 1, j + 1)
    {
      // The values the source appends to `result.get(h - 1)`.
      var row := GradientRow(gray, h);
      result := result[h - 1 := row];
      h := h + 1;
    }
    forall i | 0 <= i < image.Length0 ensures SobelRow(image, result[i], i) {
      GradientRowIsSobelRow(image, lumas, gray, result[i], i);
    }
  }

  /** The gradients of row `h` of a padded gray array, interior columns left to right. */
  method GradientRow(gray: array2<int>, h: int) returns (row: seq<int>)
    requires 1 <= h < gray.Length0 - 1 && gray.Length1 >= 2
    ensures |row| == gray.Length1 - 2
    ensures forall j | 0 <= j < |row| :: row[j] == Gradient(gray, h, j + 1)
  {
    var width := gray.Length1;
    row := [];
    var w := 1;
    while w < width - 1
      invariant 1 <= w <= width - 1 && |row| == w - 1
      invariant forall j | 0 <= j < w - 1 :: row[j] == Gradient(gray, h, j + 1)
    {
      var sx := gray[h - 1, w - 1] -
                gray[h - 1, w + 1] +
                2 * gray[h, w - 1] -
                2 * gray[h, w + 1] +
                gray[h + 1, w - 1] -
                gray[h + 1, w - 1];
      var sy := gray[h - 1, w - 1] +
                2 * gray[h - 1, w] +
                gray[h - 1, w + 1] -
                gray[h + 1, w - 1] -
                2 * gray[h + 1, w] -
                gray[h + 1, w + 1];
      assert Abs(sx) + Abs(sy) == Gradient(gray, h, w);
      row := row + [Abs(sx) + Abs(sy)];
      w := w + 1;
    }
  }

  /** `|sx| + |sy|` at (h, w) of a padded gray array, with `sx` as the source writes it. */
  ghost function Gradient(g: array2<int>, h: int, w: int): (r: int)
    requires 1 <= h < g.Length0 - 1 && 1 <= w < g.Length1 - 1
    reads g
    ensures r >= 0
  {
    Abs(g[h - 1, w - 1] - g[h - 1, w + 1] + 2 * g[h, w - 1] - 2 * g[h, w + 1] + g[h + 1, w - 1] - g[h + 1, w - 1])
    + Abs(g[h - 1, w - 1] + 2 * g[h - 1, w] + g[h - 1, w + 1] - g[h + 1, w - 1] - 2 * g[h + 1, w] - g[h + 1, w + 1])
  }

  lemma GradientRowIsSobelRow(image: array2<int>, lumas: array2<int>, gray: array2<int>, row: seq<int>, i: int)
    requires image.Length0 >= 1 && image.Length1 >= 1
    requires lumas.Length0 == image.Length0 && lumas.Length1 == image.Length1
    requires forall i, j | 0 <= i < lumas.Length0 && 0 <= j < lumas.Length1 :: lumas[i, j] == Luma(image[i, j])
    requires gray.Length0 == image.Length0 + 2 && gray.Length1 == image.Length1 + 2
    requires forall i, j | 0 <= i < gray.Length0 && 0 <= j < gray.Length1 ::
      gray[i, j] == lumas[Clamp(i - 1, 0, lumas.Length0 - 1), Clamp(j - 1, 0, lumas.Length1 - 1)]
    requires 0 <= i < image.Length0 && |row| == image.Length1
    requires forall j | 0 <= j < |row| :: row[j] == Gradient(gray, i + 1, j + 1)
    ensures SobelRow(image, row, i)
  {
    forall j | 0 <= j < image.Length1
      ensures row[j] == Abs(SobelX(image, i + 1, j + 1)) + Abs(SobelY(image, i + 1, j + 1))
    {
      GradientOfPaddedLuma(image, lumas, gray, i + 1, j + 1);
    }
  }

  lemma GradientOfPaddedLuma(image: array2<int>, lumas: array2<int>, gray: array2<int>, h: int, w: int)
    requires image.Length0 >= 1 && image.Length1 >= 1
    requires lumas.Length0 == image.Length0 && lumas.Length1 == image.Length1
    requires forall i, j | 0 <= i < lumas.Length0 && 0 <= j < lumas.Length1 :: lumas[i, j] == Luma(image[i, j])
    requires gray.Length0 == image.Length0 + 2 && gray.Length1 == image.Length1 + 2
    requires forall i, j | 0 <= i < gray.Length0 && 0 <= j < gray.Length1 ::
      gray[i, j] == lumas[Clamp(i - 1, 0, lumas.Length0 - 1), Clamp(j - 1, 0, lumas.Length1 - 1)]
    requires 1 <= h < gray.Length0 - 1 && 1 <= w < gray.Length1 - 1
    ensures Gradient(gray, h, w) == Abs(SobelX(image, h, w)) + Abs(SobelY(image, h, w))
  {
    forall i, j | h - 1 <= i <= h + 1 && w - 1 <= j <= w + 1 ensures gray[i, j] == PaddedLuma(image, i, j) {
    }
  }

  /** Row `i` of the gradient energy: one value `|sx| + |sy|` per image column. */
  ghost predicate SobelRow(image: array2<int>, row: seq<int>, i: int)
    requires image.Length0 >= 1 && image.Length1 >= 1
    reads image
  {
    && |row| == image.Length1
    && forall j | 0 <= j < image.Length1 ::
         row[j] == Abs(SobelX(image, i + 1, j + 1)) + Abs(SobelY(image, i + 1, j + 1))
  }

  /** A rectangular array as its sequence of rows. */
  ghost function Rows(a: array2<int>): (g: seq<seq<int>>)
    reads a
    ensures |g| == a.Length0
    ensures forall i | 0 <= i < a.Length0 :: |g[i]| == a.Length1
    ensures forall i, j | 0 <= i < a.Length0 && 0 <= j < a.Length1 :: g[i][j] == a[i, j]
  {
    seq(a.Length0, i reads a requires 0 <= i < a.Length0 =>
      seq(a.Length1, j reads a requires 0 <= j < a.Length1 => a[i, j]))
  }

  /** The transposed image: `result[j][i] == image[i][j]`. */
  method Transpose(image: array2<int>) returns (result: array2<int>)
    requires image.Length0 >= 1
    ensures fresh(result)
    ensures result.Length0 == image.Length1 && result.Length1 == image.Length0
    ensures forall i, j | 0 <= i < image.Length0 && 0 <= j < image.Length1 :: result[j, i] == image[i, j]
  {
    var height, width := image.Length0, image.Length1;
    var blockSize := 8;
    result := new int[width, height];
    // Walk the 8 x 8 blocks.  The source's row test `i < i + blockSize` always
    // holds, so from each block's first row the row loop runs to the last
    // row of the image: the first band of blocks already writes every cell
    // and the later bands write the same values again.
    var h := 0;
    while h < height
      invariant h >= 0
      invariant h > 0 ==> forall i, j | 0 <= i < height && 0 <= j < width :: result[j, i] == image[i, j]
    {
      var w := 0;
      while w < width
        invariant w >= 0
        invariant forall i, j | 0 <= i < height && 0 <= j < width && (h > 0 || j < w) ::
          result[j, i] == image[i, j]
      {
        var i := h;
        while i < height
          invariant h <= i <= height
          invariant forall i', j | 0 <= i' < height && 0 <= j < width && (h > 0 || j < w || (h <= i' < i && w <= j < w + blockSize)) ::
            result[j, i'] == image[i', j]
        {
          var j := w;
          while j < w + blockSize && j < width
            invariant w <= j <= w + blockSize
            invariant forall i', j' | 0 <= i' < height && 0 <= j' < width && (h > 0 || j' < w || (h <= i' < i && w <= j' < w + blockSize) || (i' == i && w <= j' < j)) ::
              result[j', i'] == image[i', j']
          {
            result[j, i] := image[i, j];
            j := j + 1;
          }
          i := i + 1;
        }
        w := w + blockSize;
      }
      h := h + blockSize;
    }
  }

  /** Every row reversed. */
  function Mirrored(g: seq<seq<int>>): (r: seq<seq<int>>)
    ensures |r| == |g|
    ensures forall i | 0 <= i < |g| :: |r[i]| == |g[i]|
    ensures forall i, j | 0 <= i < |g| && 0 <= j < |g[i]| :: r[i][j] == g[i][|g[i]| - 1 - j]
  {
    seq(|g|, i requires 0 <= i < |g| => seq(|g[i]|, j requires 0 <= j < |g[i]| => g[i][|g[i]| - 1 - j]))
  }

  /** Mirroring twice gives the image back. */
  lemma MirroredTwice(g: seq<seq<int>>)
    ensures Mirrored(Mirrored(g)) == g
  {
    var m := Mirrored(Mirrored(g));
    forall i | 0 <= i < |g| ensures m[i] == g[i] {
      assert |m[i]| == |g[i]|;
      forall j | 0 <= j < |g[i]| ensures m[i][j] == g[i][j] {
        assert m[i][j] == Mirrored(g)[i][|g[i]| - 1 - j];
      }
    }
  }

  /** Reverses every row of the image in place and returns the same array. */
  method Mirror(image: array2<int>) returns (result: array2<int>)
    requires image.Length0 >= 1
    modifies image
    ensures result == image
    ensures Rows(image) == Mirrored(old(Rows(image)))
  {
    var height, width := image.Length0, image.Length1;
    var h := 0;
    while h < height
      invariant 0 <= h <= height
      invariant forall i, j | 0 <= i < h && 0 <= j < width :: image[i, j] == old(image[i, width - 1 - j])
      invariant forall i, j | h <= i < height && 0 <= j < width :: image[i, j] == old(image[i, j])
    {
      var w := 0;
      while w < width / 2
        invariant 0 <= w <= width / 2
        invariant forall i, j | 0 <= i < h && 0 <= j < width :: image[i, j] == old(image[i, width - 1 - j])
        invariant forall i, j | h < i < height && 0 <= j < width :: image[i, j] == old(image[i, j])
        invariant forall j | 0 <= j < w || width - w <= j < width :: image[h, j] == old(image[h, width - 1 - j])
        invariant forall j | w <= j < width - w :: image[h, j] == old(image[h, j])
      {
        var temp := image[h, w];
        image[h, w] := image[h, width - 1 - w];
        image[h, width - 1 - w] := temp;
        w := w + 1;
      }
      h := h + 1;
    }
    result := image;
    ghost var before := old(Rows(image));
    ghost var after := Rows(image);
    assert |after| == |Mirrored(before)|;
    forall i | 0 <= i < height ensures after[i] == Mirrored(before)[i] {
      assert |after[i]| == |Mirrored(before)[i]|;
    }
  }
}
