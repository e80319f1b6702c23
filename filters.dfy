/**
 * The bitmap filters: `grayscale`, `reflect` and `blur` rewrite an image of
 * RGB triples in place. The image is a `height` x `width` array whose
 * dimensions are the array's own; every channel is a byte.
 *
 * Every quotient the filters round is a small non-negative integer sum
 * divided by a small positive count (3 for grayscale, 1 to 9 for blur), so
 * the floating-point `round(s / n)` of the program is modelled exactly by the
 * integer round-half-up RoundDiv(s, n).
 */
module Filters {

  newtype byte = x: int | 0 <= x < 256

  /** One pixel, in the field order of the bitmap format: blue, green, red. */
  datatype RgbTriple = RgbTriple(blue: byte, green: byte, red: byte)

  datatype Channel = Blue | Green | Red

  function Get(p: RgbTriple, ch: Channel): byte
  {
    match ch
    case Blue => p.blue
    case Green => p.green
    case Red => p.red
  }

  /** `s / n` rounded to the nearest integer, halves rounded up. */
  function RoundDiv(s: nat, n: nat): nat
    requires n >= 1
  {
    (2 * s + n) / (2 * n)
  }

  /** The rounded quotient is within half of `s / n`: below by at most a half, above by less. */
  lemma RoundDivIsNearest(s: nat, n: nat)
    requires n >= 1
    ensures 2 * n * RoundDiv(s, n) - n <= 2 * s < 2 * n * RoundDiv(s, n) + n
  {
  }

  lemma {:induction false} MulMono(k: nat, a: int, b: int)
    requires a <= b
    ensures k * a <= k * b
  {
    if k > 0 {
      MulMono(k - 1, a, b);
      assert k * a == (k - 1) * a + a;
      assert k * b == (k - 1) * b + b;
    }
  }

  /** Multiplying by a positive factor keeps strict order, in both directions. */
  lemma MulLess(k: nat, a: int, b: int)
    requires k > 0
    ensures a < b <==> k * a < k * b
  {
    if a < b {
      MulMono(k, a + 1, b);
    } else {
      MulMono(k, b, a);
    }
  }

  lemma MulStep(c: nat, a: int)
    ensures (c + 1) * a == c * a + a
  {
  }

  lemma Double(n: int, a: int)
    ensures (2 * n) * a == 2 * (n * a)
  {
  }

  /** Floor division is at least any `lo` with `d * lo <= x`. */
  lemma DivAtLeast(x: nat, d: nat, lo: int)
    requires d > 0 && d * lo <= x
    ensures lo <= x / d
  {
    var q := x / d;
    assert d * (q + 1) == d * q + d;
    MulLess(d, lo, q + 1);
  }

  /** Floor division is at most any `hi` with `x < d * hi + d`. */
  lemma DivAtMost(x: nat, d: nat, hi: int)
    requires d > 0 && x < d * hi + d
    ensures x / d <= hi
  {
    var q := x / d;
    assert d * (hi + 1) == d * hi + d;
    MulLess(d, q, hi + 1);
  }

  /** A rounded average of `n` values in `lo .. hi` stays in `lo .. hi`. */
  lemma RoundDivBetween(s: nat, n: nat, lo: int, hi: int)
    requires n >= 1 && n * lo <= s <= n * hi
    ensures lo <= RoundDiv(s, n) <= hi
  {
    Double(n, lo);
    Double(n, hi);
    DivAtLeast(2 * s + n, 2 * n, lo);
    DivAtMost(2 * s + n, 2 * n, hi);
  }

  /** Conversely, an integer within half of `s / n` (a half below included) is the rounded quotient. */
  lemma RoundDivNearest(s: nat, n: nat, q: int)
    requires n >= 1
    requires 2 * n * q - n <= 2 * s < 2 * n * q + n
    ensures RoundDiv(s, n) == q
  {
    var r := RoundDiv(s, n);
    RoundDivIsNearest(s, n);
    MulLess(2 * n, r, q + 1);
    MulLess(2 * n, q, r + 1);
  }

  // ---------------------------------------------------------------------
  // Images as values
  // ---------------------------------------------------------------------

  /** `g` has `h` rows of `w` pixels. */
  ghost predicate Rect(g: seq<seq<RgbTriple>>, h: nat, w: nat)
  {
    |g| == h && forall r :: 0 <= r < h ==> |g[r]| == w
  }

  /** The pixels of `image` as a sequence of rows. */
  ghost function Grid(image: array2<RgbTriple>): (g: seq<seq<RgbTriple>>)
    reads image
    ensures Rect(g, image.Length0, image.Length1)
    ensures forall r, c :: 0 <= r < image.Length0 && 0 <= c < image.Length1 ==> g[r][c] == image[r, c]
  {
    seq(image.Length0, r reads image requires 0 <= r < image.Length0 =>
      seq(image.Length1, c reads image requires 0 <= c < image.Length1 => image[r, c]))
  }

  // ---------------------------------------------------------------------
  // grayscale
  // ---------------------------------------------------------------------

  /** A grayscale pixel: all three channels set to the rounded mean of the old ones. */
  function Gray(p: RgbTriple): (q: RgbTriple)
    ensures q.red == q.green == q.blue
  {
    var s := p.red as nat + p.green as nat + p.blue as nat;
    RoundDivBetween(s, 3, 0, 255);
    var avg := RoundDiv(s, 3) as byte;
    RgbTriple(avg, avg, avg)
  }

  function Min3(a: byte, b: byte, c: byte): byte
  {
    if a <= b && a <= c then a else if b <= c then b else c
  }

  function Max3(a: byte, b: byte, c: byte): byte
  {
    if a >= b && a >= c then a else if b >= c then b else c
  }

  /**
   * The gray value is the nearest integer to the mean of the three channels
   * (a mean ending in .5 goes up), and lies between the smallest and the
   * largest of them.
   */
  lemma GrayIsMean(p: RgbTriple)
    ensures var v, s := Gray(p).red as int, p.red as int + p.green as int + p.blue as int;
            6 * v - 3 <= 2 * s < 6 * v + 3
    ensures Min3(p.red, p.green, p.blue) <= Gray(p).red <= Max3(p.red, p.green, p.blue)
  {
    var s := p.red as nat + p.green as nat + p.blue as nat;
    RoundDivIsNearest(s, 3);
    RoundDivBetween(s, 3, Min3(p.red, p.green, p.blue) as int, Max3(p.red, p.green, p.blue) as int);
  }

  /** A pixel that is already gray is left as it is. */
  lemma GrayIdempotent(p: RgbTriple)
    ensures Gray(Gray(p)) == Gray(p)
  {
    var v := Gray(p).red as int;
    RoundDivNearest(3 * v, 3, v);
  }

  /** `grayscale`: every pixel becomes Gray of itself. */
  method Grayscale(image: array2<RgbTriple>)
    modifies image
    ensures forall r, c :: 0 <= r < image.Length0 && 0 <= c < image.Length1 ==>
              image[r, c] == Gray(old(image[r, c]))
  {
    for i := 0 to image.Length0
      invariant forall r, c :: 0 <= r < image.Length0 && 0 <= c < image.Length1 ==>
                  image[r, c] == if r < i then Gray(old(image[r, c])) else old(image[r, c])
    {
      for j := 0 to image.Length1
        invariant forall r, c :: 0 <= r < image.Length0 && 0 <= c < image.Length1 ==>
                    image[r, c] == if r < i || (r == i && c < j) then Gray(old(image[r, c])) else old(image[r, c])
      {
        var red := image[i, j].red as int;
        var green := image[i, j].green as int;
        var blue := image[i, j].blue as int;
        RoundDivBetween(red + green + blue, 3, 0, 255);
        var average := RoundDiv(red + green + blue, 3) as byte;
        image[i, j] := RgbTriple(average, average, average);
      }
    }
  }

  // ---------------------------------------------------------------------
  // reflect
  // ---------------------------------------------------------------------

  /** The image mirrored left to right: column `c` shows old column `w - 1 - c`. */
  ghost function Mirror(g: seq<seq<RgbTriple>>): (m: seq<seq<RgbTriple>>)
    ensures |m| == |g|
    ensures forall r :: 0 <= r < |g| ==> |m[r]| == |g[r]|
    ensures forall r, c :: 0 <= r < |g| && 0 <= c < |g[r]| ==> m[r][c] == g[r][|g[r]| - 1 - c]
  {
    seq(|g|, r requires 0 <= r < |g| =>
      seq(|g[r]|, c requires 0 <= c < |g[r]| => g[r][|g[r]| - 1 - c]))
  }

  /** Reflecting twice restores the image. */
  lemma {:induction false} MirrorInvolution(g: seq<seq<RgbTriple>>)
    ensures Mirror(Mirror(g)) == g
  {
    var m := Mirror(Mirror(g));
    forall r | 0 <= r < |g| ensures m[r] == g[r] {
      assert |m[r]| == |g[r]|;
      forall c | 0 <= c < |g[r]| ensures m[r][c] == g[r][c] {
        assert m[r][c] == Mirror(g)[r][|g[r]| - 1 - c];
      }
    }
  }

  /** In a row of odd width the middle column does not move. */
  lemma MirrorMiddle(g: seq<seq<RgbTriple>>, r: nat)
    requires r < |g| && |g[r]| % 2 == 1
    ensures Mirror(g)[r][|g[r]| / 2] == g[r][|g[r]| / 2]
  {
  }

  /** `reflect`: each row is reversed by swapping columns `j` and `width - 1 - j` for `j < width / 2`. */
  method Reflect(image: array2<RgbTriple>)
    modifies image
    ensures forall r, c :: 0 <= r < image.Length0 && 0 <= c < image.Length1 ==>
              image[r, c] == old(image[r, image.Length1 - 1 - c])
    ensures Grid(image) == Mirror(old(Grid(image)))
  {
    ghost var g := Grid(image);
    var width := image.Length1;
    for i := 0 to image.Length0
      invariant forall r, c {:trigger image[r, c]} :: 0 <= r < image.Length0 && 0 <= c < width ==>
                  image[r, c] == if r < i then g[r][width - 1 - c] else g[r][c]
    {
      ReflectRow(image, i, g[i]);
    }
    assert Grid(image) == Mirror(g) by {
      var m := Mirror(g);
      forall r | 0 <= r < image.Length0 ensures Grid(image)[r] == m[r] {
        assert |Grid(image)[r]| == |m[r]|;
      }
    }
  }

  /** The swap loop of `reflect` for row `i`, whose pixels are `row`; no other row changes. */
  method ReflectRow(image: array2<RgbTriple>, i: nat, ghost row: seq<RgbTriple>)
    requires i < image.Length0 && |row| == image.Length1
    requires forall c :: 0 <= c < image.Length1 ==> image[i, c] == row[c]
    modifies image
    ensures forall c :: 0 <= c < image.Length1 ==> image[i, c] == row[image.Length1 - 1 - c]
    ensures forall r, c :: 0 <= r < image.Length0 && 0 <= c < image.Length1 && r != i ==>
              image[r, c] == old(image[r, c])
  {
    var width := image.Length1;
    for j := 0 to width / 2
      invariant forall r, c :: 0 <= r < image.Length0 && 0 <= c < width && r != i ==>
                  image[r, c] == old(image[r, c])
      invariant forall c {:trigger image[i, c]} :: 0 <= c < width ==>
                  image[i, c] == if c < j || width - 1 - j < c then row[width - 1 - c] else row[c]
    {
      var temp := image[i, j];
      image[i, j] := image[i, width - 1 - j];
      image[i, width - 1 - j] := temp;
    }
  }

  // ---------------------------------------------------------------------
  // blur
  // ---------------------------------------------------------------------

  /** The `m`-th of the nine neighbour offsets, in the loop order of `blur` (row offset outer). */
  function Offset(m: nat): (int, int)
    requires m < 9
  {
    var k := if m < 3 then -1 else if m < 6 then 0 else 1;
    (k, m - 3 * (k + 1) - 1)
  }

  lemma OffsetAt(k: int, l: int)
    requires -1 <= k <= 1 && -1 <= l <= 1
    ensures Offset(3 * (k + 1) + (l + 1)) == (k, l)
  {
  }

  predicate Inside(h: nat, w: nat, r: int, c: int)
  {
    0 <= r < h && 0 <= c < w
  }

  /** The three running channel sums of `blur` and the number of pixels added to them. */
  datatype Sums = Sums(red: nat, green: nat, blue: nat, count: nat)

  function Sum(s: Sums, ch: Channel): nat
  {
    match ch
    case Blue => s.blue
    case Green => s.green
    case Red => s.red
  }

  function Add(s: Sums, p: RgbTriple): (t: Sums)
    ensures t.count == s.count + 1
    ensures forall ch :: Sum(t, ch) == Sum(s, ch) + Get(p, ch) as nat
  {
    Sums(s.red + p.red as nat, s.green + p.green as nat, s.blue + p.blue as nat, s.count + 1)
  }

  /** The sums over those of the first `n` neighbours of `(i, j)` that lie inside the image `g`. */
  ghost function Window(g: seq<seq<RgbTriple>>, h: nat, w: nat, i: int, j: int, n: nat): (s: Sums)
    requires Rect(g, h, w) && n <= 9
    ensures s.count <= n
  {
    if n == 0 then Sums(0, 0, 0, 0)
    else
      var s := Window(g, h, w, i, j, n - 1);
      var (dr, dc) := Offset(n - 1);
      if Inside(h, w, i + dr, j + dc) then Add(s, g[i + dr][j + dc]) else s
  }

  lemma {:induction false} WindowCountFrom(g: seq<seq<RgbTriple>>, h: nat, w: nat, i: int, j: int, m: nat, n: nat)
    requires Rect(g, h, w) && m <= n <= 9
    ensures Window(g, h, w, i, j, m).count <= Window(g, h, w, i, j, n).count
    decreases n - m
  {
    if m < n {
      WindowCountFrom(g, h, w, i, j, m, n - 1);
    }
  }

  /** The centre is always inside, so a pixel's neighbourhood counts 1 to 9 pixels. */
  lemma WindowCountBounds(g: seq<seq<RgbTriple>>, h: nat, w: nat, i: nat, j: nat)
    requires Rect(g, h, w) && i < h && j < w
    ensures 1 <= Window(g, h, w, i, j, 9).count <= 9
  {
    assert Offset(4) == (0, 0);
    WindowCountFrom(g, h, w, i, j, 5, 9);
  }

  /**
   * When every inside neighbour among the first `n` has channel `ch` in
   * `lo .. hi`, the sum lies between `lo` and `hi` times the count.
   */
  lemma {:induction false} WindowSumBetween(g: seq<seq<RgbTriple>>, h: nat, w: nat, i: int, j: int, n: nat,
                                             ch: Channel, lo: int, hi: int)
    requires Rect(g, h, w) && n <= 9
    requires forall m :: 0 <= m < n && Inside(h, w, i + Offset(m).0, j + Offset(m).1) ==>
               lo <= Get(g[i + Offset(m).0][j + Offset(m).1], ch) as int <= hi
    ensures var s := Window(g, h, w, i, j, n); s.count * lo <= Sum(s, ch) <= s.count * hi
  {
    if n > 0 {
      WindowSumBetween(g, h, w, i, j, n - 1, ch, lo, hi);
      var s := Window(g, h, w, i, j, n - 1);
      var (dr, dc) := Offset(n - 1);
      if Inside(h, w, i + dr, j + dc) {
        var p := g[i + dr][j + dc];
        assert lo <= Get(p, ch) as int <= hi;
        assert Window(g, h, w, i, j, n) == Add(s, p);
        MulStep(s.count, lo);
        MulStep(s.count, hi);
      }
    }
  }

  /** The rounded mean of a neighbourhood's channel values is again a channel value. */
  lemma WindowMeanInRange(g: seq<seq<RgbTriple>>, h: nat, w: nat, i: nat, j: nat, ch: Channel)
    requires Rect(g, h, w) && i < h && j < w
    ensures var s := Window(g, h, w, i, j, 9); 1 <= s.count && RoundDiv(Sum(s, ch), s.count) < 256
  {
    var s := Window(g, h, w, i, j, 9);
    WindowCountBounds(g, h, w, i, j);
    WindowSumBetween(g, h, w, i, j, 9, ch, 0, 255);
    RoundDivBetween(Sum(s, ch), s.count, 0, 255);
  }

  /** One channel of a blurred pixel: the rounded mean over the inside neighbours. */
  ghost function BlurChannel(g: seq<seq<RgbTriple>>, h: nat, w: nat, i: nat, j: nat, ch: Channel): byte
    requires Rect(g, h, w) && i < h && j < w
  {
    WindowMeanInRange(g, h, w, i, j, ch);
    var s := Window(g, h, w, i, j, 9);
    RoundDiv(Sum(s, ch), s.count) as byte
  }

  /** The pixel `blur` writes at `(i, j)` of an image whose original pixels are `g`. */
  ghost function Blurred(g: seq<seq<RgbTriple>>, h: nat, w: nat, i: nat, j: nat): (p: RgbTriple)
    requires Rect(g, h, w) && i < h && j < w
    ensures forall ch :: Get(p, ch) == BlurChannel(g, h, w, i, j, ch)
    ensures var s := Window(g, h, w, i, j, 9);
            forall ch :: 2 * s.count * Get(p, ch) as int - s.count <= 2 * Sum(s, ch) < 2 * s.count * Get(p, ch) as int + s.count
  {
    var s := Window(g, h, w, i, j, 9);
    WindowCountBounds(g, h, w, i, j);
    RoundDivIsNearest(Sum(s, Blue), s.count);
    RoundDivIsNearest(Sum(s, Green), s.count);
    RoundDivIsNearest(Sum(s, Red), s.count);
    RgbTriple(BlurChannel(g, h, w, i, j, Blue), BlurChannel(g, h, w, i, j, Green), BlurChannel(g, h, w, i, j, Red))
  }

  /**
   * Each blurred channel lies between the smallest and the largest value of
   * that channel in the pixel's neighbourhood.
   */
  lemma BlurBetween(g: seq<seq<RgbTriple>>, h: nat, w: nat, i: nat, j: nat, ch: Channel, lo: int, hi: int)
    requires Rect(g, h, w) && i < h && j < w
    requires forall m :: 0 <= m < 9 && Inside(h, w, i + Offset(m).0, j + Offset(m).1) ==>
               lo <= Get(g[i + Offset(m).0][j + Offset(m).1], ch) as int <= hi
    ensures lo <= Get(Blurred(g, h, w, i, j), ch) as int <= hi
  {
    var s := Window(g, h, w, i, j, 9);
    WindowCountBounds(g, h, w, i, j);
    WindowSumBetween(g, h, w, i, j, 9, ch, lo, hi);
    RoundDivBetween(Sum(s, ch), s.count, lo, hi);
  }

  /** A uniformly coloured image is left as it is. */
  lemma BlurUniform(g: seq<seq<RgbTriple>>, h: nat, w: nat, i: nat, j: nat, p: RgbTriple)
    requires Rect(g, h, w) && i < h && j < w
    requires forall r, c :: 0 <= r < h && 0 <= c < w ==> g[r][c] == p
    ensures Blurred(g, h, w, i, j) == p
  {
    forall ch ensures Get(Blurred(g, h, w, i, j), ch) == Get(p, ch) {
      BlurBetween(g, h, w, i, j, ch, Get(p, ch) as int, Get(p, ch) as int);
    }
  }

  /**
   * `blur`: every pixel becomes the rounded mean of its in-bounds 3x3
   * neighbourhood, read from an untouched copy of the original image.
   */
  method Blur(image: array2<RgbTriple>)
    modifies image
    ensures forall r, c :: 0 <= r < image.Length0 && 0 <= c < image.Length1 ==>
              image[r, c] == Blurred(old(Grid(image)), image.Length0, image.Length1, r, c)
  {
    ghost var g := Grid(image);
    var height, width := image.Length0, image.Length1;
    var temp := new RgbTriple[height, width];
    for i := 0 to height
      modifies temp
      invariant forall r, c :: 0 <= r < i && 0 <= c < width ==> temp[r, c] == g[r][c]
    {
      for j := 0 to width
        modifies temp
        invariant forall r, c :: 0 <= r < height && 0 <= c < width && (r < i || (r == i && c < j)) ==>
                    temp[r, c] == g[r][c]
      {
        temp[i, j] := image[i, j];
      }
    }
    for i := 0 to height
      modifies image
      invariant forall r, c :: 0 <= r < height && 0 <= c < width ==> temp[r, c] == g[r][c]
      invariant forall r, c :: 0 <= r < i && 0 <= c < width ==> image[r, c] == Blurred(g, height, width, r, c)
    {
      for j := 0 to width
        modifies image
        invariant forall r, c :: 0 <= r < height && 0 <= c < width && (r < i || (r == i && c < j)) ==>
                    image[r, c] == Blurred(g, height, width, r, c)
      {
        var pixel := BlurAt(temp, i, j, g);
        image[i, j] := pixel;
      }
    }
  }

  /** The neighbourhood loops of `blur` for pixel `(i, j)`, reading the copy `temp`. */
  method BlurAt(temp: array2<RgbTriple>, i: nat, j: nat, ghost g: seq<seq<RgbTriple>>) returns (pixel: RgbTriple)
    requires i < temp.Length0 && j < temp.Length1 && Rect(g, temp.Length0, temp.Length1)
    requires forall r, c :: 0 <= r < temp.Length0 && 0 <= c < temp.Length1 ==> temp[r, c] == g[r][c]
    ensures pixel == Blurred(g, temp.Length0, temp.Length1, i, j)
  {
    var height, width := temp.Length0, temp.Length1;
    var sumRed: nat, sumGreen: nat, sumBlue: nat, count: nat := 0, 0, 0, 0;
    for k := -1 to 2
      invariant Sums(sumRed, sumGreen, sumBlue, count) == Window(g, height, width, i, j, 3 * (k + 1))
    {
      for l := -1 to 2
        invariant Sums(sumRed, sumGreen, sumBlue, count) == Window(g, height, width, i, j, 3 * (k + 1) + (l + 1))
      {
        OffsetAt(k, l);
        var newI, newJ := i + k, j + l;
        if newI >= 0 && newI < height && newJ >= 0 && newJ < width {
          sumRed := sumRed + temp[newI, newJ].red as nat;
          sumGreen := sumGreen + temp[newI, newJ].green as nat;
          sumBlue := sumBlue + temp[newI, newJ].blue as nat;
          count := count + 1;
        }
      }
    }
    WindowMeanInRange(g, height, width, i, j, Red);
    WindowMeanInRange(g, height, width, i, j, Green);
    WindowMeanInRange(g, height, width, i, j, Blue);
    pixel := RgbTriple(RoundDiv(sumBlue, count) as byte, RoundDiv(sumGreen, count) as byte,
                       RoundDiv(sumRed, count) as byte);
  }
}
