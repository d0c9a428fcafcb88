/** Changing resolution by a factor of two: `convolveAndDownsample` (blur,
    then keep every second row and column from index 0) and `upsample`
    (spread onto the even coordinates of a zero grid of twice the size, blur,
    and multiply by 4). Downsampling rounds up, upsampling doubles exactly. */
module Sampling {
  import opened Grid
  import opened Kernel
  import opened Convolution

  /** ⌈n/2⌉, the length of `s[::2]` for a sequence of length n. */
  function CeilHalf(n: nat): nat {
    (n + 1) / 2
  }

  /** `s[::2]`: the elements at even indices, in order. */
  function EveryOther<T>(s: seq<T>): (r: seq<T>)
    ensures |r| == CeilHalf(|s|)
    ensures forall k :: 0 <= k < |r| ==> r[k] == s[2 * k]
    decreases |s|
  {
    if |s| <= 1 then s else [s[0]] + EveryOther(s[2..])
  }

  /** `G[::2, ::2]` of the blurred grid `G`. */
  function Downsample(img: Image): (out: Image)
    requires IsRect(img)
    ensures HasShape(out, CeilHalf(Rows(img)), CeilHalf(Cols(img)))
    ensures forall r, c :: 0 <= r < Rows(out) && 0 <= c < Cols(out) ==> out[r][c] == Convolve(img)[2 * r][2 * c]
    ensures Rows(img) >= 1 && Cols(img) >= 1 ==> Rows(out) >= 1 && Cols(out) >= 1
  {
    var g := Convolve(img);
    var kept := EveryOther(g);
    seq(|kept|, r requires 0 <= r < |kept| => EveryOther(kept[r]))
  }

  /** Downsampling a grid of zeros gives zeros. */
  lemma DownsampleZeroGrid(img: Image)
    requires IsRect(img) && IsZeroGrid(img)
    ensures IsZeroGrid(Downsample(img))
  {
    var out := Downsample(img);
    ConvolveZeroGrid(img);
    forall r, c | 0 <= r < |out| && 0 <= c < |out[r]|
      ensures out[r][c] == 0.0
    {
      assert 2 * r < Rows(img) && 2 * c < Cols(img);
      assert out[r][c] == Convolve(img)[2 * r][2 * c];
    }
  }

  /** Away from the border, downsampling a constant grid gives the constant. */
  lemma DownsampleConstantInterior(v: real, rows: nat, cols: nat, r: int, c: int)
    requires 2 <= 2 * r < rows - 2 && 2 <= 2 * c < cols - 2
    ensures IsRect(Constant(v, rows, cols))
    ensures 0 <= r < Rows(Downsample(Constant(v, rows, cols))) && 0 <= c < Cols(Downsample(Constant(v, rows, cols)))
    ensures Downsample(Constant(v, rows, cols))[r][c] == v
  {
    ConvolveConstantInterior(v, rows, cols, 2 * r, 2 * c);
  }

  /** `upsampled[2r, ::2] = row` on a zero row of twice the length: the
      samples land on the even columns and every odd column stays 0. */
  function SpreadRow(row: seq<real>): (out: seq<real>)
    ensures |out| == 2 * |row|
    ensures forall x :: 0 <= x < |out| ==> out[x] == if x % 2 == 0 then row[x / 2] else 0.0
    decreases |row|
  {
    if |row| == 0 then [] else [row[0], 0.0] + SpreadRow(row[1..])
  }

  /** The zero grid of size 2R×2C with every sample `img[r][c]` written at
      `(2r, 2c)`: rows of `img` spread onto the even rows, odd rows all 0. */
  function Interleave(img: Image): (out: Image)
    requires IsRect(img)
    ensures HasShape(out, 2 * Rows(img), 2 * Cols(img))
    ensures forall y, x :: 0 <= y < Rows(out) && 0 <= x < Cols(out) ==>
      out[y][x] == if y % 2 == 0 && x % 2 == 0 then img[y / 2][x / 2] else 0.0
    decreases |img|
  {
    if |img| == 0 then []
    else
      var rest := Interleave(img[1..]);
      assert |img| > 1 ==> Cols(img[1..]) == Cols(img);
      [SpreadRow(img[0]), seq(2 * |img[0]|, x => 0.0)] + rest
  }

  /** `4 * convolve2d(upsampled, guassianFilter, 'same')`: twice the size on
      each axis. What each sample is says `UpsampleInterpolates`. */
  function Upsample(img: Image): (out: Image)
    requires IsRect(img)
    ensures HasShape(out, 2 * Rows(img), 2 * Cols(img))
  {
    Scale(4.0, Convolve(Interleave(img)))
  }

  /** Because the kernel is separable and only the even coordinates of the
      spread grid are non-zero, upsampling is interpolation from the coarse
      samples around `(y/2, x/2)`. */
  lemma UpsampleInterpolates(img: Image)
    requires IsRect(img)
    ensures forall y, x :: 0 <= y < 2 * Rows(img) && 0 <= x < 2 * Cols(img) ==>
      Upsample(img)[y][x] == Interpolate(img, y, x)
  {
    var blurred := Convolve(Interleave(img));
    forall y, x | 0 <= y < 2 * Rows(img) && 0 <= x < 2 * Cols(img)
      ensures Upsample(img)[y][x] == Interpolate(img, y, x)
    {
      assert Upsample(img)[y][x] == 4.0 * blurred[y][x];
      UpsampleAt(img, y, x);
    }
  }

  /** One axis of the interpolation, along coarse row `r` at fine column
      `x`: an even column `2c` weighs coarse columns `c-1`, `c`, `c+1` by
      0.1, 0.8, 0.1, and an odd column `2c+1` averages columns `c` and `c+1`.
      These are the kernel weights at the taps that meet even columns of the
      spread grid, doubled. */
  function RowInterp(img: Image, r: int, x: int): real {
    var c := x / 2;
    if x % 2 == 0 then 0.1 * Sample(img, r, c - 1) + 0.8 * Sample(img, r, c) + 0.1 * Sample(img, r, c + 1)
    else 0.5 * Sample(img, r, c) + 0.5 * Sample(img, r, c + 1)
  }

  /** Separable interpolation of fine sample `(y, x)` from the coarse samples
      around `(y/2, x/2)`, zero outside the grid: the same weights as
      `RowInterp`, applied to rows. */
  function Interpolate(img: Image, y: int, x: int): real {
    var r := y / 2;
    if y % 2 == 0 then 0.1 * RowInterp(img, r - 1, x) + 0.8 * RowInterp(img, r, x) + 0.1 * RowInterp(img, r + 1, x)
    else 0.5 * RowInterp(img, r, x) + 0.5 * RowInterp(img, r + 1, x)
  }

  /** Reading the spread grid: a coarse sample at even coordinates, 0 elsewhere,
      including everywhere outside the grid. */
  lemma SampleInterleave(img: Image, y: int, x: int)
    requires IsRect(img)
    ensures Sample(Interleave(img), y, x) == if y % 2 == 0 && x % 2 == 0 then Sample(img, y / 2, x / 2) else 0.0
  {
  }

  /** The five one-dimensional weights laid along row `y` of a grid, centred at `x`. */
  function LineTaps(img: Image, y: int, x: int): real {
    0.05 * Sample(img, y, x + 2) + 0.25 * Sample(img, y, x + 1) + 0.4 * Sample(img, y, x)
      + 0.25 * Sample(img, y, x - 1) + 0.05 * Sample(img, y, x - 2)
  }

  /** Along a row of the spread grid, the taps meet only the even columns:
      an even row gives half the coarse row interpolation, an odd row nothing. */
  lemma SpreadLineTaps(img: Image, y: int, x: int)
    requires IsRect(img)
    ensures LineTaps(Interleave(img), y, x) == if y % 2 == 0 then 0.5 * RowInterp(img, y / 2, x) else 0.0
  {
    var s := Interleave(img);
    SampleInterleave(img, y, x + 2);
    SampleInterleave(img, y, x + 1);
    SampleInterleave(img, y, x);
    SampleInterleave(img, y, x - 1);
    SampleInterleave(img, y, x - 2);
    CombineTaps(img, y, x, Sample(s, y, x + 2), Sample(s, y, x + 1), Sample(s, y, x),
      Sample(s, y, x - 1), Sample(s, y, x - 2));
  }

  /** Only the even columns of an even row of the spread grid are non-zero,
      and they hold the coarse samples of that row. */
  lemma CombineTaps(img: Image, y: int, x: int, s0: real, s1: real, s2: real, s3: real, s4: real)
    requires s0 == if y % 2 == 0 && (x + 2) % 2 == 0 then Sample(img, y / 2, (x + 2) / 2) else 0.0
    requires s1 == if y % 2 == 0 && (x + 1) % 2 == 0 then Sample(img, y / 2, (x + 1) / 2) else 0.0
    requires s2 == if y % 2 == 0 && x % 2 == 0 then Sample(img, y / 2, x / 2) else 0.0
    requires s3 == if y % 2 == 0 && (x - 1) % 2 == 0 then Sample(img, y / 2, (x - 1) / 2) else 0.0
    requires s4 == if y % 2 == 0 && (x - 2) % 2 == 0 then Sample(img, y / 2, (x - 2) / 2) else 0.0
    ensures 0.05 * s0 + 0.25 * s1 + 0.4 * s2 + 0.25 * s3 + 0.05 * s4
      == if y % 2 == 0 then 0.5 * RowInterp(img, y / 2, x) else 0.0
  {
  }

  /** One upsampled sample is the interpolation of the coarse grid. */
  lemma UpsampleAt(img: Image, y: int, x: int)
    requires IsRect(img)
    ensures 4.0 * ConvolveAt(Interleave(img), y, x) == Interpolate(img, y, x)
  {
    var s := Interleave(img);
    ConvolveAtSeparable(s, y, x);
    SpreadLineTaps(img, y + 2, x);
    SpreadLineTaps(img, y + 1, x);
    SpreadLineTaps(img, y, x);
    SpreadLineTaps(img, y - 1, x);
    SpreadLineTaps(img, y - 2, x);
    CombineLines(img, y, x, LineTaps(s, y + 2, x), LineTaps(s, y + 1, x), LineTaps(s, y, x),
      LineTaps(s, y - 1, x), LineTaps(s, y - 2, x));
  }

  /** Only the rows of the spread grid with even index contribute, and each
      contributes half of its coarse row's interpolation. */
  lemma CombineLines(img: Image, y: int, x: int, t0: real, t1: real, t2: real, t3: real, t4: real)
    requires t0 == if (y + 2) % 2 == 0 then 0.5 * RowInterp(img, (y + 2) / 2, x) else 0.0
    requires t1 == if (y + 1) % 2 == 0 then 0.5 * RowInterp(img, (y + 1) / 2, x) else 0.0
    requires t2 == if y % 2 == 0 then 0.5 * RowInterp(img, y / 2, x) else 0.0
    requires t3 == if (y - 1) % 2 == 0 then 0.5 * RowInterp(img, (y - 1) / 2, x) else 0.0
    requires t4 == if (y - 2) % 2 == 0 then 0.5 * RowInterp(img, (y - 2) / 2, x) else 0.0
    ensures 4.0 * (0.05 * t0 + 0.25 * t1 + 0.4 * t2 + 0.25 * t3 + 0.05 * t4) == Interpolate(img, y, x)
  {
    var r := y / 2;
    if y % 2 == 0 {
      assert (y + 2) / 2 == r + 1 && (y - 2) / 2 == r - 1;
      assert (y + 2) % 2 == 0 && (y - 2) % 2 == 0 && (y + 1) % 2 == 1 && (y - 1) % 2 == 1;
    } else {
      assert (y + 1) / 2 == r + 1 && (y - 1) / 2 == r;
      assert (y + 1) % 2 == 0 && (y - 1) % 2 == 0 && (y + 2) % 2 == 1 && (y - 2) % 2 == 1;
    }
  }

  /** The 5×5 sum is the five one-dimensional row sums weighted by `w`. */
  lemma ConvolveAtSeparable(img: Image, y: int, x: int)
    ensures ConvolveAt(img, y, x) == 0.05 * LineTaps(img, y + 2, x) + 0.25 * LineTaps(img, y + 1, x)
      + 0.4 * LineTaps(img, y, x) + 0.25 * LineTaps(img, y - 1, x) + 0.05 * LineTaps(img, y - 2, x)
  {
  }

  /** Away from the border, upsampling a constant grid gives the constant:
      the interpolation weights sum to one on each axis. */
  lemma UpsampleConstantInterior(v: real, r: nat, c: nat, y: int, x: int)
    requires 2 <= y < 2 * r - 2 && 2 <= x < 2 * c - 2
    ensures IsRect(Constant(v, r, c))
    ensures Upsample(Constant(v, r, c))[y][x] == v
  {
    UpsampleInterpolates(Constant(v, r, c));
    InterpolateConstant(v, r, c, y, x);
  }

  /** The interpolation weights sum to one, so a constant grid interpolates
      to the constant away from its border. */
  lemma InterpolateConstant(v: real, r: nat, c: nat, y: int, x: int)
    requires 2 <= y < 2 * r - 2 && 2 <= x < 2 * c - 2
    ensures Interpolate(Constant(v, r, c), y, x) == v
  {
  }

  /** A zero grid upsamples to a zero grid of twice the size. */
  lemma UpsampleZeros(r: nat, c: nat)
    requires r == 0 ==> c == 0
    ensures IsRect(Zeros(r, c))
    ensures Upsample(Zeros(r, c)) == Zeros(2 * r, 2 * c)
  {
    var z := Zeros(r, c);
    var i := Interleave(z);
    Extensionality(i, Zeros(2 * r, 2 * c));
    ConvolveZeros(2 * r, 2 * c);
    Extensionality(Upsample(z), Zeros(2 * r, 2 * c));
  }

  /** The upsampled next level always covers the finer level it is cropped
      to: 2·⌈R/2⌉ ≥ R on each axis, exceeding it by at most one sample. */
  lemma UpsampleCoversDownsample(img: Image)
    requires IsRect(img)
    ensures Rows(img) <= Rows(Upsample(Downsample(img))) <= Rows(img) + 1
    ensures Cols(img) <= Cols(Upsample(Downsample(img))) <= Cols(img) + 1
  {
  }
}
