/** `scipy.signal.convolve2d(img, guassianFilter, 'same')` with its default
    zero fill: every sample outside the grid reads as 0, and the output is the
    centre of the full convolution, so it has the input's shape. */
module Convolution {
  import opened Grid
  import opened Kernel

  /** The sample at `(i, j)`, or 0 outside the grid (zero fill). */
  function Sample(img: Image, i: int, j: int): real {
    if 0 <= i < |img| && 0 <= j < |img[i]| then img[i][j] else 0.0
  }

  /** Σ_q K[p][q]·img[i+2-p][j+2-q]: the contribution of kernel row `p`. */
  function ConvolveRow(img: Image, i: int, j: int, p: nat): real
    requires p < 5
  {
    var w := GaussianFilter[p];
    var y := i + 2 - p;
    w[0] * Sample(img, y, j + 2) + w[1] * Sample(img, y, j + 1) + w[2] * Sample(img, y, j)
      + w[3] * Sample(img, y, j - 1) + w[4] * Sample(img, y, j - 2)
  }

  /** Output sample `(i, j)` of the "same" convolution: Σ_{p,q} K[p][q]·img[i+2-p][j+2-q]. */
  function ConvolveAt(img: Image, i: int, j: int): real {
    ConvolveRow(img, i, j, 0) + ConvolveRow(img, i, j, 1) + ConvolveRow(img, i, j, 2)
      + ConvolveRow(img, i, j, 3) + ConvolveRow(img, i, j, 4)
  }

  /** The blurred grid. */
  function Convolve(img: Image): (out: Image)
    ensures |out| == |img| && forall i :: 0 <= i < |img| ==> |out[i]| == |img[i]|
    ensures IsRect(img) ==> SameShape(out, img)
  {
    seq(|img|, i requires 0 <= i < |img| => seq(|img[i]|, j => ConvolveAt(img, i, j)))
  }

  /** Σ_b K[a+2][b+2]·img[i+a][j+b] for a row offset `a` in -2..2. */
  function CorrelateRow(img: Image, i: int, j: int, a: int): real
    requires -2 <= a <= 2
  {
    var w := GaussianFilter[a + 2];
    w[0] * Sample(img, i + a, j - 2) + w[1] * Sample(img, i + a, j - 1) + w[2] * Sample(img, i + a, j)
      + w[3] * Sample(img, i + a, j + 1) + w[4] * Sample(img, i + a, j + 2)
  }

  /** The kernel laid over the window centred at `(i, j)` without flipping:
      Σ_{a,b ∈ -2..2} K[a+2][b+2]·img[i+a][j+b]. */
  function CorrelateAt(img: Image, i: int, j: int): real {
    CorrelateRow(img, i, j, -2) + CorrelateRow(img, i, j, -1) + CorrelateRow(img, i, j, 0)
      + CorrelateRow(img, i, j, 1) + CorrelateRow(img, i, j, 2)
  }

  /** Because the kernel is symmetric, the convolution is the unflipped
      weighted window sum around each sample. */
  lemma ConvolveIsCorrelation(img: Image)
    ensures forall i, j :: 0 <= i < |img| && 0 <= j < |img[i]| ==> Convolve(img)[i][j] == CorrelateAt(img, i, j)
  {
    forall i, j | 0 <= i < |img| && 0 <= j < |img[i]|
      ensures Convolve(img)[i][j] == CorrelateAt(img, i, j)
    {
      assert ConvolveRow(img, i, j, 0) == CorrelateRow(img, i, j, 2);
      assert ConvolveRow(img, i, j, 1) == CorrelateRow(img, i, j, 1);
      assert ConvolveRow(img, i, j, 2) == CorrelateRow(img, i, j, 0);
      assert ConvolveRow(img, i, j, 3) == CorrelateRow(img, i, j, -1);
      assert ConvolveRow(img, i, j, 4) == CorrelateRow(img, i, j, -2);
    }
  }

  /** The constant grid of value `v`. */
  function Constant(v: real, r: nat, c: nat): (g: Image)
    ensures |g| == r && forall i :: 0 <= i < r ==> |g[i]| == c
    ensures forall i, j :: 0 <= i < r && 0 <= j < c ==> g[i][j] == v
  {
    seq(r, i => seq(c, j => v))
  }

  /** Away from the border (at least two samples in from every edge) the blur
      leaves a constant grid unchanged, because the weights sum to one. */
  lemma ConvolveConstantInterior(v: real, r: nat, c: nat, i: int, j: int)
    requires 2 <= i < r - 2 && 2 <= j < c - 2
    ensures Convolve(Constant(v, r, c))[i][j] == v
  {
    ConstantRow(v, r, c, i, j, 0);
    ConstantRow(v, r, c, i, j, 1);
    ConstantRow(v, r, c, i, j, 2);
    ConstantRow(v, r, c, i, j, 3);
    ConstantRow(v, r, c, i, j, 4);
    KernelSumIsOne();
  }

  /** Every tap of kernel row `p` reads `v` inside a constant grid. */
  lemma ConstantRow(v: real, r: nat, c: nat, i: int, j: int, p: nat)
    requires 2 <= i < r - 2 && 2 <= j < c - 2 && p < 5
    ensures ConvolveRow(Constant(v, r, c), i, j, p) == RowSum(p) * v
  {
  }

  /** Blurring a grid of zeros, of any shape, gives zeros. */
  lemma ConvolveZeroGrid(img: Image)
    requires IsZeroGrid(img)
    ensures IsZeroGrid(Convolve(img))
  {
    forall i, j | 0 <= i < |img| && 0 <= j < |img[i]|
      ensures Convolve(img)[i][j] == 0.0
    {
      forall p: nat | p < 5
        ensures ConvolveRow(img, i, j, p) == 0.0
      {
      }
    }
  }

  /** Blurring the zero grid gives the zero grid, as a special case of
      `ConvolveZeroGrid`. */
  lemma ConvolveZeros(r: nat, c: nat)
    ensures Convolve(Zeros(r, c)) == Zeros(r, c)
  {
    var z := Zeros(r, c);
    ConvolveZeroGrid(z);
    Extensionality(Convolve(z), z);
  }
}
