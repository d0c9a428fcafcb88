/** Gaussian and Laplacian pyramids and their reconstruction. A pyramid is a
    sequence of grids, index 0 the finest. */
module Pyramid {
  import opened Grid
  import opened Sampling

  function Pow2(k: nat): (p: nat)
    ensures p >= 1
  {
    if k == 0 then 1 else 2 * Pow2(k - 1)
  }

  /** ⌈x/n⌉ for n ≥ 1. */
  function CeilDiv(x: nat, n: nat): nat
    requires n >= 1
  {
    (x + n - 1) / n
  }

  /** Level `k + 1` is the downsampled level `k`. */
  predicate DownsampledAt(g: seq<Image>, k: nat)
    requires k + 1 < |g| && IsRect(g[k])
  {
    g[k + 1] == Downsample(g[k])
  }

  /** `buildGuassianPyramid(img, size)`: `size + 1` levels, the first being
      `img` itself and each further one the downsampled previous level. */
  function GaussianPyramid(img: Image, size: nat): (g: seq<Image>)
    requires IsRect(img)
    ensures |g| == size + 1
    ensures g[0] == img
    ensures forall k :: 0 <= k < |g| ==> IsRect(g[k])
    ensures forall k: nat :: k + 1 < |g| ==> DownsampledAt(g, k)
  {
    if size == 0 then [img]
    else
      var g := GaussianPyramid(img, size - 1);
      var d := Downsample(g[size - 1]);
      DownsampledAppend(g, d);
      g + [d]
  }

  /** Appending the downsampled last level keeps every level the downsampled previous one. */
  lemma DownsampledAppend(g: seq<Image>, d: Image)
    requires |g| >= 1 && forall k :: 0 <= k < |g| ==> IsRect(g[k])
    requires forall k: nat :: k + 1 < |g| ==> DownsampledAt(g, k)
    requires d == Downsample(g[|g| - 1])
    ensures forall k: nat :: k + 1 < |g + [d]| ==> DownsampledAt(g + [d], k)
  {
    var h := g + [d];
    forall k: nat | k + 1 < |h|
      ensures DownsampledAt(h, k)
    {
      if k + 1 < |g| {
        assert DownsampledAt(g, k);
      }
    }
  }

  /** Halving a ceiling quotient once more rounds up the same way as dividing
      by the doubled divisor in one go. */
  lemma CeilHalfOfCeilDiv(x: nat, n: nat)
    requires n >= 1
    ensures CeilHalf(CeilDiv(x, n)) == CeilDiv(x, 2 * n)
  {
    var q := CeilDiv(x, n);
    var rq := x + n - 1 - q * n;
    assert 0 <= rq < n;
    // q·n ≥ x > (q-1)·n
    var p := CeilHalf(q);
    assert 2 * p - 1 <= q <= 2 * p;
    MulMono(q, 2 * p, n);
    MulMono(2 * p - 2, q - 1, n);
    // p·2n ≥ x > (p-1)·2n, which pins down ⌈x/2n⌉
    var m := 2 * n;
    assert x + m - 1 == p * m + (x + m - 1 - p * m);
    DivUnique(x + m - 1, m, p, x + m - 1 - p * m);
  }

  lemma MulMono(a: int, b: int, n: nat)
    requires a <= b
    ensures a * n <= b * n
  {
  }

  lemma DivUnique(a: int, n: nat, q: int, r: int)
    requires n >= 1 && a == q * n + r && 0 <= r < n
    ensures a / n == q
  {
    var q', r' := a / n, a % n;
    assert a == q' * n + r';
    if q' < q {
      MulMono(q' + 1, q, n);
      assert false;
    } else if q < q' {
      MulMono(q + 1, q', n);
      assert false;
    }
  }

  /** Dimension law: level k of the Gaussian pyramid of an R×C grid is
      ⌈R/2^k⌉×⌈C/2^k⌉, so a non-empty grid never shrinks to nothing. */
  lemma {:induction false} GaussianDimensionLaw(img: Image, size: nat)
    requires IsRect(img)
    ensures forall k :: 0 <= k <= size ==>
      HasShape(GaussianPyramid(img, size)[k], CeilDiv(Rows(img), Pow2(k)), CeilDiv(Cols(img), Pow2(k)))
    ensures Rows(img) >= 1 && Cols(img) >= 1 ==>
      forall k :: 0 <= k <= size ==> Rows(GaussianPyramid(img, size)[k]) >= 1 && Cols(GaussianPyramid(img, size)[k]) >= 1
  {
    var g := GaussianPyramid(img, size);
    forall k | 0 <= k <= size
      ensures HasShape(g[k], CeilDiv(Rows(img), Pow2(k)), CeilDiv(Cols(img), Pow2(k)))
      ensures Rows(img) >= 1 ==> Rows(g[k]) >= 1
      ensures Cols(img) >= 1 ==> Cols(g[k]) >= 1
    {
      GaussianLevelShape(img, size, k);
      CeilDivPositive(Rows(img), Pow2(k));
      CeilDivPositive(Cols(img), Pow2(k));
    }
  }

  /** Every level of the Gaussian pyramid of a grid of zeros is zeros. */
  lemma {:induction false} GaussianZeroLevels(img: Image, size: nat, k: nat)
    requires IsRect(img) && IsZeroGrid(img) && k <= size
    ensures IsZeroGrid(GaussianPyramid(img, size)[k])
    decreases k
  {
    var g := GaussianPyramid(img, size);
    if k > 0 {
      GaussianZeroLevels(img, size, k - 1);
      assert DownsampledAt(g, k - 1);
      DownsampleZeroGrid(g[k - 1]);
    }
  }

  lemma {:induction false} GaussianLevelShape(img: Image, size: nat, k: nat)
    requires IsRect(img) && k <= size
    ensures HasShape(GaussianPyramid(img, size)[k], CeilDiv(Rows(img), Pow2(k)), CeilDiv(Cols(img), Pow2(k)))
    decreases k
  {
    var g := GaussianPyramid(img, size);
    if k == 0 {
      CeilDivOne(Rows(img));
      CeilDivOne(Cols(img));
    } else {
      GaussianLevelShape(img, size, k - 1);
      assert DownsampledAt(g, k - 1);
      var n := Pow2(k - 1);
      assert HasShape(g[k], CeilHalf(CeilDiv(Rows(img), n)), CeilHalf(CeilDiv(Cols(img), n)));
      HalvedShape(g[k], Rows(img), Cols(img), n);
    }
  }

  /** A grid of shape ⌈⌈x/n⌉/2⌉×⌈⌈y/n⌉/2⌉ has shape ⌈x/2n⌉×⌈y/2n⌉. */
  lemma HalvedShape(b: Image, x: nat, y: nat, n: nat)
    requires n >= 1
    ensures HasShape(b, CeilHalf(CeilDiv(x, n)), CeilHalf(CeilDiv(y, n))) ==> HasShape(b, CeilDiv(x, 2 * n), CeilDiv(y, 2 * n))
  {
    CeilHalfOfCeilDiv(x, n);
    CeilHalfOfCeilDiv(y, n);
  }

  lemma CeilDivOne(x: nat)
    ensures CeilDiv(x, 1) == x
  {
  }

  lemma CeilDivPositive(x: nat, n: nat)
    requires n >= 1
    ensures x >= 1 ==> CeilDiv(x, n) >= 1
  {
  }

  /** Twice the coarser grid covers the finer one on both axes, so the
      upsampled coarser grid can be cropped to the finer one's shape. */
  predicate Covers(fine: Image, coarse: Image) {
    Rows(fine) <= 2 * Rows(coarse) && Cols(fine) <= 2 * Cols(coarse)
  }

  /** Level `k` is covered by level `k + 1`. */
  predicate CoveredAt(p: seq<Image>, k: nat)
    requires k + 1 < |p|
  {
    Covers(p[k], p[k + 1])
  }

  /** What combining a level with the upsampled next one needs: every level
      is rectangular and covered by the next one. */
  predicate Chained(p: seq<Image>) {
    && (forall k :: 0 <= k < |p| ==> IsRect(p[k]))
    && (forall k: nat :: k + 1 < |p| ==> CoveredAt(p, k))
  }

  /** Level `k` of a chained pyramid is covered by level `k + 1`. */
  lemma ChainedCovers(p: seq<Image>, k: nat)
    requires Chained(p) && k + 1 < |p|
    ensures IsRect(p[k]) && IsRect(p[k + 1]) && Covers(p[k], p[k + 1])
  {
    assert CoveredAt(p, k);
  }

  /** Every suffix of a chained pyramid is chained. */
  lemma ChainedSuffix(p: seq<Image>, i: nat)
    requires Chained(p) && i < |p|
    ensures Chained(p[i..])
  {
    forall k: nat | k + 1 < |p| - i
      ensures CoveredAt(p[i..], k)
    {
      assert CoveredAt(p, k + i);
    }
  }

  /** Levels built by downsampling always fit the crop of the next level's
      upsampling, since 2·⌈n/2⌉ ≥ n. */
  lemma GaussianChained(img: Image, size: nat)
    requires IsRect(img)
    ensures Chained(GaussianPyramid(img, size))
  {
    var g := GaussianPyramid(img, size);
    forall k: nat | k + 1 < |g|
      ensures CoveredAt(g, k)
    {
      assert DownsampledAt(g, k);
    }
  }

  /** Two pyramids whose levels pairwise share their shapes. */
  predicate SameShapes(p: seq<Image>, q: seq<Image>) {
    |p| == |q| && forall k {:trigger p[k]} :: 0 <= k < |p| ==> SameShape(p[k], q[k])
  }

  /** Images of one shape have Gaussian pyramids of the same level shapes,
      and so do the Laplacian pyramids built from them. */
  lemma GaussianSameShapes(a: Image, b: Image, size: nat)
    requires IsRect(b) && SameShape(a, b)
    ensures SameShapes(GaussianPyramid(a, size), GaussianPyramid(b, size))
    ensures Chained(GaussianPyramid(a, size)) && Chained(GaussianPyramid(b, size))
    ensures SameShapes(LaplacianPyramid(GaussianPyramid(a, size)), GaussianPyramid(b, size))
  {
    var ga, gb := GaussianPyramid(a, size), GaussianPyramid(b, size);
    GaussianChained(a, size);
    GaussianChained(b, size);
    var la := LaplacianPyramid(ga);
    forall k | 0 <= k <= size
      ensures SameShape(ga[k], gb[k]) && SameShape(la[k], gb[k])
    {
      GaussianLevelShape(a, size, k);
      GaussianLevelShape(b, size, k);
      assert SameShape(la[k], ga[k]);
    }
  }

  /** Pyramids with the same level shapes are chained alike. */
  lemma ChainedSameShapes(p: seq<Image>, q: seq<Image>)
    requires SameShapes(p, q) && Chained(q)
    ensures Chained(p)
  {
    forall k: nat | k + 1 < |p|
      ensures CoveredAt(p, k)
    {
      assert CoveredAt(q, k);
    }
  }

  /** The band-pass detail of level `i` against level `i + 1`:
      `G - upsample(next)[:r, :c]` with `(r, c)` the shape of `G`. */
  function Detail(g: seq<Image>, i: nat): (d: Image)
    requires Chained(g) && i + 1 < |g|
    ensures Covers(g[i], g[i + 1])
    ensures SameShape(d, g[i])
  {
    ChainedCovers(g, i);
    Sub(g[i], CropTo(Upsample(g[i + 1]), g[i]))
  }

  /** `buildLaplacianPyramid(G)`: every level but the last is the detail
      against the next one; the last is the Gaussian residual unchanged. */
  function LaplacianPyramid(g: seq<Image>): (l: seq<Image>)
    requires |g| >= 1 && Chained(g)
    ensures SameShapes(l, g) && Chained(l)
    ensures l[|l| - 1] == g[|g| - 1]
    ensures forall i: nat :: i + 1 < |g| ==> l[i] == Detail(g, i)
  {
    var l := seq(|g|, i requires 0 <= i < |g| => if i == |g| - 1 then g[i] else Detail(g, i));
    ChainedSameShapes(l, g);
    l
  }

  /** `fine += upsample(coarse)[:r, :c]` with `(r, c)` the shape of `fine`. */
  function Accumulate(fine: Image, coarse: Image): (acc: Image)
    requires IsRect(fine) && IsRect(coarse) && Covers(fine, coarse)
    ensures SameShape(acc, fine)
  {
    Add(fine, CropTo(Upsample(coarse), fine))
  }

  /** One level of the round trip: adding the cropped upsampled next level
      back to the detail of level `i` restores level `i` exactly. */
  lemma DetailAccumulate(g: seq<Image>, i: nat)
    requires Chained(g) && i + 1 < |g|
    ensures IsRect(g[i + 1]) && Covers(g[i], g[i + 1]) && SameShape(Detail(g, i), g[i])
    ensures Accumulate(Detail(g, i), g[i + 1]) == g[i]
  {
    ChainedCovers(g, i);
    AddSubCancel(g[i], CropTo(Upsample(g[i + 1]), g[i]));
  }

  /** Collapsing a pyramid from the coarsest level: the collapse of the
      coarser levels is upsampled, cropped to the finest level's shape and
      added to it. */
  function Collapse(p: seq<Image>): (img: Image)
    requires |p| >= 1 && Chained(p)
    ensures SameShape(img, p[0])
    decreases |p|
  {
    if |p| == 1 then p[0]
    else
      ChainedSuffix(p, 1);
      ChainedCovers(p, 0);
      Accumulate(p[0], Collapse(p[1..]))
  }

  /** `reconstructImageFromPyramid`, in the source's order: from the coarsest
      level down to level 1, level i is upsampled, cropped to level i-1's
      shape and added into level i-1; level 0 is the result. Only the level
      being accumulated into differs from its original value, so `acc`
      stands for `pyramid[i]` after its update. */
  method ReconstructImageFromPyramid(pyramid: seq<Image>) returns (img: Image)
    requires |pyramid| >= 1 && Chained(pyramid)
    ensures img == Collapse(pyramid)
    ensures SameShape(img, pyramid[0])
    ensures |pyramid| == 1 ==> img == pyramid[0]
  {
    var i := |pyramid| - 1;
    var acc := pyramid[i];
    ChainedSuffix(pyramid, i);
    while i > 0
      invariant 0 <= i < |pyramid|
      invariant Chained(pyramid[i..]) && acc == Collapse(pyramid[i..])
      decreases i
    {
      CollapseStep(pyramid, i - 1);
      acc := Accumulate(pyramid[i - 1], acc);
      i := i - 1;
    }
    assert pyramid[0..] == pyramid;
    img := acc;
  }

  /** One step of the collapse: the suffix from level `i` is level `i` plus
      the cropped upsampled collapse of the suffix from level `i + 1`. */
  lemma CollapseStep(p: seq<Image>, i: nat)
    requires Chained(p) && i + 1 < |p|
    ensures Chained(p[i..]) && Chained(p[i + 1..])
    ensures IsRect(p[i]) && Covers(p[i], Collapse(p[i + 1..]))
    ensures Collapse(p[i..]) == Accumulate(p[i], Collapse(p[i + 1..]))
  {
    ChainedSuffix(p, i);
    ChainedSuffix(p, i + 1);
    ChainedCovers(p, i);
    assert p[i..][1..] == p[i + 1..];
  }

  /** The Laplacian pyramid of the coarser levels is the tail of the
      Laplacian pyramid. */
  lemma LaplacianTail(g: seq<Image>)
    requires |g| >= 2 && Chained(g)
    ensures Chained(g[1..])
    ensures LaplacianPyramid(g)[1..] == LaplacianPyramid(g[1..])
  {
    ChainedSuffix(g, 1);
    var l, t := LaplacianPyramid(g), LaplacianPyramid(g[1..]);
    forall i | 0 <= i < |t|
      ensures l[1..][i] == t[i]
    {
      if i + 1 < |t| {
        DetailShift(g, i);
        assert l[i + 1] == Detail(g, i + 1);
        assert t[i] == Detail(g[1..], i);
      } else {
        assert t[i] == g[1..][i] == g[i + 1];
      }
    }
    assert |l[1..]| == |t|;
  }

  /** Dropping the finest level shifts the details down by one index. */
  lemma DetailShift(g: seq<Image>, i: nat)
    requires Chained(g) && i + 2 < |g|
    ensures Chained(g[1..])
    ensures Detail(g[1..], i) == Detail(g, i + 1)
  {
    ChainedSuffix(g, 1);
    assert g[1..][i] == g[i + 1] && g[1..][i + 1] == g[i + 2];
  }

  /** Round trip: collapsing the Laplacian pyramid of a chained pyramid gives
      back its finest level exactly; a one-level pyramid is its own
      Laplacian pyramid. */
  lemma {:induction false} ReconstructLaplacian(g: seq<Image>)
    requires |g| >= 1 && Chained(g)
    ensures Collapse(LaplacianPyramid(g)) == g[0]
    ensures |g| == 1 ==> LaplacianPyramid(g) == g
    decreases |g|
  {
    var l := LaplacianPyramid(g);
    if |g| == 1 {
      assert l == g;
    } else {
      LaplacianTail(g);
      ReconstructLaplacian(g[1..]);
      ChainedSuffix(l, 1);
      assert Collapse(l[1..]) == g[1];
      assert l[0] == Detail(g, 0);
      DetailAccumulate(g, 0);
    }
  }

  /** Round trip from an image: the Gaussian pyramid of any depth, turned
      into a Laplacian pyramid and collapsed, is the image again. */
  lemma ReconstructGaussianLaplacian(img: Image, size: nat)
    requires IsRect(img)
    ensures Chained(GaussianPyramid(img, size))
    ensures Collapse(LaplacianPyramid(GaussianPyramid(img, size))) == img
  {
    GaussianChained(img, size);
    ReconstructLaplacian(GaussianPyramid(img, size));
  }

  /** `p` with its coarsest level replaced by zeros of the same shape. */
  function BlackResidual(p: seq<Image>): (q: seq<Image>)
    requires |p| >= 1 && Chained(p)
    ensures SameShapes(q, p) && Chained(q)
    ensures q[..|p| - 1] == p[..|p| - 1]
    ensures q[|p| - 1] == Zeros(Rows(p[|p| - 1]), Cols(p[|p| - 1]))
  {
    var last := p[|p| - 1];
    AddZeros(last);
    var q := p[..|p| - 1] + [Zeros(Rows(last), Cols(last))];
    ChainedSameShapes(q, p);
    q
  }

  /** Dropping the coarsest level before collapsing is the same as collapsing
      with that level set to zero. */
  lemma {:induction false} CollapseDropsResidual(p: seq<Image>)
    requires |p| >= 2 && Chained(p)
    ensures Chained(p[..|p| - 1])
    ensures Collapse(p[..|p| - 1]) == Collapse(BlackResidual(p))
    decreases |p|
  {
    var n := |p|;
    ChainedPrefix(p, n - 1);
    if n == 2 {
      DropResidualBase(p);
    } else {
      ChainedSuffix(p, 1);
      CollapseDropsResidual(p[1..]);
      DropResidualStep(p);
    }
  }

  /** The inductive step: if dropping the residual of the coarser levels
      agrees with zeroing it, the same holds one level finer. */
  lemma DropResidualStep(p: seq<Image>)
    requires |p| >= 3 && Chained(p) && Chained(p[1..]) && Chained(p[1..][..|p| - 2])
    requires Collapse(p[1..][..|p| - 2]) == Collapse(BlackResidual(p[1..]))
    ensures Chained(p[..|p| - 1])
    ensures Collapse(p[..|p| - 1]) == Collapse(BlackResidual(p))
  {
    var n := |p|;
    var a, q := p[..n - 1], BlackResidual(p);
    ChainedPrefix(p, n - 1);
    BlackResidualTail(p);
    PrefixTail(p, n - 1);
    BlackResidualHead(p);
    ChainedSuffix(a, 1);
    ChainedSuffix(q, 1);
    CollapseHeadTail(a, q);
  }

  /** Dropping the last level and dropping the first commute. */
  lemma PrefixTail<T>(p: seq<T>, n: nat)
    requires 1 <= n <= |p|
    ensures p[..n][1..] == p[1..][..n - 1]
  {
  }

  /** Zeroing the residual of two or more levels keeps the finest level. */
  lemma BlackResidualHead(p: seq<Image>)
    requires |p| >= 2 && Chained(p)
    ensures BlackResidual(p)[0] == p[0]
  {
    var q := BlackResidual(p);
    assert q[..|p| - 1][0] == q[0];
  }

  /** Two pyramids with the same finest level whose coarser levels collapse
      alike collapse alike. */
  lemma CollapseHeadTail(a: seq<Image>, q: seq<Image>)
    requires |a| >= 2 && |q| >= 2 && Chained(a) && Chained(q) && a[0] == q[0]
    requires Chained(a[1..]) && Chained(q[1..]) && Collapse(a[1..]) == Collapse(q[1..])
    ensures Collapse(a) == Collapse(q)
  {
  }

  /** Zeroing the residual commutes with dropping the finest level. */
  lemma BlackResidualTail(p: seq<Image>)
    requires |p| >= 2 && Chained(p)
    ensures Chained(p[1..])
    ensures BlackResidual(p[1..]) == BlackResidual(p)[1..]
  {
    ChainedSuffix(p, 1);
    var q, t := BlackResidual(p), BlackResidual(p[1..]);
    assert |t| == |q[1..]|;
    forall k | 0 <= k < |t|
      ensures t[k] == q[1..][k]
    {
      if k + 1 < |t| {
        assert t[k] == t[..|t| - 1][k] && q[k + 1] == q[..|p| - 1][k + 1];
      }
    }
  }

  /** Two levels: adding the cropped upsampled zero grid to level 0 leaves it unchanged. */
  lemma DropResidualBase(p: seq<Image>)
    requires |p| == 2 && Chained(p)
    ensures Chained(p[..1])
    ensures Collapse(p[..1]) == Collapse(BlackResidual(p))
  {
    ChainedPrefix(p, 1);
    ChainedCovers(p, 0);
    var q := BlackResidual(p);
    var last := p[1];
    var z := Zeros(Rows(last), Cols(last));
    UpsampleZeros(Rows(last), Cols(last));
    assert q[1..] == [z];
    CropZeros(2 * Rows(last), 2 * Cols(last), p[0]);
    AddZeros(p[0]);
  }

  /** Every prefix of a chained pyramid is chained. */
  lemma ChainedPrefix(p: seq<Image>, n: nat)
    requires Chained(p) && n <= |p|
    ensures Chained(p[..n])
  {
    forall k: nat | k + 1 < n
      ensures CoveredAt(p[..n], k)
    {
      assert CoveredAt(p, k);
    }
  }
}
