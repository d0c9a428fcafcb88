/** `imBlend`: blend the Laplacian pyramids of source and target level by
    level, weighted by the Gaussian pyramid of the mask, reconstruct and clip;
    and `dummyPlace`, the hard-mask reference it is compared against. */
module Blend {
  import opened Grid
  import opened Pyramid
  import Convolution
  import Sampling

  /** Reconstruction indexes `pyramid[0]` of the blended pyramid, which is
      empty when no level was blended. */
  datatype BlendError = NoBlendedLevel

  datatype Result<T> = Success(value: T) | Failure(error: BlendError)

  /** `np.clip(x, 0, 1)` on one sample. */
  function ClipSample(x: real): (y: real)
    ensures 0.0 <= y <= 1.0
    ensures 0.0 <= x <= 1.0 <==> y == x
    ensures x < 0.0 ==> y == 0.0
    ensures x > 1.0 ==> y == 1.0
  {
    if x < 0.0 then 0.0 else if x > 1.0 then 1.0 else x
  }

  /** Every sample lies in the valid intensity range [0, 1]. */
  predicate InUnitRange(img: Image) {
    forall i, j :: 0 <= i < |img| && 0 <= j < |img[i]| ==> 0.0 <= img[i][j] <= 1.0
  }

  /** `np.clip(img, 0, 1)`. */
  function Clip(img: Image): (out: Image)
    requires IsRect(img)
    ensures SameShape(out, img) && InUnitRange(out)
    ensures forall i, j :: 0 <= i < Rows(img) && 0 <= j < Cols(img) ==> out[i][j] == ClipSample(img[i][j])
  {
    seq(|img|, i requires 0 <= i < |img| => seq(|img[i]|, j requires 0 <= j < |img[i]| => ClipSample(img[i][j])))
  }

  /** Clipping changes nothing exactly when every sample is already in range. */
  lemma ClipIdentity(img: Image)
    requires IsRect(img)
    ensures Clip(img) == img <==> InUnitRange(img)
  {
    if InUnitRange(img) {
      Extensionality(Clip(img), img);
    }
  }

  /** `m*s + (1.-m)*t` on three arrays of the same shape. */
  function BlendLevel(m: Image, s: Image, t: Image): (b: Image)
    requires SameShape(m, s) && SameShape(m, t)
    ensures SameShape(b, m)
    ensures forall i, j :: 0 <= i < Rows(m) && 0 <= j < Cols(m) ==>
      b[i][j] == m[i][j] * s[i][j] + (1.0 - m[i][j]) * t[i][j]
  {
    seq(|m|, i requires 0 <= i < |m| =>
      seq(|m[i]|, j requires 0 <= j < |m[i]| => m[i][j] * s[i][j] + (1.0 - m[i][j]) * t[i][j]))
  }

  /** Blending a level with itself gives it back, whatever the mask. */
  lemma BlendSame(m: Image, s: Image)
    requires SameShape(m, s)
    ensures BlendLevel(m, s, s) == s
  {
    Extensionality(BlendLevel(m, s, s), s);
  }

  /** An all-ones mask selects the source level and an all-zeros mask the target level. */
  lemma BlendExtremes(s: Image, t: Image)
    requires SameShape(s, t)
    ensures SameShape(Convolution.Constant(1.0, Rows(s), Cols(s)), s) && SameShape(Zeros(Rows(s), Cols(s)), s)
    ensures BlendLevel(Convolution.Constant(1.0, Rows(s), Cols(s)), s, t) == s
    ensures BlendLevel(Zeros(Rows(s), Cols(s)), s, t) == t
  {
    var one, zero := Convolution.Constant(1.0, Rows(s), Cols(s)), Zeros(Rows(s), Cols(s));
    Extensionality(BlendLevel(one, s, t), s);
    Extensionality(BlendLevel(zero, s, t), t);
  }

  /** The inputs `imBlend` works on: source, mask and target of one shape. */
  predicate BlendInputs(src: Image, mask: Image, target: Image) {
    IsRect(src) && SameShape(mask, src) && SameShape(target, src)
  }

  /** Level-by-level blend of three pyramids of matching shapes. */
  function BlendPyramids(gm: seq<Image>, ls: seq<Image>, lt: seq<Image>): (b: seq<Image>)
    requires |ls| == |gm| && |lt| == |gm|
    requires forall i :: 0 <= i < |gm| ==> SameShape(gm[i], ls[i]) && SameShape(gm[i], lt[i])
    ensures |b| == |gm|
    ensures forall i :: 0 <= i < |gm| ==> b[i] == BlendLevel(gm[i], ls[i], lt[i])
  {
    seq(|gm|, i requires 0 <= i < |gm| => BlendLevel(gm[i], ls[i], lt[i]))
  }

  /** All `size + 1` blended levels: level i of the mask's Gaussian pyramid
      weighs level i of the source's Laplacian pyramid against the target's. */
  function BlendedLevels(src: Image, mask: Image, target: Image, size: nat): (b: seq<Image>)
    requires BlendInputs(src, mask, target)
    ensures Chained(GaussianPyramid(src, size)) && Chained(GaussianPyramid(target, size))
    ensures |b| == size + 1
    ensures forall i :: 0 <= i <= size ==>
      && SameShape(GaussianPyramid(mask, size)[i], LaplacianPyramid(GaussianPyramid(src, size))[i])
      && SameShape(GaussianPyramid(mask, size)[i], LaplacianPyramid(GaussianPyramid(target, size))[i])
      && b[i] == BlendLevel(GaussianPyramid(mask, size)[i],
                            LaplacianPyramid(GaussianPyramid(src, size))[i],
                            LaplacianPyramid(GaussianPyramid(target, size))[i])
  {
    PyramidShapes(src, mask, target, size);
    BlendPyramids(GaussianPyramid(mask, size), LaplacianPyramid(GaussianPyramid(src, size)),
      LaplacianPyramid(GaussianPyramid(target, size)))
  }

  /** The blended levels have the shapes of the source's Gaussian pyramid,
      so they can be collapsed. */
  lemma BlendedLevelsChained(src: Image, mask: Image, target: Image, size: nat)
    requires BlendInputs(src, mask, target)
    ensures SameShapes(BlendedLevels(src, mask, target, size), GaussianPyramid(src, size))
    ensures Chained(BlendedLevels(src, mask, target, size))
  {
    var b, gs, gm := BlendedLevels(src, mask, target, size), GaussianPyramid(src, size), GaussianPyramid(mask, size);
    PyramidShapes(src, mask, target, size);
    forall i | 0 <= i <= size
      ensures SameShape(b[i], gs[i])
    {
      assert SameShape(b[i], gm[i]);
    }
    ChainedSameShapes(b, gs);
  }

  /** The three pyramids `imBlend` combines agree in shape level by level. */
  lemma PyramidShapes(src: Image, mask: Image, target: Image, size: nat)
    requires BlendInputs(src, mask, target)
    ensures Chained(GaussianPyramid(src, size)) && Chained(GaussianPyramid(target, size))
    ensures forall i :: 0 <= i <= size ==>
      && SameShape(GaussianPyramid(mask, size)[i], GaussianPyramid(src, size)[i])
      && SameShape(GaussianPyramid(mask, size)[i], LaplacianPyramid(GaussianPyramid(src, size))[i])
      && SameShape(GaussianPyramid(mask, size)[i], LaplacianPyramid(GaussianPyramid(target, size))[i])
  {
    GaussianSameShapes(src, src, size);
    GaussianSameShapes(mask, src, size);
    GaussianSameShapes(target, src, size);
  }

  /** `imBlend(src, mask, target, size)` as written: only the levels
      `0 .. size-1` are blended (`range(size)`), so the coarsest residual is
      left out of the reconstruction, and with no level at all the
      reconstruction has no level 0 to return. */
  function ImBlend(src: Image, mask: Image, target: Image, size: int): (r: Result<Image>)
    requires BlendInputs(src, mask, target)
    ensures r.Failure? <==> size <= 0
    ensures r.Success? ==> SameShape(r.value, src) && InUnitRange(r.value)
  {
    if size <= 0 then Failure(NoBlendedLevel)
    else
      var levels := BlendedLevels(src, mask, target, size);
      BlendedLevelsChained(src, mask, target, size);
      ChainedPrefix(levels, size);
      Success(Clip(Collapse(levels[..size])))
  }

  /** What the source computes, stated independently of `range(size)`: the
      output is the full reconstruction of the blended pyramid with its
      coarsest (residual) level set to zero. */
  lemma ImBlendDropsResidual(src: Image, mask: Image, target: Image, size: int)
    requires BlendInputs(src, mask, target) && size > 0
    ensures Chained(BlendedLevels(src, mask, target, size))
    ensures ImBlend(src, mask, target, size) ==
      Success(Clip(Collapse(BlackResidual(BlendedLevels(src, mask, target, size)))))
  {
    BlendedLevelsChained(src, mask, target, size);
    CollapseDropsResidual(BlendedLevels(src, mask, target, size));
  }

  /** The blend with every level, residual included: `range(size + 1)`. */
  function ImBlendWithResidual(src: Image, mask: Image, target: Image, size: nat): (out: Image)
    requires BlendInputs(src, mask, target)
    ensures SameShape(out, src) && InUnitRange(out)
  {
    BlendedLevelsChained(src, mask, target, size);
    Clip(Collapse(BlendedLevels(src, mask, target, size)))
  }

  /** With the residual kept, blending an image with itself gives the image
      back at every depth, clipped to [0, 1]; an image already in range is
      returned exactly. */
  lemma ImBlendWithResidualSameInputs(img: Image, mask: Image, size: nat)
    requires BlendInputs(img, mask, img)
    ensures ImBlendWithResidual(img, mask, img, size) == Clip(img)
    ensures InUnitRange(img) ==> ImBlendWithResidual(img, mask, img, size) == img
  {
    var b := BlendedLevels(img, mask, img, size);
    var g := GaussianPyramid(img, size);
    GaussianChained(img, size);
    var l := LaplacianPyramid(g);
    forall i | 0 <= i <= size
      ensures b[i] == l[i]
    {
      BlendSame(GaussianPyramid(mask, size)[i], l[i]);
    }
    assert b == l;
    ReconstructGaussianLaplacian(img, size);
    ClipIdentity(img);
  }

  /** A mask level of zeros selects the target level. */
  lemma BlendZeroMask(m: Image, s: Image, t: Image)
    requires SameShape(m, s) && SameShape(m, t) && IsZeroGrid(m)
    ensures BlendLevel(m, s, t) == t
  {
    Extensionality(BlendLevel(m, s, t), t);
  }

  /** Under a mask of zeros every Gaussian mask level is zeros, so every
      blended level is the target's Laplacian level. */
  lemma ZeroMaskBlendedLevels(src: Image, mask: Image, target: Image, size: nat)
    requires BlendInputs(src, mask, target) && IsZeroGrid(mask)
    ensures Chained(GaussianPyramid(target, size))
    ensures BlendedLevels(src, mask, target, size) == LaplacianPyramid(GaussianPyramid(target, size))
  {
    var b := BlendedLevels(src, mask, target, size);
    var gm := GaussianPyramid(mask, size);
    var lt := LaplacianPyramid(GaussianPyramid(target, size));
    forall i | 0 <= i <= size
      ensures b[i] == lt[i]
    {
      GaussianZeroLevels(mask, size, i);
      BlendZeroMask(gm[i], LaplacianPyramid(GaussianPyramid(src, size))[i], lt[i]);
    }
    assert |b| == |lt|;
  }

  /** With the residual kept, a mask of zeros returns the target at every
      depth, clipped to [0, 1]; a target already in range is returned exactly. */
  lemma ImBlendWithResidualZeroMask(src: Image, mask: Image, target: Image, size: nat)
    requires BlendInputs(src, mask, target) && IsZeroGrid(mask)
    ensures ImBlendWithResidual(src, mask, target, size) == Clip(target)
    ensures InUnitRange(target) ==> ImBlendWithResidual(src, mask, target, size) == target
  {
    ZeroMaskBlendedLevels(src, mask, target, size);
    ReconstructGaussianLaplacian(target, size);
    ClipIdentity(target);
  }

  /** `imBlend` as written with a mask of zeros: the clipped collapse of the
      target's Laplacian pyramid with its residual level zeroed, which in
      general differs from the target (`ImBlendZeroMaskExample`). */
  lemma ImBlendZeroMask(src: Image, mask: Image, target: Image, size: int)
    requires BlendInputs(src, mask, target) && IsZeroGrid(mask) && size > 0
    ensures Chained(GaussianPyramid(target, size)) && Chained(LaplacianPyramid(GaussianPyramid(target, size)))
    ensures ImBlend(src, mask, target, size) ==
      Success(Clip(Collapse(BlackResidual(LaplacianPyramid(GaussianPyramid(target, size))))))
  {
    ZeroMaskBlendedLevels(src, mask, target, size);
    ImBlendDropsResidual(src, mask, target, size);
  }
  /** `imBlend` as written with a zero mask on the one-sample white target
      at depth 1: whatever the source, the output is [[0.8976]], not the
      target [[1.0]]. */
  lemma ImBlendZeroMaskExample(a: real)
    ensures BlendInputs([[a]], [[0.0]], [[1.0]])
    ensures ImBlend([[a]], [[0.0]], [[1.0]], 1) == Success([[0.8976]])
  {
    ImBlendZeroMask([[a]], [[0.0]], [[1.0]], 1);
    ExampleLaplacian(1.0);
    var l := LaplacianPyramid(GaussianPyramid([[1.0]], 1));
    CollapseDropsResidual(l);
    ChainedPrefix(l, 1);
    ClipSingle(0.8976);
  }


  /** With the residual kept, depth 0 is the direct per-sample blend. */
  lemma ImBlendWithResidualDepthZero(src: Image, mask: Image, target: Image)
    requires BlendInputs(src, mask, target)
    ensures ImBlendWithResidual(src, mask, target, 0) == Clip(BlendLevel(mask, src, target))
  {
  }

  /** The depth-1 Gaussian pyramid of a one-sample image: only the kernel's
      centre weight 0.16 meets a non-zero sample. */
  lemma ExampleGaussian(a: real)
    ensures IsRect([[a]])
    ensures GaussianPyramid([[a]], 1) == [[[a]], [[0.16 * a]]]
  {
    var img: Image := [[a]];
    assert IsRect(img);
    var g := GaussianPyramid(img, 1);
    assert DownsampledAt(g, 0);
    var coarse := g[1];
    assert coarse[0][0] == 0.16 * a by {
      assert coarse[0][0] == Convolution.ConvolveAt(img, 0, 0);
    }
    Extensionality(coarse, [[0.16 * a]]);
  }

  /** The corner sample of an upsampled one-sample level: only the centre
      weight meets a non-zero sample on each axis, 0.8 · 0.8 · v. */
  lemma ExampleUpsample(v: real)
    ensures IsRect([[v]])
    ensures Sampling.Upsample([[v]])[0][0] == 0.64 * v
  {
    Sampling.UpsampleInterpolates([[v]]);
  }

  /** The depth-1 Laplacian pyramid of a one-sample image: the detail
      a − 0.64 · 0.16 · a and the coarse level 0.16 · a. */
  lemma ExampleLaplacian(a: real)
    ensures IsRect([[a]]) && Chained(GaussianPyramid([[a]], 1))
    ensures LaplacianPyramid(GaussianPyramid([[a]], 1)) == [[[0.8976 * a]], [[0.16 * a]]]
  {
    var img: Image := [[a]];
    ExampleGaussian(a);
    ExampleUpsample(0.16 * a);
    var g := GaussianPyramid(img, 1);
    GaussianChained(img, 1);
    var coarse: Image := [[0.16 * a]];
    assert g[0] == img && g[1] == coarse;
    var l := LaplacianPyramid(g);
    var crop := CropTo(Sampling.Upsample(coarse), img);
    assert crop[0][0] == 0.1024 * a;
    assert l[0] == Sub(img, crop);
    assert l[0][0][0] == 0.8976 * a;
    Extensionality(l[0], [[0.8976 * a]]);
    assert l == [[[0.8976 * a]], coarse];
  }

  /** The finest blended level of the one-sample white image at depth 1. */
  lemma ExampleBlended()
    ensures BlendInputs([[1.0]], [[1.0]], [[1.0]])
    ensures BlendedLevels([[1.0]], [[1.0]], [[1.0]], 1)[0] == [[0.8976]]
  {
    var one: Image := [[1.0]];
    assert IsRect(one);
    ExampleLaplacian(1.0);
    var l0: Image := [[0.8976]];
    var b := BlendedLevels(one, one, one, 1);
    assert GaussianPyramid(one, 1)[0] == one;
    assert b[0] == BlendLevel(one, l0, l0);
    BlendSame(one, l0);
  }

  /** A one-sample white image blended with itself at depth 1 comes back as
      0.8976 instead of 1.0, while the blend that keeps the residual returns
      it unchanged. */
  lemma ImBlendResidualExample()
    ensures BlendInputs([[1.0]], [[1.0]], [[1.0]])
    ensures ImBlend([[1.0]], [[1.0]], [[1.0]], 1) == Success([[0.8976]])
    ensures ImBlendWithResidual([[1.0]], [[1.0]], [[1.0]], 1) == [[1.0]]
  {
    ImBlendExample();
    var one: Image := [[1.0]];
    assert InUnitRange(one);
    ImBlendWithResidualSameInputs(one, one, 1);
  }

  /** An all-ones mask does not reproduce the source even with the residual
      kept: under zero fill the mask's coarse level is 0.16, not 1, so a
      one-sample source of intensity `a` blended into a black target comes
      back scaled by 0.913984 (for a = 1, as [[0.913984]]). */
  lemma ImBlendAllOnesMaskExample(a: real)
    ensures BlendInputs([[a]], [[1.0]], [[0.0]])
    ensures ImBlendWithResidual([[a]], [[1.0]], [[0.0]], 1) == [[ClipSample(0.913984 * a)]]
    ensures 0.0 <= a <= 1.0 ==> ImBlendWithResidual([[a]], [[1.0]], [[0.0]], 1) == [[0.913984 * a]]
    ensures a == 1.0 ==> ImBlendWithResidual([[a]], [[1.0]], [[0.0]], 1) == [[0.913984]]
  {
    // Named values rather than literal images, so that the verifier does
    // not evaluate the pyramids of [[1.0]] and [[0.0]] eagerly.
    var m, t := 1.0, 0.0;
    AllOnesMaskSingle(a, m, t);
  }

  /** `ImBlendWithResidualSingle` for a white mask `m` and a black target `t`. */
  lemma AllOnesMaskSingle(a: real, m: real, t: real)
    requires m == 1.0 && t == 0.0
    ensures BlendInputs([[a]], [[m]], [[t]])
    ensures ImBlendWithResidual([[a]], [[m]], [[t]], 1) == [[ClipSample(0.913984 * a)]]
  {
    assert 0.913984 * a == (m * (0.8976 * a) + (1.0 - m) * (0.8976 * t))
      + 0.64 * ((0.16 * m) * (0.16 * a) + (1.0 - 0.16 * m) * (0.16 * t));
    ImBlendWithResidualSingle(a, m, t, 0.913984 * a);
  }

  /** The blend with the residual of one-sample inputs at depth 1: source
      `a`, mask `m`, target `t`. Level 0 blends the details 0.8976 · a and
      0.8976 · t under `m`, level 1 the coarse levels 0.16 · a and 0.16 · t
      under 0.16 · m, and the collapse adds 0.64 times level 1 to level 0. */
  lemma ImBlendWithResidualSingle(a: real, m: real, t: real, v: real)
    requires v == (m * (0.8976 * a) + (1.0 - m) * (0.8976 * t))
      + 0.64 * ((0.16 * m) * (0.16 * a) + (1.0 - 0.16 * m) * (0.16 * t))
    ensures BlendInputs([[a]], [[m]], [[t]])
    ensures ImBlendWithResidual([[a]], [[m]], [[t]], 1) == [[ClipSample(v)]]
  {
    ExampleBlendedSingle(a, m, t);
    BlendCollapseSingle(a, m, t, v);
    ClipSingle(v);
  }

  /** The blended one-sample pyramids of `ImBlendWithResidualSingle` collapse to `v`. */
  lemma BlendCollapseSingle(a: real, m: real, t: real, v: real)
    requires v == (m * (0.8976 * a) + (1.0 - m) * (0.8976 * t))
      + 0.64 * ((0.16 * m) * (0.16 * a) + (1.0 - 0.16 * m) * (0.16 * t))
    ensures Chained(BlendPyramids([[[m]], [[0.16 * m]]], [[[0.8976 * a]], [[0.16 * a]]], [[[0.8976 * t]], [[0.16 * t]]]))
    ensures Collapse(BlendPyramids([[[m]], [[0.16 * m]]], [[[0.8976 * a]], [[0.16 * a]]], [[[0.8976 * t]], [[0.16 * t]]]))
      == [[v]]
  {
    var x := m * (0.8976 * a) + (1.0 - m) * (0.8976 * t);
    var y := (0.16 * m) * (0.16 * a) + (1.0 - 0.16 * m) * (0.16 * t);
    var b := BlendPyramids([[[m]], [[0.16 * m]]], [[[0.8976 * a]], [[0.16 * a]]], [[[0.8976 * t]], [[0.16 * t]]]);
    assert b == [[[x]], [[y]]] by {
      BlendTwoSingle(m, 0.16 * m, 0.8976 * a, 0.16 * a, 0.8976 * t, 0.16 * t, x, y);
    }
    CollapseSingle(x, y, v);
  }

  /** The three depth-1 pyramids behind `ImBlendWithResidualSingle`. */
  lemma ExampleBlendedSingle(a: real, m: real, t: real)
    ensures BlendInputs([[a]], [[m]], [[t]])
    ensures BlendedLevels([[a]], [[m]], [[t]], 1)
      == BlendPyramids([[[m]], [[0.16 * m]]], [[[0.8976 * a]], [[0.16 * a]]], [[[0.8976 * t]], [[0.16 * t]]])
  {
    ExampleGaussian(m);
    ExampleLaplacian(a);
    ExampleLaplacian(t);
    BlendedLevelsOf([[a]], [[m]], [[t]], 1);
  }

  /** The definition of `BlendedLevels` as a lemma, together with the shape
      facts it needs: callers about concrete images use it instead of
      unfolding `BlendedLevels`, which keeps the solver's work small. */
  lemma BlendedLevelsOf(src: Image, mask: Image, target: Image, size: nat)
    requires BlendInputs(src, mask, target)
    ensures Chained(GaussianPyramid(src, size)) && Chained(GaussianPyramid(target, size))
    ensures |GaussianPyramid(mask, size)| == |LaplacianPyramid(GaussianPyramid(src, size))|
      == |LaplacianPyramid(GaussianPyramid(target, size))|
    ensures forall i :: 0 <= i < |GaussianPyramid(mask, size)| ==>
      && SameShape(GaussianPyramid(mask, size)[i], LaplacianPyramid(GaussianPyramid(src, size))[i])
      && SameShape(GaussianPyramid(mask, size)[i], LaplacianPyramid(GaussianPyramid(target, size))[i])
    ensures BlendedLevels(src, mask, target, size) == BlendPyramids(GaussianPyramid(mask, size),
      LaplacianPyramid(GaussianPyramid(src, size)), LaplacianPyramid(GaussianPyramid(target, size)))
  {
    PyramidShapes(src, mask, target, size);
  }

  /** Blending three one-sample levels. */
  lemma BlendSingle(m: real, s: real, t: real)
    ensures BlendLevel([[m]], [[s]], [[t]]) == [[m * s + (1.0 - m) * t]]
  {
    Extensionality(BlendLevel([[m]], [[s]], [[t]]), [[m * s + (1.0 - m) * t]]);
  }

  /** Blending two-level pyramids of one-sample levels, level by level. */
  lemma BlendTwoSingle(m0: real, m1: real, s0: real, s1: real, t0: real, t1: real, v0: real, v1: real)
    requires v0 == m0 * s0 + (1.0 - m0) * t0 && v1 == m1 * s1 + (1.0 - m1) * t1
    ensures BlendPyramids([[[m0]], [[m1]]], [[[s0]], [[s1]]], [[[t0]], [[t1]]]) == [[[v0]], [[v1]]]
  {
    var b := BlendPyramids([[[m0]], [[m1]]], [[[s0]], [[s1]]], [[[t0]], [[t1]]]);
    BlendSingle(m0, s0, t0);
    BlendSingle(m1, s1, t1);
    assert b[0] == BlendLevel([[m0]], [[s0]], [[t0]]);
    assert b[1] == BlendLevel([[m1]], [[s1]], [[t1]]);
  }

  /** Collapsing two one-sample levels gives x + 0.64 · y. */
  lemma CollapseSingle(x: real, y: real, v: real)
    requires v == x + 0.64 * y
    ensures Chained([[[x]], [[y]]])
    ensures Collapse([[[x]], [[y]]]) == [[v]]
  {
    var fine, coarse: Image := [[x]], [[y]];
    var p := [fine, coarse];
    assert CoveredAt(p, 0);
    assert Chained(p);
    ExampleUpsample(y);
    assert p[1..] == [coarse];
    assert Collapse(p[1..]) == coarse;
    var out := Collapse(p);
    assert out == Accumulate(fine, coarse);
    assert out[0][0] == v;
    Extensionality(out, [[v]]);
  }

  /** Clipping a one-sample image clips its sample. */
  lemma ClipSingle(v: real)
    ensures Clip([[v]]) == [[ClipSample(v)]]
  {
    assert IsRect([[v]]);
    Extensionality(Clip([[v]]), [[ClipSample(v)]]);
  }

  /** `imBlend` as written on the one-sample white image at depth 1: only
      the finest blended level is collapsed. */
  lemma ImBlendExample()
    ensures BlendInputs([[1.0]], [[1.0]], [[1.0]])
    ensures ImBlend([[1.0]], [[1.0]], [[1.0]], 1) == Success([[0.8976]])
  {
    var one: Image := [[1.0]];
    var l0: Image := [[0.8976]];
    ExampleBlended();
    var b := BlendedLevels(one, one, one, 1);
    BlendedLevelsChained(one, one, one, 1);
    assert b[..1] == [l0];
    ChainedPrefix(b, 1);
    assert Collapse(b[..1]) == l0;
    assert Clip(l0) == l0 by {
      assert IsRect(l0) && InUnitRange(l0);
      ClipIdentity(l0);
    }
  }

  /** `dummyPlace`: the source sample where the mask exceeds 0.5, the target
      sample elsewhere. */
  function DummyPlace(src: Image, mask: Image, target: Image): (out: Image)
    requires BlendInputs(src, mask, target)
    ensures SameShape(out, src)
    ensures forall i, j :: 0 <= i < Rows(src) && 0 <= j < Cols(src) ==>
      out[i][j] == if mask[i][j] > 0.5 then src[i][j] else target[i][j]
  {
    seq(|src|, i requires 0 <= i < |src| =>
      seq(|src[i]|, j requires 0 <= j < |src[i]| => if mask[i][j] > 0.5 then src[i][j] else target[i][j]))
  }

  /** Every mask sample is exactly 0 or 1. */
  predicate IsBinary(mask: Image) {
    forall i, j :: 0 <= i < |mask| && 0 <= j < |mask[i]| ==> mask[i][j] == 0.0 || mask[i][j] == 1.0
  }

  /** For a mask of zeros and ones the hard selection is the weighted blend;
      for any other mask it is the blend of the thresholded mask. */
  lemma DummyPlaceIsHardBlend(src: Image, mask: Image, target: Image)
    requires BlendInputs(src, mask, target)
    ensures IsBinary(mask) ==> DummyPlace(src, mask, target) == BlendLevel(mask, src, target)
    ensures SameShape(Threshold(mask), src)
    ensures DummyPlace(src, mask, target) == BlendLevel(Threshold(mask), src, target)
  {
    Extensionality(DummyPlace(src, mask, target), BlendLevel(Threshold(mask), src, target));
    if IsBinary(mask) {
      Extensionality(DummyPlace(src, mask, target), BlendLevel(mask, src, target));
    }
  }

  /** `np.where(mask > 0.5, 1, 0)`. */
  function Threshold(mask: Image): (bin: Image)
    requires IsRect(mask)
    ensures SameShape(bin, mask) && IsBinary(bin)
    ensures forall i, j :: 0 <= i < Rows(mask) && 0 <= j < Cols(mask) ==>
      (bin[i][j] == 1.0 <==> mask[i][j] > 0.5)
  {
    seq(|mask|, i requires 0 <= i < |mask| =>
      seq(|mask[i]|, j requires 0 <= j < |mask[i]| => if mask[i][j] > 0.5 then 1.0 else 0.0))
  }
}
