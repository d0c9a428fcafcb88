/** Single-channel sample grids and the elementwise operations the pipeline
    applies to them: numpy's `+`, `-`, scalar `*`, top-left slicing and the
    zero array. Samples are exact reals; a grid is a sequence of rows. */
module Grid {

  type Image = seq<seq<real>>

  function Rows(img: Image): nat {
    |img|
  }

  /** Width of the grid; a grid without rows has no columns either. */
  function Cols(img: Image): nat {
    if |img| == 0 then 0 else |img[0]|
  }

  /** Every row has the width of the first one. */
  predicate IsRect(img: Image) {
    forall i :: 0 <= i < |img| ==> |img[i]| == Cols(img)
  }

  predicate HasShape(img: Image, r: nat, c: nat) {
    IsRect(img) && Rows(img) == r && Cols(img) == c
  }

  predicate SameShape(a: Image, b: Image) {
    HasShape(a, Rows(b), Cols(b)) && IsRect(b)
  }

  /** Two grids of the same shape that agree sample by sample are equal. */
  lemma Extensionality(a: Image, b: Image)
    requires SameShape(a, b)
    requires forall i, j :: 0 <= i < Rows(a) && 0 <= j < Cols(a) ==> a[i][j] == b[i][j]
    ensures a == b
  {
    forall i | 0 <= i < |a|
      ensures a[i] == b[i]
    {
      assert |a[i]| == |b[i]|;
    }
  }

  /** `np.zeros((r, c))`. */
  function Zeros(r: nat, c: nat): (z: Image)
    ensures |z| == r && forall i :: 0 <= i < r ==> |z[i]| == c
    ensures forall i, j :: 0 <= i < r && 0 <= j < c ==> z[i][j] == 0.0
  {
    seq(r, i => seq(c, j => 0.0))
  }

  /** Every sample is 0. */
  predicate IsZeroGrid(img: Image) {
    forall i, j :: 0 <= i < |img| && 0 <= j < |img[i]| ==> img[i][j] == 0.0
  }

  /** `a + b` on two arrays of the same shape. */
  function Add(a: Image, b: Image): (s: Image)
    requires SameShape(a, b)
    ensures SameShape(s, a)
    ensures forall i, j :: 0 <= i < Rows(a) && 0 <= j < Cols(a) ==> s[i][j] == a[i][j] + b[i][j]
  {
    seq(|a|, i requires 0 <= i < |a| => seq(|a[i]|, j requires 0 <= j < |a[i]| => a[i][j] + b[i][j]))
  }

  /** `a - b` on two arrays of the same shape. */
  function Sub(a: Image, b: Image): (d: Image)
    requires SameShape(a, b)
    ensures SameShape(d, a)
    ensures forall i, j :: 0 <= i < Rows(a) && 0 <= j < Cols(a) ==> d[i][j] == a[i][j] - b[i][j]
  {
    seq(|a|, i requires 0 <= i < |a| => seq(|a[i]|, j requires 0 <= j < |a[i]| => a[i][j] - b[i][j]))
  }

  /** `k * img`. */
  function Scale(k: real, img: Image): (s: Image)
    requires IsRect(img)
    ensures SameShape(s, img)
    ensures forall i, j :: 0 <= i < Rows(img) && 0 <= j < Cols(img) ==> s[i][j] == k * img[i][j]
  {
    seq(|img|, i requires 0 <= i < |img| => seq(|img[i]|, j requires 0 <= j < |img[i]| => k * img[i][j]))
  }

  /** `img[:r, :c]` where `(r, c)` is the shape of `like`: the top-left
      region of `img` with the shape of `like`. The region must fit, since
      numpy would otherwise return a smaller array of the wrong shape. */
  function CropTo(img: Image, like: Image): (out: Image)
    requires IsRect(img) && IsRect(like)
    requires Rows(like) <= Rows(img) && Cols(like) <= Cols(img)
    ensures SameShape(out, like)
    ensures forall i, j :: 0 <= i < Rows(like) && 0 <= j < Cols(like) ==> out[i][j] == img[i][j]
  {
    seq(Rows(like), i requires 0 <= i < Rows(like) => img[i][..Cols(like)])
  }

  /** Subtracting a grid and adding it back is the identity over the reals. */
  lemma AddSubCancel(a: Image, b: Image)
    requires SameShape(a, b)
    ensures Add(Sub(a, b), b) == a
  {
    Extensionality(Add(Sub(a, b), b), a);
  }

  /** Adding the zero grid is the identity. */
  lemma AddZeros(a: Image)
    requires IsRect(a)
    ensures SameShape(a, Zeros(Rows(a), Cols(a)))
    ensures Add(a, Zeros(Rows(a), Cols(a))) == a
  {
    var z := Zeros(Rows(a), Cols(a));
    assert SameShape(a, z);
    Extensionality(Add(a, z), a);
  }

  /** Any top-left region of the zero grid is the zero grid of that shape. */
  lemma CropZeros(r: nat, c: nat, like: Image)
    requires r == 0 ==> c == 0
    requires IsRect(like) && Rows(like) <= r && Cols(like) <= c
    ensures IsRect(Zeros(r, c))
    ensures CropTo(Zeros(r, c), like) == Zeros(Rows(like), Cols(like))
  {
    var z := Zeros(Rows(like), Cols(like));
    Extensionality(CropTo(Zeros(r, c), like), z);
  }
}
