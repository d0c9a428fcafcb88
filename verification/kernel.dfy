/** The fixed 5×5 blur kernel shared by every blur step of the pipeline. */
module Kernel {

  /** The one-dimensional binomial-like weights whose outer product is the kernel. */
  const Weights: seq<real> := [0.05, 0.25, 0.4, 0.25, 0.05]

  /** The global `guassianFilter`, entry for entry as the literal is written. */
  const GaussianFilter: seq<seq<real>> :=
    [[0.0025, 0.0125, 0.02  , 0.0125, 0.0025],
     [0.0125, 0.0625, 0.1   , 0.0625, 0.0125],
     [0.02  , 0.1   , 0.16  , 0.1   , 0.02  ],
     [0.0125, 0.0625, 0.1   , 0.0625, 0.0125],
     [0.0025, 0.0125, 0.02  , 0.0125, 0.0025]]

  /** The sum of the five entries of row `p` of the kernel. */
  function RowSum(p: nat): real
    requires p < 5
  {
    var w := GaussianFilter[p];
    w[0] + w[1] + w[2] + w[3] + w[4]
  }

  /** The sum of all 25 kernel entries. */
  function KernelSum(): real {
    RowSum(0) + RowSum(1) + RowSum(2) + RowSum(3) + RowSum(4)
  }

  /** Each entry is the product of two one-dimensional weights. */
  lemma KernelIsOuterProduct()
    ensures forall p, q :: 0 <= p < 5 && 0 <= q < 5 ==> GaussianFilter[p][q] == Weights[p] * Weights[q]
  {
  }

  /** The kernel is unchanged by flipping either axis or by transposing it,
      so convolution with it coincides with correlation. */
  lemma KernelSymmetric()
    ensures forall p, q {:trigger GaussianFilter[p][q]} :: 0 <= p < 5 && 0 <= q < 5 ==>
      && GaussianFilter[p][q] == GaussianFilter[4 - p][q]
      && GaussianFilter[p][q] == GaussianFilter[p][4 - q]
      && GaussianFilter[p][q] == GaussianFilter[q][p]
  {
  }

  /** The kernel is normalised: its weights sum to exactly one. */
  lemma KernelSumIsOne()
    ensures KernelSum() == 1.0
  {
  }
}
