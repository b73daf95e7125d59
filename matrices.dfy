/** Two-dimensional numeric arrays as the analysis code uses them (numpy
    `ndarray`s of shape (rows, cols)), with column sums and means, and
    numpy's `convolve` in 'valid' mode. Arithmetic is exact (`real`). */
module Matrices {
  import opened Outcomes

  /** The numpy failures (all `ValueError`s) that the modelled code can raise. */
  datatype NumpyError =
    | NegativeDimensions  // np.ones / np.zeros asked for a negative size
    | EmptyArray          // np.convolve given an empty operand
    | ShapeMismatch       // a column assigned from an array of another length

  /** A matrix with an explicit shape, so that (0, C) arrays exist as in numpy. */
  datatype Mat = Mat(rows: nat, cols: nat, cells: seq<seq<real>>) {
    predicate Valid() {
      |cells| == rows && forall r :: 0 <= r < rows ==> |cells[r]| == cols
    }
  }

  /** The all-zero matrix of `np.zeros((rows, cols))`. */
  function Zeros(rows: nat, cols: nat): (z: Mat)
    ensures z.Valid() && z.rows == rows && z.cols == cols
    ensures forall r, c :: 0 <= r < rows && 0 <= c < cols ==> z.cells[r][c] == 0.0
  {
    Mat(rows, cols, seq(rows, _ => seq(cols, _ => 0.0)))
  }

  function Sum(s: seq<real>): real {
    if |s| == 0 then 0.0 else Sum(s[..|s| - 1]) + s[|s| - 1]
  }

  /** A sequence of zeros sums to zero. */
  lemma {:induction false} SumOfZeros(s: seq<real>)
    requires forall i :: 0 <= i < |s| ==> s[i] == 0.0
    ensures Sum(s) == 0.0
  {
    if |s| > 0 {
      SumOfZeros(s[..|s| - 1]);
    }
  }

  /** Column `c` of `m`, as `m[:, c]`. */
  function Column(m: Mat, c: nat): (col: seq<real>)
    requires m.Valid() && c < m.cols
    ensures |col| == m.rows
    ensures forall r :: 0 <= r < m.rows ==> col[r] == m.cells[r][c]
  {
    seq(m.rows, r requires 0 <= r < m.rows => m.cells[r][c])
  }

  /** `np.sum(m, axis=0)[c]`. */
  function ColSum(m: Mat, c: nat): (total: real)
    requires m.Valid() && c < m.cols
    ensures m.rows == 0 ==> total == 0.0
  {
    Sum(Column(m, c))
  }

  /** `np.mean(m, axis=0)[c]`; numpy yields NaN for an empty column, which is not modelled. */
  function ColMean(m: Mat, c: nat): (mean: real)
    requires m.Valid() && c < m.cols && m.rows > 0
    ensures mean * (m.rows as real) == ColSum(m, c)
  {
    ColSum(m, c) / (m.rows as real)
  }

  /** `m` with column `c` replaced by `col`: the assignment `m[:, c] = col`. */
  function SetColumn(m: Mat, c: nat, col: seq<real>): (m': Mat)
    requires m.Valid() && c < m.cols && |col| == m.rows
    ensures m'.Valid() && m'.rows == m.rows && m'.cols == m.cols
    ensures forall r, k :: 0 <= r < m.rows && 0 <= k < m.cols ==>
              m'.cells[r][k] == if k == c then col[r] else m.cells[r][k]
  {
    Mat(m.rows, m.cols, seq(m.rows, r requires 0 <= r < m.rows => m.cells[r][c := col[r]]))
  }

  /** Every element of `s` divided by `t`: numpy's broadcast `s / t`. */
  function Divided(s: seq<real>, t: real): (q: seq<real>)
    requires t != 0.0
    ensures |q| == |s|
    ensures forall i :: 0 <= i < |s| ==> q[i] * t == s[i]
  {
    seq(|s|, i requires 0 <= i < |s| => s[i] / t)
  }

  lemma {:induction false} SumDivided(s: seq<real>, t: real)
    requires t != 0.0
    ensures Sum(Divided(s, t)) == Sum(s) / t
  {
    if |s| > 0 {
      var q := Divided(s, t);
      assert q[..|s| - 1] == Divided(s[..|s| - 1], t);
      SumDivided(s[..|s| - 1], t);
    }
  }

  /** Sum over k of x[k] * w[|w| - 1 - k]: one output element of a convolution. */
  function ConvDot(x: seq<real>, w: seq<real>): real
    requires |x| == |w|
  {
    if |x| == 0 then 0.0 else x[|x| - 1] * w[0] + ConvDot(x[..|x| - 1], w[1..])
  }

  lemma {:induction false} ConvDotConstant(x: seq<real>, w: seq<real>, k: real)
    requires |x| == |w|
    requires forall i :: 0 <= i < |w| ==> w[i] == k
    ensures ConvDot(x, w) == Sum(x) * k
  {
    if |x| > 0 {
      ConvDotConstant(x[..|x| - 1], w[1..], k);
    }
  }

  /** `np.convolve(a, v, 'valid')`: numpy swaps the operands when `v` is the
      longer one and rejects an empty operand. */
  function ConvolveValid(a: seq<real>, v: seq<real>): (r: Result<seq<real>, NumpyError>)
    ensures r.Ok? <==> |a| > 0 && |v| > 0
    ensures r.Err? ==> r.error == EmptyArray
    ensures r.Ok? ==> |r.value| == if |v| > |a| then |v| - |a| + 1 else |a| - |v| + 1
  {
    if |a| == 0 || |v| == 0 then Err(EmptyArray)
    else if |v| > |a| then Ok(Slide(v, a))
    else Ok(Slide(a, v))
  }

  function Slide(x: seq<real>, w: seq<real>): (r: seq<real>)
    requires 0 < |w| <= |x|
    ensures |r| == |x| - |w| + 1
  {
    seq(|x| - |w| + 1, j requires 0 <= j < |x| - |w| + 1 => ConvDot(x[j..j + |w|], w))
  }

  /** The weights `np.ones(n) / n`. */
  function Uniform(n: nat): (w: seq<real>)
    ensures |w| == n
    ensures forall i :: 0 <= i < n ==> w[i] * (n as real) == 1.0
  {
    seq(n, _ requires n > 0 => 1.0 / (n as real))
  }

  /** The mean of the `n` elements of `s` starting at `j`. */
  function WindowMean(s: seq<real>, j: nat, n: nat): real
    requires 0 < n && j + n <= |s|
  {
    Sum(s[j..j + n]) / (n as real)
  }

  /** Convolving with uniform weights is the moving mean over each full window. */
  lemma ConvolveUniform(a: seq<real>, n: nat)
    requires 0 < n <= |a|
    ensures ConvolveValid(a, Uniform(n)).Ok?
    ensures |ConvolveValid(a, Uniform(n)).value| == |a| - n + 1
    ensures forall j :: 0 <= j < |a| - n + 1 ==> ConvolveValid(a, Uniform(n)).value[j] == WindowMean(a, j, n)
  {
    var w := Uniform(n);
    forall j | 0 <= j < |a| - n + 1
      ensures Slide(a, w)[j] == WindowMean(a, j, n)
    {
      ConvDotConstant(a[j..j + n], w, 1.0 / (n as real));
    }
  }
}
