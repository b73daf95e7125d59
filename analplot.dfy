/** The keyed dataset store of the `AnalPlot` class (analplot.py): a map from
    string keys to data matrices and their row and column headers. `set_raw`
    seeds the store under "raw"; each `calc_*` reads a selector `sel` with its
    headers `sel + "RowHdr"` and `sel + "ColHdr"` and writes a derived matrix
    under `sel + ".<op>"` with headers named by the same rule, so a derived key
    is itself a selector. */
module Analplot {
  import opened Outcomes
  import opened Matrices

  /** A row or column label: a day index, a numeric date code or a name. */
  datatype Label = Index(i: int) | Value(x: real) | Name(s: string)

  /** A value of the store: a data matrix, or a header (`None` when none was given). */
  datatype Entry = Data(m: Mat) | Header(labels: Option<seq<Label>>)

  /** What a `calc_*` call raises: a missing key, or a numpy `ValueError`. */
  datatype CalcError = KeyError(key: string) | NumpyFailure(cause: NumpyError)

  /** The three derivations; `MovAvg` carries `calc_movavg`'s window length `avgOver`. */
  datatype Op = Rel2Mean | Rel2Sum | MovAvg(avgOver: int)

  function Suffix(op: Op): string {
    match op
    case Rel2Mean => ".rel2mean"
    case Rel2Sum => ".rel2sum"
    case MovAvg(_) => ".movavg"
  }

  /** The key a `calc_*` call writes its matrix under. */
  function Target(sel: string, op: Op): (t: string)
    ensures |t| > |sel| && t[..|sel|] == sel
  {
    sel + Suffix(op)
  }

  /** The three keys a `calc_*` call writes. */
  function Targets(sel: string, op: Op): set<string> {
    {Target(sel, op), Target(sel, op) + "RowHdr", Target(sel, op) + "ColHdr"}
  }

  predicate IsHeaderKey(k: string) {
    |k| >= 6 && (k[|k| - 6..] == "RowHdr" || k[|k| - 6..] == "ColHdr")
  }

  /** The data key a header key belongs to. */
  function Owner(k: string): string
    requires |k| >= 6
  {
    k[..|k| - 6]
  }

  /** One entry respects the naming rule: a matrix key never ends in 'r' and has
      both header keys beside it; a header key is named after a matrix key. */
  predicate EntryOk(data: map<string, Entry>, k: string)
    requires k in data
  {
    match data[k]
    case Data(m) => m.Valid() && |k| > 0 && k[|k| - 1] != 'r' && k + "RowHdr" in data && k + "ColHdr" in data
    case Header(_) => IsHeaderKey(k) && Owner(k) in data && data[Owner(k)].Data?
  }

  predicate StoreInvariant(data: map<string, Entry>) {
    forall k {:trigger EntryOk(data, k)} :: k in data ==> EntryOk(data, k)
  }

  /** A key whose header keys are present always holds a matrix, never a header:
      every selector `calc_*` accepts finds a matrix under it. */
  lemma SelectorIsData(data: map<string, Entry>, sel: string)
    requires StoreInvariant(data)
    requires sel in data && sel + "RowHdr" in data
    ensures data[sel].Data?
  {
    var h := sel + "RowHdr";
    assert EntryOk(data, h);
    assert h[|h| - 1] == 'r';
    assert Owner(h) == sel;
  }

  /** Inserting a matrix under a key that does not end in 'r', together with two
      headers named after it, keeps the naming rule. */
  lemma InsertKeepsInvariant(data: map<string, Entry>, t: string, m: Mat, rh: Entry, ch: Entry)
    requires StoreInvariant(data)
    requires m.Valid() && |t| > 0 && t[|t| - 1] != 'r'
    requires rh.Header? && ch.Header?
    ensures StoreInvariant(data[t := Data(m)][t + "RowHdr" := rh][t + "ColHdr" := ch])
  {
    var data' := data[t := Data(m)][t + "RowHdr" := rh][t + "ColHdr" := ch];
    forall k | k in data'
      ensures EntryOk(data', k)
    {
      if k == t + "RowHdr" || k == t + "ColHdr" {
        assert Owner(k) == t;
      } else if k != t {
        assert EntryOk(data, k);
        if data[k].Header? {
          var o := Owner(k);
          assert EntryOk(data, o);
          assert o != t + "RowHdr" && o != t + "ColHdr" by {
            assert (t + "RowHdr")[|t| + 5] == 'r' && (t + "ColHdr")[|t| + 5] == 'r';
          }
        }
      }
    }
  }

  /** No column of a non-empty matrix sums to zero (numpy would divide by zero). */
  predicate NonZeroColumns(d: Mat)
    requires d.Valid()
  {
    d.rows > 0 ==> forall c :: 0 <= c < d.cols ==> ColSum(d, c) != 0.0
  }

  /** `d / np.mean(d, axis=0)`. */
  function DivideByColumnMean(d: Mat): (r: Mat)
    requires d.Valid() && NonZeroColumns(d)
    ensures r.Valid() && r.rows == d.rows && r.cols == d.cols
    ensures forall i, c :: 0 <= i < d.rows && 0 <= c < d.cols ==> r.cells[i][c] * ColMean(d, c) == d.cells[i][c]
  {
    Mat(d.rows, d.cols,
        seq(d.rows, i requires 0 <= i < d.rows =>
          seq(d.cols, c requires 0 <= c < d.cols => d.cells[i][c] / ColMean(d, c))))
  }

  /** `d / np.sum(d, axis=0)`. */
  function DivideByColumnSum(d: Mat): (r: Mat)
    requires d.Valid() && NonZeroColumns(d)
    ensures r.Valid() && r.rows == d.rows && r.cols == d.cols
    ensures forall i, c :: 0 <= i < d.rows && 0 <= c < d.cols ==> r.cells[i][c] * ColSum(d, c) == d.cells[i][c]
  {
    Mat(d.rows, d.cols,
        seq(d.rows, i requires 0 <= i < d.rows =>
          seq(d.cols, c requires 0 <= c < d.cols => d.cells[i][c] / ColSum(d, c))))
  }

  /** Every column of `rel2mean`'s output averages to one. */
  lemma RelToMeanColumnsAverageOne(d: Mat, c: nat)
    requires d.Valid() && NonZeroColumns(d) && d.rows > 0 && c < d.cols
    ensures ColMean(DivideByColumnMean(d), c) == 1.0
  {
    var r := DivideByColumnMean(d);
    var total, n := ColSum(d, c), d.rows as real;
    var mean := ColMean(d, c);
    assert mean == total / n;
    assert Column(r, c) == Divided(Column(d, c), mean);
    SumDivided(Column(d, c), mean);
    QuotientByMean(total, n);
  }

  /** Every column of `rel2sum`'s output sums to one. */
  lemma RelToSumColumnsSumToOne(d: Mat, c: nat)
    requires d.Valid() && NonZeroColumns(d) && d.rows > 0 && c < d.cols
    ensures ColSum(DivideByColumnSum(d), c) == 1.0
  {
    var r := DivideByColumnSum(d);
    var total := ColSum(d, c);
    assert Column(r, c) == Divided(Column(d, c), total);
    SumDivided(Column(d, c), total);
    assert total / total == 1.0;
  }

  lemma QuotientByMean(total: real, n: real)
    requires total != 0.0 && n > 0.0
    ensures total / (total / n) / n == 1.0
  {
    var mean := total / n;
    assert mean * n == total;
    assert total / mean == n;
  }

  /** The shapes for which `calc_movavg` does not raise: `np.ones(avgOver)` and the
      `np.zeros` of R-(avgOver-1) rows need non-negative sizes, and once the loop
      over columns 1.. runs, `np.convolve` needs non-empty operands and must
      return exactly R-(avgOver-1) values. */
  predicate MovAvgAccepts(rows: nat, cols: nat, avgOver: int) {
    0 <= avgOver <= rows + 1 && (cols <= 1 || 1 <= avgOver <= rows)
  }

  /** The accepted shapes are exactly those for which numpy's own calls succeed:
      non-negative sizes for `np.ones` and `np.zeros`, and, when there is a
      column 1.., a convolution of a column of `rows` values with the weights
      that succeeds and returns R-(avgOver-1) values. */
  lemma AcceptedShapes(column: seq<real>, cols: nat, avgOver: int)
    ensures MovAvgAccepts(|column|, cols, avgOver) <==>
            0 <= avgOver && 0 <= |column| - (avgOver - 1) &&
            (cols >= 2 ==> ConvolveValid(column, Uniform(avgOver)).Ok? &&
                           |ConvolveValid(column, Uniform(avgOver)).value| == |column| - (avgOver - 1))
  {
  }

  /** The `ValueError` `calc_movavg` raises first when the shape is not accepted. */
  function MovAvgError(rows: nat, cols: nat, avgOver: int): NumpyError {
    if avgOver < 0 || rows + 1 < avgOver then NegativeDimensions
    else if rows == 0 || avgOver == 0 then EmptyArray
    else ShapeMismatch
  }

  /** The matrix `calc_movavg` builds: R-(avgOver-1) rows, column 0 left at zero,
      every other column the moving mean of the input column. */
  function MovingAverageOf(d: Mat, avgOver: int): (r: Mat)
    requires d.Valid() && MovAvgAccepts(d.rows, d.cols, avgOver)
    ensures r.Valid() && r.rows == d.rows - (avgOver - 1) && r.cols == d.cols
    ensures forall j :: 0 <= j < r.rows && 0 < d.cols ==> r.cells[j][0] == 0.0
    ensures forall j, i :: 0 <= j < r.rows && 1 <= i < d.cols ==>
              1 <= avgOver && j + avgOver <= d.rows && r.cells[j][i] == WindowMean(Column(d, i), j, avgOver)
  {
    var rows := d.rows - (avgOver - 1);
    Mat(rows, d.cols,
        seq(rows, j requires 0 <= j < rows =>
          seq(d.cols, i requires 0 <= i < d.cols =>
            if i == 0 then 0.0 else WindowMean(Column(d, i), j, avgOver))))
  }

  /** The column loop of `calc_movavg`: each column from index 1 on is convolved
      with the weights `np.ones(avgOver) / avgOver` and stored into a zero matrix. */
  method MovingAverage(d: Mat, avgOver: int) returns (r: Result<Mat, NumpyError>)
    requires d.Valid()
    ensures r.Ok? <==> MovAvgAccepts(d.rows, d.cols, avgOver)
    ensures r.Err? ==> r.error == MovAvgError(d.rows, d.cols, avgOver)
    ensures r.Ok? ==> r.value == MovingAverageOf(d, avgOver)
    ensures r.Ok? ==> r.value.Valid() && r.value.rows == d.rows - (avgOver - 1) && r.value.cols == d.cols
    ensures r.Ok? ==> forall j :: 0 <= j < r.value.rows && 0 < d.cols ==> r.value.cells[j][0] == 0.0
    ensures r.Ok? ==> forall j, i :: 0 <= j < r.value.rows && 1 <= i < d.cols ==>
              1 <= avgOver && j + avgOver <= d.rows && r.value.cells[j][i] == WindowMean(Column(d, i), j, avgOver)
  {
    if avgOver < 0 {
      return Err(NegativeDimensions);
    }
    var tWeight := Uniform(avgOver);
    if d.rows - (avgOver - 1) < 0 {
      return Err(NegativeDimensions);
    }
    var dataConv := Zeros(d.rows - (avgOver - 1), d.cols);
    var i := 1;
    while i < d.cols
      invariant 1 <= i && (i <= d.cols || d.cols <= 1)
      invariant i > 1 ==> 1 <= avgOver <= d.rows
      invariant dataConv.Valid() && dataConv.rows == d.rows - (avgOver - 1) && dataConv.cols == d.cols
      invariant forall j, k :: 0 <= j < dataConv.rows && 1 <= k < i && k < d.cols ==>
                  dataConv.cells[j][k] == WindowMean(Column(d, k), j, avgOver)
      invariant forall j, k :: 0 <= j < dataConv.rows && 0 <= k < d.cols && (k == 0 || i <= k) ==> dataConv.cells[j][k] == 0.0
    {
      var col := ConvolveValid(Column(d, i), tWeight);
      if col.Err? {
        return Err(col.error);
      }
      if |col.value| != dataConv.rows {
        return Err(ShapeMismatch);
      }
      ConvolveUniform(Column(d, i), avgOver);
      dataConv := SetColumn(dataConv, i, col.value);
      i := i + 1;
    }
    MovingAverageOfCells(d, avgOver, dataConv);
    return Ok(dataConv);
  }

  /** A matrix of the right shape whose cells follow the moving-average rule is
      the one `MovingAverageOf` describes. */
  lemma MovingAverageOfCells(d: Mat, avgOver: int, m: Mat)
    requires d.Valid() && MovAvgAccepts(d.rows, d.cols, avgOver)
    requires m.Valid() && m.rows == d.rows - (avgOver - 1) && m.cols == d.cols
    requires forall j, k :: 0 <= j < m.rows && 1 <= k < d.cols ==> m.cells[j][k] == WindowMean(Column(d, k), j, avgOver)
    requires forall j :: 0 <= j < m.rows && 0 < d.cols ==> m.cells[j][0] == 0.0
    ensures m == MovingAverageOf(d, avgOver)
  {
    var spec := MovingAverageOf(d, avgOver);
    forall j | 0 <= j < m.rows
      ensures m.cells[j] == spec.cells[j]
    {
      forall k | 0 <= k < d.cols
        ensures m.cells[j][k] == spec.cells[j][k]
      {
        if k == 0 {
          assert m.cells[j][0] == 0.0;
        } else {
          assert m.cells[j][k] == WindowMean(Column(d, k), j, avgOver);
        }
      }
    }
    assert m.cells == spec.cells;
  }

  /** The data matrix a derivation writes. */
  function Derived(d: Mat, op: Op): Mat
    requires d.Valid()
    requires !op.MovAvg? ==> NonZeroColumns(d)
    requires op.MovAvg? ==> MovAvgAccepts(d.rows, d.cols, op.avgOver)
  {
    match op
    case Rel2Mean => DivideByColumnMean(d)
    case Rel2Sum => DivideByColumnSum(d)
    case MovAvg(n) => MovingAverageOf(d, n)
  }

  /** `list(range(n))`: the row header `calc_movavg` writes. */
  function Indices(n: nat): (hdr: seq<Label>)
    ensures |hdr| == n && forall j :: 0 <= j < n ==> hdr[j] == Index(j)
  {
    seq(n, j => Index(j))
  }

  /** The divisions of `rel2mean` and `rel2sum` are defined on the selected matrix. */
  predicate DivisorsNonZero(data: map<string, Entry>, sel: string, op: Op) {
    !op.MovAvg? && sel in data && data[sel].Data? && data[sel].m.Valid() ==> NonZeroColumns(data[sel].m)
  }

  /** The store after one `calc_*` call on selector `sel`, or the error it raises.
      The lookups run in the order matrix, column header, row header. */
  function Calc(data: map<string, Entry>, sel: string, op: Op): (r: Result<map<string, Entry>, CalcError>)
    requires StoreInvariant(data)
    requires DivisorsNonZero(data, sel, op)
    ensures sel !in data ==> r == Err(KeyError(sel))
    ensures sel in data && sel + "ColHdr" !in data ==> r == Err(KeyError(sel + "ColHdr"))
    ensures sel in data && sel + "ColHdr" in data && sel + "RowHdr" !in data ==> r == Err(KeyError(sel + "RowHdr"))
    ensures sel in data && sel + "ColHdr" in data && sel + "RowHdr" in data ==>
              data[sel].Data? &&
              (r.Ok? <==> !op.MovAvg? || MovAvgAccepts(data[sel].m.rows, data[sel].m.cols, op.avgOver)) &&
              (r.Err? ==> r.error == NumpyFailure(MovAvgError(data[sel].m.rows, data[sel].m.cols, op.avgOver)))
    ensures r.Ok? ==> StoreInvariant(r.value)
    ensures r.Ok? ==> r.value.Keys == data.Keys + Targets(sel, op)
    ensures r.Ok? ==> forall k :: k in data && k !in Targets(sel, op) ==> r.value[k] == data[k]
    ensures r.Ok? ==> sel in data && sel + "RowHdr" in data && sel + "ColHdr" in data && data[sel].Data? && data[sel].m.Valid()
    ensures r.Ok? ==> (op.MovAvg? ==> MovAvgAccepts(data[sel].m.rows, data[sel].m.cols, op.avgOver))
    ensures r.Ok? ==> r.value[Target(sel, op)] == Data(Derived(data[sel].m, op))
    ensures r.Ok? ==> r.value[Target(sel, op) + "ColHdr"] == data[sel + "ColHdr"]
    ensures r.Ok? ==> (r.value[Target(sel, op) + "RowHdr"] ==
                       if op.MovAvg? then Header(Some(Indices(Derived(data[sel].m, op).rows)))
                       else data[sel + "RowHdr"])
  {
    if sel !in data then Err(KeyError(sel))
    else if sel + "ColHdr" !in data then Err(KeyError(sel + "ColHdr"))
    else if sel + "RowHdr" !in data then Err(KeyError(sel + "RowHdr"))
    else
      SelectorIsData(data, sel);
      var d := data[sel].m;
      assert EntryOk(data, sel);
      if op.MovAvg? && !MovAvgAccepts(d.rows, d.cols, op.avgOver) then
        Err(NumpyFailure(MovAvgError(d.rows, d.cols, op.avgOver)))
      else
        var t := Target(sel, op);
        var m := Derived(d, op);
        var rh := if op.MovAvg? then Header(Some(Indices(m.rows))) else data[sel + "RowHdr"];
        var ch := data[sel + "ColHdr"];
        HeadersOfSelector(data, sel);
        TargetShape(sel, op);
        assert (t + "RowHdr")[|t|] != (t + "ColHdr")[|t|];
        InsertKeepsInvariant(data, t, m, rh, ch);
        Ok(data[t := Data(m)][t + "RowHdr" := rh][t + "ColHdr" := ch])
  }

  lemma HeadersOfSelector(data: map<string, Entry>, sel: string)
    requires StoreInvariant(data)
    requires sel + "RowHdr" in data && sel + "ColHdr" in data
    ensures data[sel + "RowHdr"].Header? && data[sel + "ColHdr"].Header?
  {
    var rk, ck := sel + "RowHdr", sel + "ColHdr";
    assert EntryOk(data, rk) && rk[|rk| - 1] == 'r';
    assert EntryOk(data, ck) && ck[|ck| - 1] == 'r';
  }

  lemma TargetShape(sel: string, op: Op)
    ensures |Target(sel, op)| > 0 && Target(sel, op)[|Target(sel, op)| - 1] != 'r'
    ensures |Target(sel, op)| > |sel| + 6
  {
  }

  /** A derived key is again a selector: a further `calc_*` on it never fails for
      a missing key, only (for `movavg`) for a window its shape does not accept.
      The divisor condition on `next` rules out `rel2mean`/`rel2sum` after a
      non-empty `movavg` (see `MovAvgBlocksDivision`). */
  lemma ChainedSelector(data: map<string, Entry>, sel: string, op: Op, next: Op)
    requires StoreInvariant(data) && DivisorsNonZero(data, sel, op)
    requires Calc(data, sel, op).Ok?
    requires DivisorsNonZero(Calc(data, sel, op).value, Target(sel, op), next)
    ensures Calc(Calc(data, sel, op).value, Target(sel, op), next).Err? ==>
              next.MovAvg? && Calc(Calc(data, sel, op).value, Target(sel, op), next).error.NumpyFailure?
  {
  }

  /** The limit of chaining: a non-empty `calc_movavg` output has an all-zero
      column 0, so `rel2mean` or `rel2sum` on it would divide by zero (numpy
      fills that column with NaN), which is outside the model. */
  lemma MovAvgBlocksDivision(data: map<string, Entry>, sel: string, n: int, next: Op)
    requires StoreInvariant(data) && Calc(data, sel, MovAvg(n)).Ok?
    requires !next.MovAvg?
    requires sel in data && data[sel].Data? && data[sel].m.cols > 0 && data[sel].m.rows - (n - 1) > 0
    ensures !DivisorsNonZero(Calc(data, sel, MovAvg(n)).value, Target(sel, MovAvg(n)), next)
  {
    var d := data[sel].m;
    var out := MovingAverageOf(d, n);
    assert Calc(data, sel, MovAvg(n)).value[Target(sel, MovAvg(n))] == Data(out);
    SumOfZeros(Column(out, 0));
    assert ColSum(out, 0) == 0.0;
  }

  /** `calc_*` never reuses an earlier result: calling it again on the store it
      produced recomputes the same three entries and overwrites them, leaving
      the store as it was. */
  lemma {:induction false} RecalcIsStable(data: map<string, Entry>, sel: string, op: Op)
    requires StoreInvariant(data) && DivisorsNonZero(data, sel, op)
    requires Calc(data, sel, op).Ok?
    ensures DivisorsNonZero(Calc(data, sel, op).value, sel, op)
    ensures Calc(Calc(data, sel, op).value, sel, op) == Calc(data, sel, op)
  {
    var data' := Calc(data, sel, op).value;
    var t := Target(sel, op);
    var rk, ck := t + "RowHdr", t + "ColHdr";
    TargetShape(sel, op);
    assert |sel| < |sel + "RowHdr"| == |sel + "ColHdr"| < |t| < |rk| == |ck|;
    assert data'[sel] == data[sel] && data'[sel + "RowHdr"] == data[sel + "RowHdr"];
    assert data'[sel + "ColHdr"] == data[sel + "ColHdr"];
    var again := Calc(data', sel, op).value;
    assert again.Keys == data'.Keys;
    assert again[t] == data'[t] && again[rk] == data'[rk] && again[ck] == data'[ck];
    forall k | k in data'
      ensures again[k] == data'[k]
    {
      if k !in Targets(sel, op) {
        assert again[k] == data'[k];
      }
    }
    assert again == data';
  }

  /** The analysis object: its only state is the dataset store `data`. Python
      creates the attribute in `set_raw`; here the store starts empty, which
      fails every lookup just as the missing attribute does. */
  class AnalPlot {
    var data: map<string, Entry>

    ghost predicate Valid()
      reads this
    {
      StoreInvariant(data)
    }

    constructor ()
      ensures Valid() && data == map[]
    {
      data := map[];
    }

    /** Discards every entry and seeds "raw" with its two headers; the `skip*`
        arguments are accepted and ignored. */
    method SetRaw(d: Mat, rowHdr: Option<seq<Label>> := None, colHdr: Option<seq<Label>> := None,
                  skipRowsTop: int := 0, skipRowsBottom: int := -1, skipColsLeft: int := 0, skipColsRight: int := -1)
      requires d.Valid()
      modifies this
      ensures Valid()
      ensures data == map["raw" := Data(d), "rawRowHdr" := Header(rowHdr), "rawColHdr" := Header(colHdr)]
    {
      data := map[];
      data := data["raw" := Data(d)];
      data := data["rawRowHdr" := Header(rowHdr)];
      data := data["rawColHdr" := Header(colHdr)];
      assert "raw" + "RowHdr" == "rawRowHdr" && "raw" + "ColHdr" == "rawColHdr";
      assert Owner("rawRowHdr") == "raw" && Owner("rawColHdr") == "raw";
      assert "rawRowHdr"[3..] == "RowHdr" && "rawColHdr"[3..] == "ColHdr";
    }

    /** `calc_rel2mean`: divides the selected matrix by its column means and
        copies both headers. */
    method CalcRel2Mean(dataSel: string := "raw") returns (err: Option<CalcError>)
      requires Valid() && DivisorsNonZero(data, dataSel, Rel2Mean)
      modifies this
      ensures Valid()
      ensures Calc(old(data), dataSel, Rel2Mean).Ok? ==> err == None && data == Calc(old(data), dataSel, Rel2Mean).value
      ensures Calc(old(data), dataSel, Rel2Mean).Err? ==>
                err == Some(Calc(old(data), dataSel, Rel2Mean).error) && data == old(data)
    {
      if dataSel !in data {
        return Some(KeyError(dataSel));
      }
      var d := data[dataSel];
      if dataSel + "ColHdr" !in data {
        return Some(KeyError(dataSel + "ColHdr"));
      }
      var dCH := data[dataSel + "ColHdr"];
      if dataSel + "RowHdr" !in data {
        return Some(KeyError(dataSel + "RowHdr"));
      }
      var dRH := data[dataSel + "RowHdr"];
      SelectorIsData(data, dataSel);
      assert EntryOk(data, dataSel);
      ghost var before := data;
      var t := dataSel + ".rel2mean";
      assert t == Target(dataSel, Rel2Mean) && t + "RowHdr" == dataSel + ".rel2meanRowHdr" && t + "ColHdr" == dataSel + ".rel2meanColHdr";
      data := data[dataSel + ".rel2mean" := Data(DivideByColumnMean(d.m))];
      data := data[dataSel + ".rel2meanRowHdr" := dRH];
      data := data[dataSel + ".rel2meanColHdr" := dCH];
      err := None;
      assert data == Calc(before, dataSel, Rel2Mean).value;
    }

    /** `calc_rel2sum`: divides the selected matrix by its column sums and
        copies both headers. */
    method CalcRel2Sum(dataSel: string := "raw") returns (err: Option<CalcError>)
      requires Valid() && DivisorsNonZero(data, dataSel, Rel2Sum)
      modifies this
      ensures Valid()
      ensures Calc(old(data), dataSel, Rel2Sum).Ok? ==> err == None && data == Calc(old(data), dataSel, Rel2Sum).value
      ensures Calc(old(data), dataSel, Rel2Sum).Err? ==>
                err == Some(Calc(old(data), dataSel, Rel2Sum).error) && data == old(data)
    {
      if dataSel !in data {
        return Some(KeyError(dataSel));
      }
      var d := data[dataSel];
      if dataSel + "ColHdr" !in data {
        return Some(KeyError(dataSel + "ColHdr"));
      }
      var dCH := data[dataSel + "ColHdr"];
      if dataSel + "RowHdr" !in data {
        return Some(KeyError(dataSel + "RowHdr"));
      }
      var dRH := data[dataSel + "RowHdr"];
      SelectorIsData(data, dataSel);
      assert EntryOk(data, dataSel);
      ghost var before := data;
      var t := dataSel + ".rel2sum";
      assert t == Target(dataSel, Rel2Sum) && t + "RowHdr" == dataSel + ".rel2sumRowHdr" && t + "ColHdr" == dataSel + ".rel2sumColHdr";
      data := data[dataSel + ".rel2sum" := Data(DivideByColumnSum(d.m))];
      data := data[dataSel + ".rel2sumRowHdr" := dRH];
      data := data[dataSel + ".rel2sumColHdr" := dCH];
      err := None;
      assert data == Calc(before, dataSel, Rel2Sum).value;
    }

    /** `calc_movavg`: the moving average over `avgOver` rows, a regenerated row
        header `0..rows-1` and the copied column header. */
    method CalcMovAvg(dataSel: string := "raw", avgOver: int := 7) returns (err: Option<CalcError>)
      requires Valid()
      modifies this
      ensures Valid()
      ensures Calc(old(data), dataSel, MovAvg(avgOver)).Ok? ==>
                err == None && data == Calc(old(data), dataSel, MovAvg(avgOver)).value
      ensures Calc(old(data), dataSel, MovAvg(avgOver)).Err? ==>
                err == Some(Calc(old(data), dataSel, MovAvg(avgOver)).error) && data == old(data)
    {
      if dataSel !in data {
        return Some(KeyError(dataSel));
      }
      var d := data[dataSel];
      if dataSel + "ColHdr" !in data {
        return Some(KeyError(dataSel + "ColHdr"));
      }
      var dCH := data[dataSel + "ColHdr"];
      if dataSel + "RowHdr" !in data {
        return Some(KeyError(dataSel + "RowHdr"));
      }
      SelectorIsData(data, dataSel);
      assert EntryOk(data, dataSel);
      var dataConv := MovingAverage(d.m, avgOver);
      if dataConv.Err? {
        return Some(NumpyFailure(dataConv.error));
      }
      ghost var before := data;
      var t := dataSel + ".movavg";
      assert t == Target(dataSel, MovAvg(avgOver)) && t + "RowHdr" == dataSel + ".movavgRowHdr" && t + "ColHdr" == dataSel + ".movavgColHdr";
      data := data[dataSel + ".movavg" := Data(dataConv.value)];
      data := data[dataSel + ".movavgRowHdr" := Header(Some(Indices(dataConv.value.rows)))];
      data := data[dataSel + ".movavgColHdr" := dCH];
      err := None;
      assert data == Calc(before, dataSel, MovAvg(avgOver)).value;
    }
  }
}
