/** The data preparation of hkvc-covid19india.py: the date converter
    `date2float`, and the part of `extract_data` that runs on the parsed CSV
    table (dropping the last column, zeroing missing cells and re-filling
    each from a window of its column). */
module CovidIndia {
  import opened Outcomes
  import opened Matrices

  // ---------------------------------------------------------------- date2float

  function Occurrences(s: string, c: char): nat {
    if |s| == 0 then 0 else (if s[0] == c then 1 else 0) + Occurrences(s[1..], c)
  }

  /** Python's `s.split(sep)`: the pieces between separators, so one more field
      than there are separators, none of them containing `sep`. */
  function Split(s: string, sep: char): (fields: seq<string>)
    ensures |fields| == Occurrences(s, sep) + 1
    ensures forall k :: 0 <= k < |fields| ==> sep !in fields[k]
  {
    if |s| == 0 then [""]
    else
      var rest := Split(s[1..], sep);
      if s[0] == sep then [""] + rest else [[s[0]] + rest[0]] + rest[1..]
  }

  lemma {:induction false} SplitWithoutSeparator(s: string, sep: char)
    requires sep !in s
    ensures Split(s, sep) == [s]
  {
    if |s| > 0 {
      assert sep !in s[1..] by {
        forall i | 0 <= i < |s| - 1
          ensures s[1..][i] != sep
        {
          assert s[1..][i] == s[i + 1];
        }
      }
      SplitWithoutSeparator(s[1..], sep);
      assert [s[0]] + s[1..] == s;
    }
  }

  /** Splitting at the first separator yields the text before it as the first field. */
  lemma {:induction false} SplitAtFirst(a: string, sep: char, b: string)
    requires sep !in a
    ensures Split(a + [sep] + b, sep) == [a] + Split(b, sep)
  {
    if |a| == 0 {
      assert (a + [sep] + b)[1..] == b;
    } else {
      assert (a + [sep] + b)[1..] == a[1..] + [sep] + b;
      SplitAtFirst(a[1..], sep, b);
      assert [a[0]] + a[1..] == a;
    }
  }

  lemma SplitThree(d: string, m: string, y: string)
    requires '-' !in d && '-' !in m && '-' !in y
    ensures Split(d + "-" + m + "-" + y, '-') == [d, m, y]
  {
    assert d + "-" + m + "-" + y == d + ['-'] + (m + ['-'] + y);
    SplitAtFirst(d, '-', m + ['-'] + y);
    SplitAtFirst(m, '-', y);
    SplitWithoutSeparator(y, '-');
  }

  /** The ASCII characters Python's `int()` strips as whitespace. */
  predicate IsSpace(c: char) {
    c == ' ' || c == '\t' || c == '\n' || c == '\r' || c == '\U{000B}' || c == '\U{000C}' ||
    c == '\U{001C}' || c == '\U{001D}' || c == '\U{001E}' || c == '\U{001F}'
  }

  function StripLeft(s: string): string {
    if |s| > 0 && IsSpace(s[0]) then StripLeft(s[1..]) else s
  }

  function StripRight(s: string): string {
    if |s| > 0 && IsSpace(s[|s| - 1]) then StripRight(s[..|s| - 1]) else s
  }

  /** Stripping on the left leaves a suffix that does not start with a space. */
  lemma {:induction false} StripLeftSuffix(s: string)
    ensures |StripLeft(s)| <= |s| && StripLeft(s) == s[|s| - |StripLeft(s)|..]
    ensures |StripLeft(s)| > 0 ==> !IsSpace(StripLeft(s)[0])
  {
    if |s| > 0 && IsSpace(s[0]) {
      StripLeftSuffix(s[1..]);
    }
  }

  /** Stripping on the right leaves a prefix that does not end in a space. */
  lemma {:induction false} StripRightPrefix(s: string)
    ensures |StripRight(s)| <= |s| && StripRight(s) == s[..|StripRight(s)|]
    ensures |StripRight(s)| > 0 ==> !IsSpace(StripRight(s)[|StripRight(s)| - 1])
  {
    if |s| > 0 && IsSpace(s[|s| - 1]) {
      StripRightPrefix(s[..|s| - 1]);
    }
  }

  predicate IsDigit(c: char) {
    '0' as int <= c as int <= '9' as int
  }

  function DigitsValue(ds: string): nat
    requires forall i :: 0 <= i < |ds| ==> IsDigit(ds[i])
  {
    if |ds| == 0 then 0
    else
      assert IsDigit(ds[|ds| - 1]);
      DigitsValue(ds[..|ds| - 1]) * 10 + (ds[|ds| - 1] as int - '0' as int)
  }

  function ParseDigits(ds: string): Option<int> {
    if |ds| > 0 && forall i :: 0 <= i < |ds| ==> IsDigit(ds[i]) then Some(DigitsValue(ds)) else None
  }

  /** Python's `int(s)` on a string: surrounding whitespace, an optional sign and
      at least one decimal digit; anything else raises `ValueError` (`None`). */
  function ParseInt(s: string): (r: Option<int>)
    ensures r.Some? ==> exists k :: 0 <= k < |s| && IsDigit(s[k])
    ensures (forall k :: 0 <= k < |s| ==> IsSpace(s[k])) ==> r.None?
  {
    var t := StripRight(StripLeft(s));
    StrippedIsInside(s);
    var r := ParseSigned(t);
    if r.Some? then
      var j :| 0 <= j < |t| && IsDigit(t[j]);
      assert s[|s| - |StripLeft(s)| + j] == t[j];
      r
    else r
  }

  /** An optional sign followed by at least one digit; holds a digit when it succeeds. */
  function ParseSigned(t: string): (r: Option<int>)
    ensures r.Some? ==> exists k :: 0 <= k < |t| && IsDigit(t[k])
  {
    if |t| > 0 && (t[0] == '+' || t[0] == '-') then
      match ParseDigits(t[1..])
      case None => None
      case Some(v) =>
        assert IsDigit(t[1..][0]) && t[1..][0] == t[1];
        if t[0] == '-' then Some(-v) else Some(v)
    else
      var r := ParseDigits(t);
      if r.Some? then assert IsDigit(t[0]); r else r
  }

  /** The stripped text is a slice of the original. */
  lemma StrippedIsInside(s: string)
    ensures var l := StripLeft(s);
            var t := StripRight(l);
            |l| <= |s| && |t| <= |l| && forall j :: 0 <= j < |t| ==> t[j] == s[|s| - |l| + j]
  {
    var l := StripLeft(s);
    var t := StripRight(l);
    StripLeftSuffix(s);
    StripRightPrefix(l);
    forall j | 0 <= j < |t|
      ensures t[j] == s[|s| - |l| + j]
    {
      assert t[j] == l[j];
    }
  }

  /** The decimal digits of `n`, as `str(n)` writes them. */
  function Decimal(n: nat): (ds: string)
    ensures |ds| > 0 && forall i :: 0 <= i < |ds| ==> IsDigit(ds[i])
  {
    if n < 10 then [('0' as int + n) as char] else Decimal(n / 10) + [('0' as int + n % 10) as char]
  }

  lemma {:induction false} DecimalValue(n: nat)
    ensures DigitsValue(Decimal(n)) == n
  {
    if n >= 10 {
      DecimalValue(n / 10);
      assert Decimal(n)[..|Decimal(n)| - 1] == Decimal(n / 10);
    }
  }

  /** `int(str(n)) == n`: the parser reads back what `str` writes. */
  lemma ParseDecimal(n: nat)
    ensures ParseInt(Decimal(n)) == Some(n)
  {
    var ds := Decimal(n);
    assert !IsSpace(ds[0]) && !IsSpace(ds[|ds| - 1]);
    assert StripRight(StripLeft(ds)) == ds;
    DecimalValue(n);
  }

  /** Why `date2float` raises. */
  datatype DateError = TooFewFields | NotAnInteger(field: string)

  /** `date2float` on the decoded field: day and year are read from the first and
      third `-`-separated fields; the month field is never looked at. */
  function Date2Float(sDate: string): (r: Result<real, DateError>)
    ensures r == Err(TooFewFields) <==> Occurrences(sDate, '-') < 2
  {
    var fields := Split(sDate, '-');
    if |fields| < 3 then Err(TooFewFields)
    else
      match ParseInt(fields[2])
      case None => Err(NotAnInteger(fields[2]))
      case Some(year) =>
        match ParseInt(fields[0])
        case None => Err(NotAnInteger(fields[0]))
        case Some(day) => Ok(((year + 2000) * 10000 + day) as real)
  }

  /** A `D-Mon-YY` date whose day and year fields `int()` reads as d and y maps
      to the code (y + 2000) * 10000 + d, however the fields are spelled
      (leading zeros, a sign, surrounding whitespace). */
  lemma DateCode(day: string, month: string, year: string, d: int, y: int)
    requires '-' !in day && '-' !in month && '-' !in year
    requires ParseInt(day) == Some(d) && ParseInt(year) == Some(y)
    ensures Date2Float(day + "-" + month + "-" + year) == Ok(((y + 2000) * 10000 + d) as real)
  {
    var sDate := day + "-" + month + "-" + year;
    var fields := Split(sDate, '-');
    assert fields == [day, month, year] by {
      SplitThree(day, month, year);
    }
    assert ParseInt(fields[2]) == Some(y) && ParseInt(fields[0]) == Some(d);
  }

  /** The corollary for fields written as `str` writes numbers. */
  lemma DateCodeOfDecimals(day: nat, month: string, year: nat)
    requires '-' !in month
    ensures Date2Float(Decimal(day) + "-" + month + "-" + Decimal(year)) == Ok(((year + 2000) * 10000 + day) as real)
  {
    ParseDecimal(day);
    ParseDecimal(year);
    DateCode(Decimal(day), month, Decimal(year), day, year);
  }

  /** Dates that differ only in the month field get the same code (or the same error). */
  lemma MonthIgnored(day: string, month1: string, month2: string, year: string)
    requires '-' !in day && '-' !in month1 && '-' !in month2 && '-' !in year
    ensures Date2Float(day + "-" + month1 + "-" + year) == Date2Float(day + "-" + month2 + "-" + year)
  {
    SplitThree(day, month1, year);
    SplitThree(day, month2, year);
  }

  /** With fewer than two separators there is no third field to index. */
  lemma TooFewFieldsFail(sDate: string)
    requires Occurrences(sDate, '-') < 2
    ensures Date2Float(sDate) == Err(TooFewFields)
  {
  }

  /** A day or year field that `int()` rejects makes the conversion fail, the
      year being read first. */
  lemma NotAnIntegerFails(day: string, month: string, year: string)
    requires '-' !in day && '-' !in month && '-' !in year
    ensures ParseInt(year).None? ==> Date2Float(day + "-" + month + "-" + year) == Err(NotAnInteger(year))
    ensures ParseInt(year).Some? && ParseInt(day).None? ==>
              Date2Float(day + "-" + month + "-" + year) == Err(NotAnInteger(day))
  {
    SplitThree(day, month, year);
  }

  lemma DateCodeExample()
    ensures Date2Float("14-Mar-20") == Ok(20200014.0)
  {
    assert Decimal(14) == "14" && Decimal(20) == "20";
    assert "14-Mar-20" == Decimal(14) + "-" + "Mar" + "-" + Decimal(20);
    DateCodeOfDecimals(14, "Mar", 20);
  }

  /** `int("01")` is 1: a leading zero is accepted. */
  lemma ParseZeroPadded()
    ensures ParseInt("01") == Some(1)
  {
    assert StripLeft("01") == "01" && StripRight("01") == "01";
    assert IsDigit('0') && IsDigit('1');
    assert "01"[..1] == "0" && "0"[..0] == "";
  }

  /** A zero-padded day is read by `int()` as its value: "01-Apr-20" becomes 20200001. */
  lemma DateCodePaddedExample()
    ensures Date2Float("01" + "-" + "Apr" + "-" + "20") == Ok(20200001.0)
  {
    ParseZeroPadded();
    assert ParseInt("20") == Some(20) by {
      assert Decimal(20) == "20";
      ParseDecimal(20);
    }
    DateCode("01", "Apr", "20", 1, 20);
  }

  // ------------------------------------------------------------- extract_data

  /** The table numpy parsed from the CSV file; `None` marks a cell read as NaN. */
  datatype Table = Table(rows: nat, cols: nat, cells: seq<seq<Option<real>>>) {
    predicate Valid() {
      |cells| == rows && forall r :: 0 <= r < rows ==> |cells[r]| == cols
    }
  }

  /** `data[:, 0:-1]`: every column but the last (and none of a table without columns). */
  function DropLastColumn(t: Table): (u: Table)
    requires t.Valid()
    ensures u.Valid() && u.rows == t.rows && u.cols == if t.cols == 0 then 0 else t.cols - 1
    ensures forall r, c :: 0 <= r < u.rows && 0 <= c < u.cols ==> u.cells[r][c] == t.cells[r][c]
  {
    var cols := if t.cols == 0 then 0 else t.cols - 1;
    Table(t.rows, cols, seq(t.rows, r requires 0 <= r < t.rows => t.cells[r][..cols]))
  }

  datatype Pos = Pos(row: nat, col: nat)

  predicate RowMajorBefore(p: Pos, q: Pos) {
    p.row < q.row || (p.row == q.row && p.col < q.col)
  }

  predicate StrictlyOrdered(ps: seq<Pos>) {
    forall i, j :: 0 <= i < j < |ps| ==> RowMajorBefore(ps[i], ps[j])
  }

  /** The missing cells among the first `n` of a row. */
  function MissingInRow(row: seq<Option<real>>, r: nat, n: nat): seq<Pos>
    requires n <= |row|
  {
    if n == 0 then [] else MissingInRow(row, r, n - 1) + (if row[n - 1].None? then [Pos(r, n - 1)] else [])
  }

  /** The missing cells of the first `m` rows. */
  function MissingInRows(t: Table, m: nat): seq<Pos>
    requires t.Valid() && m <= t.rows
  {
    if m == 0 then [] else MissingInRows(t, m - 1) + MissingInRow(t.cells[m - 1], m - 1, t.cols)
  }

  /** `np.argwhere(np.isnan(data))`: exactly the missing cells, each once, in
      row-major order. */
  function Missing(t: Table): (ps: seq<Pos>)
    requires t.Valid()
    ensures forall p :: p in ps <==> p.row < t.rows && p.col < t.cols && t.cells[p.row][p.col].None?
    ensures forall k :: 0 <= k < |ps| ==> ps[k].row < t.rows && ps[k].col < t.cols
    ensures StrictlyOrdered(ps)
  {
    MissingInRowsFacts(t, t.rows);
    var ps := MissingInRows(t, t.rows);
    assert forall k :: 0 <= k < |ps| ==> ps[k] in ps;
    ps
  }

  lemma {:induction false} MissingInRowFacts(row: seq<Option<real>>, r: nat, n: nat)
    requires n <= |row|
    ensures forall p :: p in MissingInRow(row, r, n) <==> p.row == r && p.col < n && row[p.col].None?
    ensures StrictlyOrdered(MissingInRow(row, r, n))
  {
    if n > 0 {
      MissingInRowFacts(row, r, n - 1);
    }
  }

  lemma {:induction false} MissingInRowsFacts(t: Table, m: nat)
    requires t.Valid() && m <= t.rows
    ensures forall p :: p in MissingInRows(t, m) <==> p.row < m && p.col < t.cols && t.cells[p.row][p.col].None?
    ensures StrictlyOrdered(MissingInRows(t, m))
  {
    if m > 0 {
      var a, b := MissingInRows(t, m - 1), MissingInRow(t.cells[m - 1], m - 1, t.cols);
      MissingInRowsFacts(t, m - 1);
      MissingInRowFacts(t.cells[m - 1], m - 1, t.cols);
      var ab := a + b;
      forall i, j | 0 <= i < j < |ab|
        ensures RowMajorBefore(ab[i], ab[j])
      {
        if j < |a| {
          assert ab[i] == a[i] && ab[j] == a[j];
        } else if i >= |a| {
          assert ab[i] == b[i - |a|] && ab[j] == b[j - |a|];
        } else {
          assert ab[i] == a[i] && a[i] in a;
          assert ab[j] == b[j - |a|] && b[j - |a|] in b;
        }
      }
    }
  }

  /** `data[np.isnan(data)] = 0`: every missing cell becomes 0 and every other keeps its value. */
  function Zeroed(t: Table): (m: Mat)
    requires t.Valid()
    ensures m.Valid() && m.rows == t.rows && m.cols == t.cols
    ensures forall r, c :: 0 <= r < t.rows && 0 <= c < t.cols ==>
              m.cells[r][c] == match t.cells[r][c] case Some(x) => x case None => 0.0
  {
    Mat(t.rows, t.cols,
        seq(t.rows, r requires 0 <= r < t.rows =>
          seq(t.cols, c requires 0 <= c < t.cols => match t.cells[r][c] case Some(x) => x case None => 0.0)))
  }

  /** The first row of the window around row `r`: `max(0, r - 3)`. */
  function WindowStart(r: nat): (s: nat)
    ensures s <= r && r - s <= 3 && (s == 0 || r - s == 3)
  {
    if r < 3 then 0 else r - 3
  }

  /** One past the last row of the window around row `r`: `min(rows, r + 4)`. */
  function WindowEnd(r: nat, rows: nat): (e: nat)
    ensures e <= rows && e <= r + 4 && (e == rows || e == r + 4)
  {
    if r + 4 > rows then rows else r + 4
  }

  /** The window always holds row `r` itself, stays inside the table and spans at most seven rows. */
  lemma WindowBounds(r: nat, rows: nat)
    requires r < rows
    ensures WindowStart(r) <= r < WindowEnd(r, rows) <= rows
    ensures WindowEnd(r, rows) - WindowStart(r) <= 7
  {
  }

  /** `np.sum(data[iS:iE, c] * tWeights)` with every weight 1/6: the window's
      column sum divided by 6, whatever the window's length. */
  function ImputedValue(m: Mat, p: Pos): (v: real)
    requires m.Valid() && p.row < m.rows && p.col < m.cols
    ensures v * 6.0 == Sum(Column(m, p.col)[WindowStart(p.row)..WindowEnd(p.row, m.rows)])
  {
    var window := Column(m, p.col)[WindowStart(p.row)..WindowEnd(p.row, m.rows)];
    SumDivided(window, 6.0);
    Sum(Divided(window, 6.0))
  }

  predicate InBounds(m: Mat, ps: seq<Pos>) {
    forall k :: 0 <= k < |ps| ==> ps[k].row < m.rows && ps[k].col < m.cols
  }

  function SetCell(m: Mat, p: Pos, v: real): (m': Mat)
    requires m.Valid() && p.row < m.rows && p.col < m.cols
    ensures m'.Valid() && m'.rows == m.rows && m'.cols == m.cols
    ensures forall r, c :: 0 <= r < m.rows && 0 <= c < m.cols ==>
              m'.cells[r][c] == if r == p.row && c == p.col then v else m.cells[r][c]
  {
    Mat(m.rows, m.cols, m.cells[p.row := m.cells[p.row][p.col := v]])
  }

  /** `m[r] = v`: the whole row `r` set to `v`. */
  function SetRow(m: Mat, r: nat, v: real): (m': Mat)
    requires m.Valid() && r < m.rows
    ensures m'.Valid() && m'.rows == m.rows && m'.cols == m.cols
    ensures forall i, c :: 0 <= i < m.rows && 0 <= c < m.cols ==>
              m'.cells[i][c] == if i == r then v else m.cells[i][c]
  {
    Mat(m.rows, m.cols, m.cells[r := seq(m.cols, _ => v)])
  }

  /** The intended re-filling: each listed cell in turn receives the weighted
      sum of its window, read from the matrix as the earlier steps left it. */
  function Impute(m: Mat, ps: seq<Pos>): (m': Mat)
    requires m.Valid() && InBounds(m, ps)
    ensures m'.Valid() && m'.rows == m.rows && m'.cols == m.cols
  {
    if |ps| == 0 then m
    else
      var prev := Impute(m, ps[..|ps| - 1]);
      var p := ps[|ps| - 1];
      SetCell(prev, p, ImputedValue(prev, p))
  }

  /** The `IndexError` numpy raises for a row index past the end. */
  datatype IndexError = RowIndexOutOfBounds(index: nat, size: nat)

  /** One step as written: `data[[p.row, p.col]] = value`. */
  function AsWrittenStep(prev: Mat, p: Pos): (r: Result<Mat, IndexError>)
    requires prev.Valid() && p.row < prev.rows && p.col < prev.cols
    ensures r.Err? <==> p.col >= prev.rows
    ensures r.Ok? ==> r.value.Valid() && r.value.rows == prev.rows && r.value.cols == prev.cols
    ensures r.Ok? ==> forall i, c :: 0 <= i < prev.rows && 0 <= c < prev.cols ==>
              r.value.cells[i][c] == if i == p.row || i == p.col then ImputedValue(prev, p) else prev.cells[i][c]
  {
    if p.col >= prev.rows then Err(RowIndexOutOfBounds(p.col, prev.rows))
    else
      var v := ImputedValue(prev, p);
      Ok(SetRow(SetRow(prev, p.row, v), p.col, v))
  }

  /** The re-filling as written: `data[i] = value` with `i` the index array
      `[r, c]` sets ALL of rows r and c, and raises when c is not a row index. */
  function ImputeAsWritten(m: Mat, ps: seq<Pos>): (r: Result<Mat, IndexError>)
    requires m.Valid() && InBounds(m, ps)
    ensures r.Ok? ==> r.value.Valid() && r.value.rows == m.rows && r.value.cols == m.cols
  {
    if |ps| == 0 then Ok(m)
    else
      match ImputeAsWritten(m, ps[..|ps| - 1])
      case Err(e) => Err(e)
      case Ok(prev) => AsWrittenStep(prev, ps[|ps| - 1])
  }

  /** As written, the re-filling fails exactly when some missing cell's column
      number is not also a valid row number. */
  lemma {:induction false} AsWrittenFailsIff(m: Mat, ps: seq<Pos>)
    requires m.Valid() && InBounds(m, ps)
    ensures ImputeAsWritten(m, ps).Err? <==> SomeColumnPastRows(ps, m.rows)
  {
    if |ps| > 0 {
      var init := ps[..|ps| - 1];
      assert InBounds(m, init);
      AsWrittenFailsIff(m, init);
      AsWrittenLastStep(m, ps);
      ColumnPastRowsSplit(ps, m.rows);
    }
  }

  /** Some listed position has a column number that is not a row number. */
  predicate SomeColumnPastRows(ps: seq<Pos>, rows: nat) {
    exists k :: 0 <= k < |ps| && ps[k].col >= rows
  }

  lemma ColumnPastRowsSplit(ps: seq<Pos>, rows: nat)
    requires |ps| > 0
    ensures SomeColumnPastRows(ps, rows) <==>
            SomeColumnPastRows(ps[..|ps| - 1], rows) || ps[|ps| - 1].col >= rows
  {
    var init := ps[..|ps| - 1];
    assert forall k :: 0 <= k < |init| ==> init[k] == ps[k];
  }

  /** The last step raises exactly when the earlier ones did or its own column is past the rows. */
  lemma AsWrittenLastStep(m: Mat, ps: seq<Pos>)
    requires m.Valid() && InBounds(m, ps) && |ps| > 0
    ensures InBounds(m, ps[..|ps| - 1])
    ensures ImputeAsWritten(m, ps).Err? <==>
            ImputeAsWritten(m, ps[..|ps| - 1]).Err? || ps[|ps| - 1].col >= m.rows
  {
    var init := ps[..|ps| - 1];
    assert InBounds(m, init);
    var prev := ImputeAsWritten(m, init);
    if prev.Ok? {
      assert ImputeAsWritten(m, ps) == AsWrittenStep(prev.value, ps[|ps| - 1]);
    }
  }

  /** As written, a cell whose row is neither the row nor the column number of
      any listed position keeps its value. */
  lemma {:induction false} AsWrittenKeepsOtherRows(m: Mat, ps: seq<Pos>, q: Pos)
    requires m.Valid() && InBounds(m, ps) && q.row < m.rows && q.col < m.cols
    requires forall k :: 0 <= k < |ps| ==> ps[k].row != q.row && ps[k].col != q.row
    ensures ImputeAsWritten(m, ps).Ok? ==> ImputeAsWritten(m, ps).value.cells[q.row][q.col] == m.cells[q.row][q.col]
  {
    if |ps| > 0 {
      var init := ps[..|ps| - 1];
      assert InBounds(m, init);
      AsWrittenKeepsOtherRows(m, init, q);
      var prev := ImputeAsWritten(m, init);
      if prev.Ok? {
        assert ImputeAsWritten(m, ps) == AsWrittenStep(prev.value, ps[|ps| - 1]);
      }
    }
  }

  /** `extract_data` after the CSV parse, as written. */
  method ExtractDataAsWritten(parsed: Table) returns (r: Result<Mat, IndexError>)
    requires parsed.Valid()
    ensures r == ImputeAsWritten(Zeroed(DropLastColumn(parsed)), Missing(DropLastColumn(parsed)))
    ensures r.Ok? ==> r.value.rows == parsed.rows && r.value.cols == DropLastColumn(parsed).cols
  {
    var table := DropLastColumn(parsed);
    var nans := Missing(table);
    var data := Zeroed(table);
    ghost var zeroed := data;
    for k := 0 to |nans|
      invariant ImputeAsWritten(zeroed, nans[..k]) == Ok(data)
    {
      var i := nans[k];
      var iS := i.row - 3;
      if iS < 0 {
        iS := 0;
      }
      var iE := i.row + 3 + 1;
      if iE > data.rows {
        iE := data.rows;
      }
      assert iS == WindowStart(i.row) && iE == WindowEnd(i.row, data.rows);
      var value := Sum(Divided(Column(data, i.col)[iS..iE], 6.0));
      assert value == ImputedValue(data, i);
      AsWrittenExtend(zeroed, nans, k, data);
      if i.col >= data.rows {
        AsWrittenStaysFailed(zeroed, nans, k + 1);
        return Err(RowIndexOutOfBounds(i.col, data.rows));
      }
      data := SetRow(SetRow(data, i.row, value), i.col, value);
    }
    assert nans[..|nans|] == nans;
    r := Ok(data);
  }

  /** One more turn of the as-written loop: the step on the matrix the earlier turns left. */
  lemma AsWrittenExtend(m: Mat, ps: seq<Pos>, k: nat, prev: Mat)
    requires m.Valid() && InBounds(m, ps) && k < |ps|
    requires InBounds(m, ps[..k]) && ImputeAsWritten(m, ps[..k]) == Ok(prev)
    ensures InBounds(m, ps[..k + 1])
    ensures prev.Valid() && prev.rows == m.rows && prev.cols == m.cols
    ensures ImputeAsWritten(m, ps[..k + 1]) == AsWrittenStep(prev, ps[k])
  {
    assert ps[..k + 1][..k] == ps[..k];
  }

  /** One more turn of the intended loop: the cell receives its window value. */
  lemma ImputeExtend(m: Mat, ps: seq<Pos>, k: nat)
    requires m.Valid() && InBounds(m, ps) && k < |ps|
    ensures InBounds(m, ps[..k]) && InBounds(m, ps[..k + 1])
    ensures Impute(m, ps[..k + 1]) == SetCell(Impute(m, ps[..k]), ps[k], ImputedValue(Impute(m, ps[..k]), ps[k]))
  {
    assert ps[..k + 1][..k] == ps[..k];
  }

  /** Once a step has raised, the whole re-filling raises the same error. */
  lemma {:induction false} AsWrittenStaysFailed(m: Mat, ps: seq<Pos>, n: nat)
    requires m.Valid() && InBounds(m, ps) && n <= |ps|
    requires ImputeAsWritten(m, ps[..n]).Err?
    ensures ImputeAsWritten(m, ps) == ImputeAsWritten(m, ps[..n])
    decreases |ps| - n
  {
    if n < |ps| {
      assert ps[..n + 1][..n] == ps[..n];
      AsWrittenStaysFailed(m, ps, n + 1);
    } else {
      assert ps[..n] == ps;
    }
  }

  /** `extract_data` after the CSV parse, with the re-filling writing the single
      cell (r, c) as intended. Observed cells keep their values, and each
      missing cell holds the weighted window sum computed when its turn came. */
  method ExtractData(parsed: Table) returns (m: Mat)
    requires parsed.Valid()
    ensures m == Impute(Zeroed(DropLastColumn(parsed)), Missing(DropLastColumn(parsed)))
    ensures m.Valid() && m.rows == parsed.rows && m.cols == DropLastColumn(parsed).cols
    ensures forall r, c :: 0 <= r < m.rows && 0 <= c < m.cols && parsed.cells[r][c].Some? ==>
              m.cells[r][c] == parsed.cells[r][c].value
  {
    var table := DropLastColumn(parsed);
    var nans := Missing(table);
    var data := Zeroed(table);
    ghost var zeroed := data;
    for k := 0 to |nans|
      invariant InBounds(zeroed, nans[..k])
      invariant Impute(zeroed, nans[..k]) == data
    {
      var i := nans[k];
      var iS := i.row - 3;
      if iS < 0 {
        iS := 0;
      }
      var iE := i.row + 3 + 1;
      if iE > data.rows {
        iE := data.rows;
      }
      assert iS == WindowStart(i.row) && iE == WindowEnd(i.row, data.rows);
      var value := Sum(Divided(Column(data, i.col)[iS..iE], 6.0));
      assert value == ImputedValue(data, i);
      ImputeExtend(zeroed, nans, k);
      data := SetCell(data, i, value);
    }
    assert nans[..|nans|] == nans;
    m := data;
    ObservedCellsKept(parsed);
  }

  /** Re-filling leaves every observed cell of the table at its parsed value. */
  lemma ObservedCellsKept(parsed: Table)
    requires parsed.Valid()
    ensures var table := DropLastColumn(parsed);
            var m := Impute(Zeroed(table), Missing(table));
            forall r, c :: 0 <= r < m.rows && 0 <= c < m.cols && parsed.cells[r][c].Some? ==>
              m.cells[r][c] == parsed.cells[r][c].value
  {
    var table := DropLastColumn(parsed);
    var zeroed, nans := Zeroed(table), Missing(table);
    var m := Impute(zeroed, nans);
    forall r, c | 0 <= r < m.rows && 0 <= c < m.cols && parsed.cells[r][c].Some?
      ensures m.cells[r][c] == parsed.cells[r][c].value
    {
      assert table.cells[r][c] == parsed.cells[r][c];
      ImputeKeepsOthers(zeroed, nans, Pos(r, c));
    }
  }

  /** A cell that is not listed keeps its value through the re-filling. */
  lemma {:induction false} ImputeKeepsOthers(m: Mat, ps: seq<Pos>, q: Pos)
    requires m.Valid() && InBounds(m, ps) && q.row < m.rows && q.col < m.cols
    requires q !in ps
    ensures Impute(m, ps).cells[q.row][q.col] == m.cells[q.row][q.col]
  {
    if |ps| > 0 {
      ImputeKeepsOthers(m, ps[..|ps| - 1], q);
    }
  }

  /** Each listed cell ends with the value computed at its own step, from the
      matrix as all earlier steps left it (so later windows see earlier fills). */
  lemma {:induction false} ImputeFinalValue(m: Mat, ps: seq<Pos>, k: nat)
    requires m.Valid() && InBounds(m, ps) && StrictlyOrdered(ps) && k < |ps|
    ensures InBounds(m, ps[..k])
    ensures Impute(m, ps).cells[ps[k].row][ps[k].col] == ImputedValue(Impute(m, ps[..k]), ps[k])
  {
    var init := ps[..|ps| - 1];
    if k < |ps| - 1 {
      assert init[..k] == ps[..k] && init[k] == ps[k];
      ImputeFinalValue(m, init, k);
      assert RowMajorBefore(ps[k], ps[|ps| - 1]);
    } else {
      assert init == ps[..k];
    }
  }

  /** Each missing cell of the table ends holding the weighted window sum
      computed at its own turn, from the matrix as the earlier turns left it. */
  lemma MissingCellsFilled(parsed: Table)
    requires parsed.Valid()
    ensures var table := DropLastColumn(parsed);
            var zeroed, nans := Zeroed(table), Missing(table);
            forall k :: 0 <= k < |nans| ==>
              InBounds(zeroed, nans[..k]) &&
              Impute(zeroed, nans).cells[nans[k].row][nans[k].col] == ImputedValue(Impute(zeroed, nans[..k]), nans[k])
  {
    var table := DropLastColumn(parsed);
    var zeroed, nans := Zeroed(table), Missing(table);
    forall k | 0 <= k < |nans|
      ensures InBounds(zeroed, nans[..k])
      ensures Impute(zeroed, nans).cells[nans[k].row][nans[k].col] == ImputedValue(Impute(zeroed, nans[..k]), nans[k])
    {
      ImputeFinalValue(zeroed, nans, k);
    }
  }

  /** A three-day table with one missing count: `[[1, NaN], [2, 6], [3, 12]]`
      after the last column is dropped. */
  function OneGapTable(): Table {
    Table(3, 3, [[Some(1.0), None, Some(0.0)],
                 [Some(2.0), Some(6.0), Some(0.0)],
                 [Some(3.0), Some(12.0), Some(0.0)]])
  }

  /** As written, filling the one gap overwrites all of rows 0 and 1, so the
      observed counts 1 and 6 are lost; the intended fill keeps them and puts
      (0 + 6 + 12) / 6 = 3 in the gap. */
  lemma AsWrittenOverwritesObserved()
    ensures var t := OneGapTable();
            var table := DropLastColumn(t);
            var r := ImputeAsWritten(Zeroed(table), Missing(table));
            r.Ok? && r.value.cells[0][0] == 3.0 != t.cells[0][0].value
                  && r.value.cells[1][1] == 3.0 != t.cells[1][1].value
    ensures var table := DropLastColumn(OneGapTable());
            var m := Impute(Zeroed(table), Missing(table));
            m.cells[0][0] == 1.0 && m.cells[1][1] == 6.0 && m.cells[0][1] == 3.0
  {
    var t := OneGapTable();
    var table := DropLastColumn(t);
    assert table.cells[0] == [Some(1.0), None];
    assert table.cells[1] == [Some(2.0), Some(6.0)];
    assert table.cells[2] == [Some(3.0), Some(12.0)];
    var nans := Missing(table);
    assert nans == [Pos(0, 1)] by {
      assert MissingInRow(table.cells[0], 0, 1) == [];
      assert MissingInRow(table.cells[0], 0, 2) == [Pos(0, 1)];
      assert MissingInRow(table.cells[1], 1, 1) == [];
      assert MissingInRow(table.cells[1], 1, 2) == [];
      assert MissingInRow(table.cells[2], 2, 1) == [];
      assert MissingInRow(table.cells[2], 2, 2) == [];
      assert MissingInRows(table, 1) == [Pos(0, 1)];
      assert MissingInRows(table, 2) == [Pos(0, 1)];
    }
    var zeroed := Zeroed(table);
    assert Column(zeroed, 1)[0..3] == [0.0, 6.0, 12.0];
    assert Divided([0.0, 6.0, 12.0], 6.0) == [0.0, 1.0, 2.0];
    assert Sum([0.0, 1.0, 2.0]) == 3.0 by {
      assert [0.0, 1.0, 2.0][..2] == [0.0, 1.0];
      assert [0.0, 1.0][..1] == [0.0];
      assert [0.0][..0] == [];
    }
    assert ImputedValue(zeroed, Pos(0, 1)) == 3.0;
    assert nans[..0] == [];
    assert ImputeAsWritten(zeroed, nans) == AsWrittenStep(zeroed, Pos(0, 1));
    assert Impute(zeroed, nans) == SetCell(zeroed, Pos(0, 1), 3.0);
  }

  /** As written, a gap in a column whose number is not a row number raises: in
      a two-day table with three kept columns, a gap in column 2 makes
      `data[[0, 2]]` index row 2 of 2. */
  lemma AsWrittenRaisesOnNarrowTable()
    ensures var table := DropLastColumn(Table(2, 4, [[Some(5.0), Some(1.0), None, Some(0.0)],
                                                     [Some(6.0), Some(2.0), Some(3.0), Some(0.0)]]));
            ImputeAsWritten(Zeroed(table), Missing(table)) == Err(RowIndexOutOfBounds(2, 2))
  {
    var table := DropLastColumn(Table(2, 4, [[Some(5.0), Some(1.0), None, Some(0.0)],
                                             [Some(6.0), Some(2.0), Some(3.0), Some(0.0)]]));
    assert table.cells[0] == [Some(5.0), Some(1.0), None];
    assert table.cells[1] == [Some(6.0), Some(2.0), Some(3.0)];
    var nans := Missing(table);
    assert nans == [Pos(0, 2)] by {
      assert MissingInRow(table.cells[0], 0, 1) == [];
      assert MissingInRow(table.cells[0], 0, 2) == [];
      assert MissingInRow(table.cells[0], 0, 3) == [Pos(0, 2)];
      assert MissingInRow(table.cells[1], 1, 1) == [];
      assert MissingInRow(table.cells[1], 1, 2) == [];
      assert MissingInRow(table.cells[1], 1, 3) == [];
      assert MissingInRows(table, 1) == [Pos(0, 2)];
    }
    assert nans[..0] == [];
    assert ImputeAsWritten(Zeroed(table), nans) == AsWrittenStep(Zeroed(table), Pos(0, 2));
  }
}
