/** CRSP back-adjustment of closing prices (the loop of `AdjustAllTickers` in
    eod/adjust.go). Rows arrive grouped by ticker, newest first. A running factor
    starts at 1.0 for every ticker; each row's adjusted close is its close divided
    by the factor, after which the factor absorbs the row's dividend and split, or
    resets to 1.0 when the row's close is not positive.

    The loop is modelled as a left fold (`Walk`) whose state is exactly the Go
    loop's `currTicker` and `adjustFactor`. `RefAdjClose` is an independent,
    closed-form statement of the same result: close divided by the product of the
    growths of the rows since the last reset. */
module Adjust {
  import opened EodTypes

  // ---------------------------------------------------------------------------
  // The loop as written
  // ---------------------------------------------------------------------------

  /** The multiplier a row with a positive close applies to every later row of its ticker. */
  function Growth(row: Eod): real
    requires row.close > 0.0
  {
    Times(1.0 + Over(row.dividend, row.close), row.splitFactor)
  }

  /** A row with a positive close does not have a zero growth: its dividend
      does not cancel its close and its split factor is not zero. */
  predicate RowGrowthDefined(row: Eod) {
    row.close > 0.0 ==> row.close + row.dividend != 0.0 && row.splitFactor != 0.0
  }

  /** The growth of a row whose growth is defined is not zero. */
  lemma GrowthNonZero(row: Eod)
    requires row.close > 0.0 && RowGrowthDefined(row)
    ensures Growth(row) != 0.0
  {
    var q := Over(row.dividend, row.close);
    assert 1.0 + q != 0.0 by {
      assert q * row.close == row.dividend;
    }
    TimesNonZero(1.0 + q, row.splitFactor);
  }

  /** No positive-close row has a zero growth, so the running factor never becomes
      zero and the division by it is defined. */
  predicate GrowthDefined(rows: seq<Eod>) {
    forall i :: 0 <= i < |rows| ==> RowGrowthDefined(rows[i])
  }

  /** Every prefix of rows whose growths are defined has defined growths. */
  lemma PrefixGrowthDefined(rows: seq<Eod>, k: int)
    requires GrowthDefined(rows)
    requires 0 <= k <= |rows|
    ensures GrowthDefined(rows[..k])
  {
    forall i | 0 <= i < k
      ensures RowGrowthDefined(rows[..k][i])
    {
      assert rows[..k][i] == rows[i];
    }
  }

  /** The loop state: the adjusted closes computed so far, the ticker being
      walked and the running factor. */
  datatype Scan = Scan(adjusted: seq<real>, currTicker: string, factor: real)

  /** The state before the first row. */
  const Initial: Scan := Scan([], "", 1.0)

  /** The factor a row is divided by: 1.0 when its ticker differs from the one
      being walked, else the running factor. */
  function FactorFor(s: Scan, row: Eod): real {
    if s.currTicker != row.ticker then 1.0 else s.factor
  }

  /** One iteration of the loop body: reset on a ticker change, divide, then
      update or reset the factor. */
  function Step(s: Scan, row: Eod): (t: Scan)
    requires s.factor != 0.0
    requires RowGrowthDefined(row)
    ensures t.factor != 0.0
    ensures t.currTicker == row.ticker
    ensures |t.adjusted| == |s.adjusted| + 1 && t.adjusted[..|s.adjusted|] == s.adjusted
  {
    var f := FactorFor(s, row);
    var next := if row.close > 0.0 then GrowthNonZero(row); TimesNonZero(f, Growth(row)); Times(f, Growth(row)) else 1.0;
    Scan(s.adjusted + [Over(row.close, f)], row.ticker, next)
  }

  /** The loop run over `rows` in processing order. */
  function Walk(rows: seq<Eod>): (s: Scan)
    requires GrowthDefined(rows)
    ensures s.factor != 0.0
    ensures |s.adjusted| == |rows|
    ensures s.currTicker == if |rows| == 0 then "" else rows[|rows| - 1].ticker
  {
    if |rows| == 0 then Initial
    else
      var front := rows[..|rows| - 1];
      PrefixGrowthDefined(rows, |rows| - 1);
      Step(Walk(front), rows[|rows| - 1])
  }

  /** Every input row, with the adjusted close the loop computed for it filled in. */
  function AdjustRows(rows: seq<Eod>): (r: seq<Eod>)
    requires GrowthDefined(rows)
    ensures |r| == |rows|
    ensures forall i :: 0 <= i < |rows| ==> SameQuoteBut(r[i], rows[i])
  {
    var closes := Walk(rows).adjusted;
    seq(|rows|, i requires 0 <= i < |rows| => rows[i].(adjClose := closes[i]))
  }

  // ---------------------------------------------------------------------------
  // Closed-form reference
  // ---------------------------------------------------------------------------

  /** Row `j` is processed with a factor of 1.0: it is the first row, its ticker
      differs from the previous row's, or the previous row's close was not positive. */
  predicate ResetAt(rows: seq<Eod>, j: int)
    requires 0 <= j < |rows|
  {
    j == 0 || rows[j].ticker != rows[j - 1].ticker || rows[j - 1].close <= 0.0
  }

  /** The last reset at or before row `i`. */
  function RunStart(rows: seq<Eod>, i: int): (j: nat)
    requires 0 <= i < |rows|
    ensures j <= i && ResetAt(rows, j)
    ensures forall k :: j < k <= i ==> !ResetAt(rows, k)
    decreases i
  {
    if ResetAt(rows, i) then i else RunStart(rows, i - 1)
  }

  /** The product of the growths of a run of rows, all with positive closes. */
  function Product(run: seq<Eod>): (p: real)
    requires forall k :: 0 <= k < |run| ==> run[k].close > 0.0 && RowGrowthDefined(run[k])
    ensures p != 0.0
  {
    if |run| == 0 then 1.0
    else
      var front, last := run[..|run| - 1], run[|run| - 1];
      GrowthNonZero(last);
      TimesNonZero(Product(front), Growth(last));
      Times(Product(front), Growth(last))
  }

  /** The rows between a row's last reset and the row itself all have positive
      closes and non-zero growths. */
  lemma RunIsPositive(rows: seq<Eod>, i: int)
    requires GrowthDefined(rows)
    requires 0 <= i < |rows|
    ensures forall k :: 0 <= k < i - RunStart(rows, i) ==>
      rows[RunStart(rows, i)..i][k].close > 0.0 && RowGrowthDefined(rows[RunStart(rows, i)..i][k])
  {
    var j := RunStart(rows, i);
    forall k | 0 <= k < i - j
      ensures rows[j..i][k].close > 0.0 && RowGrowthDefined(rows[j..i][k])
    {
      assert rows[j..i][k] == rows[j + k];
      assert !ResetAt(rows, j + k + 1);
    }
  }

  /** The factor row `i` is divided by: the product of the growths of the rows
      since its last reset. */
  function RefFactor(rows: seq<Eod>, i: int): (f: real)
    requires GrowthDefined(rows)
    requires 0 <= i < |rows|
    ensures f != 0.0
  {
    RunIsPositive(rows, i);
    Product(rows[RunStart(rows, i)..i])
  }

  /** The CRSP adjusted close of row `i`. */
  function RefAdjClose(rows: seq<Eod>, i: int): real
    requires GrowthDefined(rows)
    requires 0 <= i < |rows|
  {
    Over(rows[i].close, RefFactor(rows, i))
  }

  /** The factor the loop carries out of row `i`. */
  function RefNextFactor(rows: seq<Eod>, i: int): real
    requires GrowthDefined(rows)
    requires 0 <= i < |rows|
  {
    if rows[i].close > 0.0 then Times(RefFactor(rows, i), Growth(rows[i])) else 1.0
  }

  // ---------------------------------------------------------------------------
  // The loop computes the reference
  // ---------------------------------------------------------------------------

  /** Dropping rows after `i` does not change row `i`'s reset point. */
  lemma {:induction false} RunStartOfPrefix(rows: seq<Eod>, n: int, i: int)
    requires 0 <= i < n <= |rows|
    ensures RunStart(rows[..n], i) == RunStart(rows, i)
    decreases i
  {
    var p := rows[..n];
    assert ResetAt(p, i) == ResetAt(rows, i) by {
      assert p[i] == rows[i];
      if i > 0 {
        assert p[i - 1] == rows[i - 1];
      }
    }
    if !ResetAt(rows, i) {
      RunStartOfPrefix(rows, n, i - 1);
    }
  }

  /** Dropping rows after `i` does not change row `i`'s factor. */
  lemma RefFactorOfPrefix(rows: seq<Eod>, n: int, i: int)
    requires 0 <= i < n <= |rows|
    requires GrowthDefined(rows) && GrowthDefined(rows[..n])
    ensures RefFactor(rows[..n], i) == RefFactor(rows, i)
  {
    RunStartOfPrefix(rows, n, i);
    var j := RunStart(rows, i);
    assert rows[..n][j..i] == rows[j..i];
  }

  /** Dropping rows after `i` changes neither row `i`'s adjusted close nor the
      factor the loop carries out of it. */
  lemma RefAdjCloseOfPrefix(rows: seq<Eod>, n: int, i: int)
    requires GrowthDefined(rows)
    requires 0 <= i < n <= |rows|
    ensures GrowthDefined(rows[..n])
    ensures RefAdjClose(rows[..n], i) == RefAdjClose(rows, i)
    ensures RefNextFactor(rows[..n], i) == RefNextFactor(rows, i)
  {
    PrefixGrowthDefined(rows, n);
    RefFactorOfPrefix(rows, n, i);
    assert rows[..n][i] == rows[i];
  }

  /** The factor the loop divides the last row by is the reference factor of
      that row, given a state that carried the reference factor forward. */
  lemma LastFactorMatches(rows: seq<Eod>, s: Scan)
    requires GrowthDefined(rows)
    requires |rows| > 0
    requires s.currTicker == if |rows| == 1 then "" else rows[|rows| - 2].ticker
    requires |rows| == 1 ==> s.factor == 1.0
    requires |rows| > 1 ==> s.factor == RefNextFactor(rows, |rows| - 2)
    ensures FactorFor(s, rows[|rows| - 1]) == RefFactor(rows, |rows| - 1)
  {
    var n := |rows|;
    if ResetAt(rows, n - 1) {
      assert RunStart(rows, n - 1) == n - 1;
      assert rows[n - 1..n - 1] == [];
    } else {
      var j := RunStart(rows, n - 1);
      assert RunStart(rows, n - 2) == j;
      RunIsPositive(rows, n - 1);
      RunIsPositive(rows, n - 2);
      var run := rows[j..n - 1];
      assert run[..|run| - 1] == rows[j..n - 2];
      assert run[|run| - 1] == rows[n - 2];
    }
  }

  /** A loop state that agrees with the reference on the first `n - 1` rows still
      agrees with it after the loop body runs on row `n - 1`. */
  predicate AgreesWithReference(rows: seq<Eod>, s: Scan, n: int)
    requires GrowthDefined(rows)
    requires 0 <= n <= |rows|
  {
    && |s.adjusted| == n
    && (forall i :: 0 <= i < n ==> s.adjusted[i] == RefAdjClose(rows, i))
    && s.currTicker == (if n == 0 then "" else rows[n - 1].ticker)
    && s.factor == (if n == 0 then 1.0 else RefNextFactor(rows, n - 1))
  }

  lemma StepMatchesReference(rows: seq<Eod>, s: Scan)
    requires GrowthDefined(rows)
    requires |rows| > 0
    requires AgreesWithReference(rows, s, |rows| - 1)
    ensures s.factor != 0.0
    ensures AgreesWithReference(rows, Step(s, rows[|rows| - 1]), |rows|)
  {
    var n := |rows|;
    if n > 1 && rows[n - 2].close > 0.0 {
      GrowthNonZero(rows[n - 2]);
    }
    LastFactorMatches(rows, s);
    var t := Step(s, rows[n - 1]);
    forall i | 0 <= i < n
      ensures t.adjusted[i] == RefAdjClose(rows, i)
    {
      if i < n - 1 {
        assert t.adjusted[i] == s.adjusted[i];
      }
    }
  }

  /** A state that agrees with the reference on the first `n` rows of `rows` agrees
      with it on `rows[..n]`, and conversely. */
  lemma AgreementOfPrefix(rows: seq<Eod>, s: Scan, n: int)
    requires GrowthDefined(rows)
    requires 0 <= n <= |rows|
    ensures GrowthDefined(rows[..n])
    ensures AgreesWithReference(rows[..n], s, n) <==> AgreesWithReference(rows, s, n)
  {
    PrefixGrowthDefined(rows, n);
    forall i | 0 <= i < n
      ensures RefAdjClose(rows[..n], i) == RefAdjClose(rows, i)
    {
      RefAdjCloseOfPrefix(rows, n, i);
    }
    if n > 0 {
      RefAdjCloseOfPrefix(rows, n, n - 1);
    }
  }

  /** Each row the loop emits carries the CRSP adjusted close, and the factor it
      carries forward is the reference factor of the last row. */
  lemma {:induction false} WalkMatchesReference(rows: seq<Eod>)
    requires GrowthDefined(rows)
    ensures AgreesWithReference(rows, Walk(rows), |rows|)
  {
    if |rows| > 0 {
      var n := |rows|;
      var front := rows[..n - 1];
      PrefixGrowthDefined(rows, n - 1);
      WalkMatchesReference(front);
      AgreementOfPrefix(rows, Walk(front), n - 1);
      StepMatchesReference(rows, Walk(front));
    }
  }

  /** The loop's output, row by row: the input row with its CRSP adjusted close. */
  lemma AdjustRowsIsReference(rows: seq<Eod>)
    requires GrowthDefined(rows)
    ensures forall i :: 0 <= i < |rows| ==> AdjustRows(rows)[i].adjClose == RefAdjClose(rows, i)
  {
    WalkMatchesReference(rows);
  }

  // ---------------------------------------------------------------------------
  // Properties
  // ---------------------------------------------------------------------------

  /** The first row of every ticker group is left unadjusted, and so is the row
      right after a row whose close was not positive. */
  lemma ResetRowUnadjusted(rows: seq<Eod>, i: int)
    requires GrowthDefined(rows)
    requires 0 <= i < |rows|
    requires i == 0 || rows[i].ticker != rows[i - 1].ticker || rows[i - 1].close <= 0.0
    ensures AdjustRows(rows)[i].adjClose == rows[i].close
  {
    AdjustRowsIsReference(rows);
    assert RunStart(rows, i) == i;
    assert rows[i..i] == [];
  }

  /** Two row sequences that agree on every ticker and close, and on every row
      before `i`, give row `i` the same reset point and the same factor. */
  lemma {:induction false} RefFactorSeesOnlyEarlierRows(rows: seq<Eod>, rows': seq<Eod>, i: int)
    requires GrowthDefined(rows) && GrowthDefined(rows')
    requires |rows'| == |rows| && 0 <= i < |rows|
    requires forall k :: 0 <= k < |rows| ==> rows'[k].ticker == rows[k].ticker && rows'[k].close == rows[k].close
    requires forall k :: 0 <= k < i ==> rows'[k] == rows[k]
    ensures RunStart(rows', i) == RunStart(rows, i)
    ensures RefAdjClose(rows', i) == RefAdjClose(rows, i)
    decreases i
  {
    if !ResetAt(rows, i) {
      RefFactorSeesOnlyEarlierRows(rows, rows', i - 1);
    }
    var j := RunStart(rows, i);
    assert rows'[j..i] == rows[j..i];
  }

  /** A row's own dividend and split factor do not affect its own adjusted close,
      nor that of any row processed before it. */
  lemma OwnEventsDoNotAdjustOwnClose(rows: seq<Eod>, i: int, dividend: real, splitFactor: real)
    requires GrowthDefined(rows)
    requires 0 <= i < |rows|
    requires GrowthDefined(rows[i := rows[i].(dividend := dividend, splitFactor := splitFactor)])
    ensures forall j :: 0 <= j <= i ==>
      AdjustRows(rows[i := rows[i].(dividend := dividend, splitFactor := splitFactor)])[j].adjClose
        == AdjustRows(rows)[j].adjClose
  {
    var rows' := rows[i := rows[i].(dividend := dividend, splitFactor := splitFactor)];
    forall j | 0 <= j <= i
      ensures RefAdjClose(rows', j) == RefAdjClose(rows, j)
    {
      RefFactorSeesOnlyEarlierRows(rows, rows', j);
    }
    AdjustRowsIsReference(rows);
    AdjustRowsIsReference(rows');
  }

  /** Row `j` of `b` has the same reset point inside `a + b` as in `b` alone,
      when `b` starts with a new ticker. */
  lemma {:induction false} RunStartOfSuffix(a: seq<Eod>, b: seq<Eod>, j: int)
    requires |b| > 0 && (|a| == 0 || b[0].ticker != a[|a| - 1].ticker)
    requires 0 <= j < |b|
    ensures RunStart(a + b, |a| + j) == |a| + RunStart(b, j)
    decreases j
  {
    var ab := a + b;
    assert ResetAt(ab, |a| + j) == ResetAt(b, j) by {
      if j > 0 {
        assert ab[|a| + j] == b[j] && ab[|a| + j - 1] == b[j - 1];
      } else if |a| > 0 {
        assert ab[|a|] == b[0] && ab[|a| - 1] == a[|a| - 1];
      }
    }
    if j > 0 && !ResetAt(b, j) {
      RunStartOfSuffix(a, b, j - 1);
    }
  }

  /** Row `j` of `b` has the same adjusted close inside `a + b` as in `b` alone,
      when `b` starts with a new ticker. */
  lemma RefFactorOfSuffix(a: seq<Eod>, b: seq<Eod>, j: int)
    requires GrowthDefined(b) && GrowthDefined(a + b)
    requires |b| > 0 && (|a| == 0 || b[0].ticker != a[|a| - 1].ticker)
    requires 0 <= j < |b|
    ensures RefAdjClose(a + b, |a| + j) == RefAdjClose(b, j)
  {
    var ab := a + b;
    RunStartOfSuffix(a, b, j);
    var s := RunStart(b, j);
    SliceOfSuffix(a, b, s, j);
    assert ab[|a| + j] == b[j];
  }

  /** A slice of the back of `a + b` is the same slice of `b`. */
  lemma SliceOfSuffix(a: seq<Eod>, b: seq<Eod>, lo: int, hi: int)
    requires 0 <= lo <= hi <= |b|
    ensures (a + b)[|a| + lo..|a| + hi] == b[lo..hi]
  {
    var x, y := (a + b)[|a| + lo..|a| + hi], b[lo..hi];
    assert |x| == |y|;
    forall k | 0 <= k < |x|
      ensures x[k] == y[k]
    {
      assert x[k] == (a + b)[|a| + lo + k];
    }
  }

  /** Row `i` of the loop's output is input row `i` carrying its CRSP adjusted close. */
  lemma AdjustedRowAt(rows: seq<Eod>, i: int)
    requires GrowthDefined(rows)
    requires 0 <= i < |rows|
    ensures AdjustRows(rows)[i] == rows[i].(adjClose := RefAdjClose(rows, i))
  {
    WalkMatchesReference(rows);
  }

  /** The rows of `a` come out of `a + b` as they come out of `a` alone. */
  lemma SeparateTickersFront(a: seq<Eod>, b: seq<Eod>, i: int)
    requires GrowthDefined(a) && GrowthDefined(a + b)
    requires 0 <= i < |a|
    ensures AdjustRows(a + b)[i] == AdjustRows(a)[i]
  {
    var ab := a + b;
    assert ab[..|a|] == a && ab[i] == a[i];
    RefAdjCloseOfPrefix(ab, |a|, i);
    AdjustedRowAt(ab, i);
    AdjustedRowAt(a, i);
  }

  /** The rows of `b` come out of `a + b` as they come out of `b` alone, when
      `b` starts with a new ticker. */
  lemma SeparateTickersBack(a: seq<Eod>, b: seq<Eod>, k: int)
    requires GrowthDefined(b) && GrowthDefined(a + b)
    requires |a| == 0 || |b| == 0 || b[0].ticker != a[|a| - 1].ticker
    requires |a| <= k < |a| + |b|
    ensures AdjustRows(a + b)[k] == AdjustRows(b)[k - |a|]
  {
    var ab, j := a + b, k - |a|;
    assert ab[k] == b[j] && |a| + j == k;
    assert RefAdjClose(ab, k) == RefAdjClose(b, j) by {
      RefFactorOfSuffix(a, b, j);
    }
    AdjustedRowAt(ab, k);
    AdjustedRowAt(b, j);
  }

  /** Adjustment of one ticker's rows is independent of the rows after them:
      the rows of `a` come out of `a + b` as they come out of `a` alone. */
  lemma EarlierGroupUnaffected(a: seq<Eod>, b: seq<Eod>)
    requires GrowthDefined(a) && GrowthDefined(a + b)
    ensures forall i :: 0 <= i < |a| ==> AdjustRows(a + b)[i] == AdjustRows(a)[i]
  {
    forall i | 0 <= i < |a|
      ensures AdjustRows(a + b)[i] == AdjustRows(a)[i]
    {
      SeparateTickersFront(a, b, i);
    }
  }

  /** Adjustment of one ticker's rows is independent of the rows before them:
      when `b` starts with a new ticker, the rows of `b` come out of `a + b` as
      they come out of `b` alone. */
  lemma LaterGroupUnaffected(a: seq<Eod>, b: seq<Eod>)
    requires GrowthDefined(b) && GrowthDefined(a + b)
    requires |a| == 0 || |b| == 0 || b[0].ticker != a[|a| - 1].ticker
    ensures forall k :: |a| <= k < |a| + |b| ==> AdjustRows(a + b)[k] == AdjustRows(b)[k - |a|]
  {
    forall k | |a| <= k < |a| + |b|
      ensures AdjustRows(a + b)[k] == AdjustRows(b)[k - |a|]
    {
      SeparateTickersBack(a, b, k);
    }
  }

  /** With every growth equal to 1.0, the product over any run is 1.0. */
  lemma {:induction false} UnitGrowthProduct(run: seq<Eod>)
    requires forall k :: 0 <= k < |run| ==> run[k].close > 0.0 && run[k].dividend == 0.0 && run[k].splitFactor == 1.0
    ensures Product(run) == 1.0
  {
    if |run| > 0 {
      var front := run[..|run| - 1];
      assert forall k :: 0 <= k < |front| ==> front[k] == run[k];
      UnitGrowthProduct(front);
      UnitGrowth(run[|run| - 1]);
    }
  }

  /** A row without dividend or split has growth 1.0. */
  lemma UnitGrowth(row: Eod)
    requires row.close > 0.0 && row.dividend == 0.0 && row.splitFactor == 1.0
    ensures Growth(row) == 1.0
  {
    assert Over(row.dividend, row.close) == 0.0;
  }

  /** Without dividends or splits nothing is adjusted. */
  lemma NoEventsNoAdjustment(rows: seq<Eod>)
    requires forall i :: 0 <= i < |rows| ==> rows[i].dividend == 0.0 && rows[i].splitFactor == 1.0
    ensures GrowthDefined(rows)
    ensures forall i :: 0 <= i < |rows| ==> AdjustRows(rows)[i].adjClose == rows[i].close
  {
    forall i | 0 <= i < |rows| && rows[i].close > 0.0
      ensures Growth(rows[i]) == 1.0
    {
      UnitGrowth(rows[i]);
    }
    AdjustRowsIsReference(rows);
    forall i | 0 <= i < |rows|
      ensures RefFactor(rows, i) == 1.0
    {
      RunIsPositive(rows, i);
      var j := RunStart(rows, i);
      assert forall k :: 0 <= k < i - j ==> rows[j..i][k] == rows[j + k];
      UnitGrowthProduct(rows[j..i]);
    }
  }
}

/** The worked examples of eod/eod_test.go: four rows of one asset, all with a
    close of 1.0, processed in the order given (the first row counts as newest). */
module AdjustExamples {
  import opened EodTypes
  import opened Adjust

  /** A row of the test asset on day `day` of January 2021. */
  function TestRow(day: int, dividend: real, splitFactor: real): Eod {
    Eod(day, "TEST", "TEST", 1.0, 0.0, dividend, splitFactor)
  }

  /** The shape of the test cases: one asset with a close of 1.0 on every row
      and no event on the first row. Nothing is reset after the first row, so
      the first two rows keep their close and the third is divided by the
      growth of the second alone (1.25 for a 0.25 dividend, 2 for a 2:1 split,
      4 for both a 1.0 dividend and a 2:1 split). */
  lemma FirstThreeRows(rows: seq<Eod>)
    requires |rows| == 4 && GrowthDefined(rows)
    requires forall i :: 0 <= i < 4 ==> rows[i].ticker == rows[0].ticker && rows[i].close == 1.0
    requires rows[0].dividend == 0.0 && rows[0].splitFactor == 1.0
    ensures Growth(rows[1]) != 0.0
    ensures AdjustRows(rows)[0].adjClose == 1.0 && AdjustRows(rows)[1].adjClose == 1.0
    ensures AdjustRows(rows)[2].adjClose == Over(1.0, Growth(rows[1]))
  {
    UnitGrowth(rows[0]);
    GrowthNonZero(rows[1]);
    assert RunStart(rows, 0) == 0 && RunStart(rows, 1) == 0 && RunStart(rows, 2) == 0;
    assert rows[0..1][..0] == [] && rows[0..1][0] == rows[0];
    assert rows[0..2][..1] == rows[0..1] && rows[0..2][1] == rows[1];
    assert Product(rows[0..1]) == 1.0 by {
      assert Product(rows[0..1]) == Times(Product(rows[0..0]), Growth(rows[0]));
    }
    assert Product(rows[0..2]) == Growth(rows[1]) by {
      assert Product(rows[0..2]) == Times(Product(rows[0..1]), Growth(rows[1]));
    }
    AdjustedRowAt(rows, 0);
    AdjustedRowAt(rows, 1);
    AdjustedRowAt(rows, 2);
  }

  /** Rows of the test asset on four consecutive days, with the dividend and
      split of the second day given; every growth is defined. */
  lemma TestSeries(rows: seq<Eod>, dividend: real, splitFactor: real)
    requires dividend >= 0.0 && splitFactor > 0.0
    requires rows == [TestRow(1, 0.0, 1.0), TestRow(2, dividend, splitFactor), TestRow(3, 0.0, 1.0), TestRow(4, 0.0, 1.0)]
    ensures GrowthDefined(rows)
    ensures forall i :: 0 <= i < 4 ==> rows[i].ticker == rows[0].ticker && rows[i].close == 1.0
    ensures rows[0].dividend == 0.0 && rows[0].splitFactor == 1.0
    ensures rows[1].close == 1.0 && rows[1].dividend == dividend && rows[1].splitFactor == splitFactor
  {
    forall i | 0 <= i < 4
      ensures RowGrowthDefined(rows[i]) && rows[i].ticker == rows[0].ticker && rows[i].close == 1.0
    {
      assert i == 0 || i == 1 || i == 2 || i == 3;
    }
  }

  /** A row with a close of 1.0 whose growth is `g` divides later closes of 1.0 into `v`. */
  lemma TestRowGrowth(row: Eod, dividend: real, splitFactor: real, g: real, v: real)
    requires row.close == 1.0 && row.dividend == dividend && row.splitFactor == splitFactor
    requires (1.0 + dividend) * splitFactor == g && g * v == 1.0
    ensures Growth(row) == g && g != 0.0 && Over(1.0, g) == v
  {
    assert Over(dividend, 1.0) == dividend;
  }

  /** A 0.25 dividend on the second day: the third day's close is 1.0 / 1.25. */
  lemma DividendExample(rows: seq<Eod>)
    requires rows == [TestRow(1, 0.0, 1.0), TestRow(2, 0.25, 1.0), TestRow(3, 0.0, 1.0), TestRow(4, 0.0, 1.0)]
    ensures GrowthDefined(rows)
    ensures AdjustRows(rows)[0].adjClose == 1.0 && AdjustRows(rows)[1].adjClose == 1.0
    ensures AdjustRows(rows)[2].adjClose == 0.8
  {
    TestSeries(rows, 0.25, 1.0);
    FirstThreeRows(rows);
    assert Growth(rows[1]) == 1.25 && Over(1.0, 1.25) == 0.8 by {
      TestRowGrowth(rows[1], 0.25, 1.0, 1.25, 0.8);
    }
  }

  /** A 2:1 split on the second day: the third day's close is halved. */
  lemma SplitExample(rows: seq<Eod>)
    requires rows == [TestRow(1, 0.0, 1.0), TestRow(2, 0.0, 2.0), TestRow(3, 0.0, 1.0), TestRow(4, 0.0, 1.0)]
    ensures GrowthDefined(rows)
    ensures AdjustRows(rows)[0].adjClose == 1.0 && AdjustRows(rows)[1].adjClose == 1.0
    ensures AdjustRows(rows)[2].adjClose == 0.5
  {
    TestSeries(rows, 0.0, 2.0);
    FirstThreeRows(rows);
    assert Growth(rows[1]) == 2.0 && Over(1.0, 2.0) == 0.5 by {
      TestRowGrowth(rows[1], 0.0, 2.0, 2.0, 0.5);
    }
  }

  /** A 1.0 dividend and a 2:1 split on the second day: the third day's close
      is 1.0 / ((1 + 1.0) * 2). */
  lemma SplitAndDividendExample(rows: seq<Eod>)
    requires rows == [TestRow(1, 0.0, 1.0), TestRow(2, 1.0, 2.0), TestRow(3, 0.0, 1.0), TestRow(4, 0.0, 1.0)]
    ensures GrowthDefined(rows)
    ensures AdjustRows(rows)[0].adjClose == 1.0 && AdjustRows(rows)[1].adjClose == 1.0
    ensures AdjustRows(rows)[2].adjClose == 0.25
  {
    TestSeries(rows, 1.0, 2.0);
    FirstThreeRows(rows);
    assert Growth(rows[1]) == 4.0 && Over(1.0, 4.0) == 0.25 by {
      TestRowGrowth(rows[1], 1.0, 2.0, 4.0, 0.25);
    }
  }

  /** Without dividends or splits all four rows keep their close. */
  lemma NoEventsExample(rows: seq<Eod>)
    requires rows == [TestRow(1, 0.0, 1.0), TestRow(2, 0.0, 1.0), TestRow(3, 0.0, 1.0), TestRow(4, 0.0, 1.0)]
    ensures GrowthDefined(rows)
    ensures forall i :: 0 <= i < 4 ==> AdjustRows(rows)[i].adjClose == 1.0
  {
    NoEventsNoAdjustment(rows);
  }
}
