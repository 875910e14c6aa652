/** The pure part of `getComponentPctChange` (eod/synthetic.go): which series a
    component reads, the file branch's ratio loop, and the database branch's
    LAG query with its NULL filter. Opening files, connecting to the database
    and decoding CSV are replaced by a `World` that maps each file name to
    the parsed `(date, adjClose)` series and each composite FIGI to its stored
    rows, whose adjusted close may be NULL; the map lacks the key when reading
    it fails. */
module PercentChanges {
  import opened Wrappers
  import opened EodTypes

  // ---------------------------------------------------------------------------
  // Source selection
  // ---------------------------------------------------------------------------

  /** Where a component's percent changes come from. */
  datatype Source = FileSeries(path: string) | DbSeries(figi: string) | Misconfigured

  /** A non-empty file name wins over the composite FIGI; with neither set the
      component is misconfigured. */
  function SourceOf(c: SyntheticComponent): (src: Source)
    ensures src.FileSeries? <==> c.fileName != ""
    ensures src.FileSeries? ==> src.path == c.fileName
    ensures src.DbSeries? ==> src.figi == c.compositeFigi && src.figi != ""
    ensures src == Misconfigured <==> c.fileName == "" && c.compositeFigi == ""
  {
    if c.fileName != "" then FileSeries(c.fileName)
    else if c.compositeFigi != "" then DbSeries(c.compositeFigi)
    else Misconfigured
  }

  /** The outcome of reading a series: a missing file or database series, or a
      component that names neither. */
  datatype FetchError = FileUnreadable(path: string) | DbUnavailable(figi: string) | Misspecified

  /** A row of the `eod` table as the database branch reads it: its date and
      its adjusted close, which is NULL until the adjustment has run. */
  datatype StoredPoint = StoredPoint(date: int, adjClose: Option<real>)

  /** The parsed series behind every file, and the stored series behind every
      composite FIGI, that can be read. */
  datatype World = World(files: map<string, seq<PricePoint>>, db: map<string, seq<StoredPoint>>)

  /** What `getComponentPctChange` returns: its list of changes and its error. */
  datatype Fetched = Fetched(changes: seq<PercentChange>, err: Option<FetchError>)

  // ---------------------------------------------------------------------------
  // Ratios
  // ---------------------------------------------------------------------------

  /** Every adjusted close that some later point is divided by is non-zero. */
  predicate RatiosDefined(series: seq<PricePoint>) {
    forall i :: 0 <= i < |series| - 1 ==> series[i].adjClose != 0.0
  }

  /** Every non-NULL stored adjusted close that some later row is divided by is non-zero. */
  predicate StoredRatiosDefined(stored: seq<StoredPoint>) {
    forall i :: 0 <= i < |stored| - 1 && stored[i].adjClose.Some? ==> stored[i].adjClose.value != 0.0
  }

  /** Every series the world holds has defined ratios. */
  predicate WorldRatiosDefined(w: World) {
    && (forall p :: p in w.files ==> RatiosDefined(w.files[p]))
    && (forall f :: f in w.db ==> StoredRatiosDefined(w.db[f]))
  }

  /** A parsed series as the database would store it, every adjusted close present. */
  function Stored(series: seq<PricePoint>): seq<StoredPoint> {
    seq(|series|, i requires 0 <= i < |series| => StoredPoint(series[i].date, Some(series[i].adjClose)))
  }

  /** The change a point makes over its predecessor: dated like the point, with
      the ratio of the two adjusted closes. */
  function RatioOver(prev: PricePoint, point: PricePoint): PercentChange
    requires prev.adjClose != 0.0
  {
    PercentChange(point.date, Over(point.adjClose, prev.adjClose))
  }

  /** The file branch's loop, carrying the previous point's adjusted close in
      `last`. The point that has no predecessor yields no change. */
  function FileLoop(series: seq<PricePoint>, last: Option<real>): (r: seq<PercentChange>)
    requires RatiosDefined(series)
    requires last.Some? && |series| > 0 ==> last.value != 0.0
    ensures |r| == if last.Some? then |series| else if |series| == 0 then 0 else |series| - 1
    decreases |series|
  {
    if |series| == 0 then []
    else
      var point := series[0];
      var change := if last.Some? then [PercentChange(point.date, Over(point.adjClose, last.value))] else [];
      change + FileLoop(series[1..], Some(point.adjClose))
  }

  /** The changes the file branch derives from a parsed file. */
  function FileRatios(series: seq<PricePoint>): (r: seq<PercentChange>)
    requires RatiosDefined(series)
    ensures |r| == if |series| == 0 then 0 else |series| - 1
  {
    FileLoop(series, None)
  }

  // ---------------------------------------------------------------------------
  // The file branch as written
  // ---------------------------------------------------------------------------

  /** A float quotient: a real number, or the infinity or NaN that dividing
      `numerator` by zero yields. */
  datatype Quotient = Finite(value: real) | DividedByZero(numerator: real)

  /** Float division of `x` by `y`. */
  function Divide(x: real, y: real): (q: Quotient)
    ensures q.DividedByZero? <==> y == 0.0
    ensures q.Finite? ==> Times(q.value, y) == x
  {
    if y == 0.0 then DividedByZero(x) else Finite(Over(x, y))
  }

  /** The file branch's loop as written: `last` starts at 0.0 and every point,
      the first included, becomes a change holding its adjusted close divided
      by `last`. */
  function FileLoopAsWritten(series: seq<PricePoint>, last: real): (r: seq<(int, Quotient)>)
    ensures |r| == |series|
    decreases |series|
  {
    if |series| == 0 then []
    else
      var point := series[0];
      [(point.date, Divide(point.adjClose, last))] + FileLoopAsWritten(series[1..], point.adjClose)
  }

  /** The file branch's changes as written. */
  function FileChangesAsWritten(series: seq<PricePoint>): (r: seq<(int, Quotient)>)
    ensures |r| == |series|
  {
    FileLoopAsWritten(series, 0.0)
  }

  /** Change `i` of the loop as written, for `i > 0`, is point `i` over point `i - 1`. */
  lemma {:induction false} FileLoopAsWrittenLater(series: seq<PricePoint>, last: real, i: int)
    requires 0 < i < |series|
    ensures FileLoopAsWritten(series, last)[i] == (series[i].date, Divide(series[i].adjClose, series[i - 1].adjClose))
    decreases |series|
  {
    var tail := series[1..];
    assert FileLoopAsWritten(series, last)[i] == FileLoopAsWritten(tail, series[0].adjClose)[i - 1];
    if i > 1 {
      FileLoopAsWrittenLater(tail, series[0].adjClose, i - 1);
      assert tail[i - 1] == series[i] && tail[i - 2] == series[i - 1];
    }
  }

  /** As written, the file branch divides the first point by zero and keeps
      the result: it returns one change more than the corrected `FileRatios`,
      and the changes after that first one are exactly the corrected ones. */
  lemma FileAsWrittenDividesByZero(series: seq<PricePoint>)
    requires RatiosDefined(series)
    requires |series| > 0
    ensures FileChangesAsWritten(series)[0] == (series[0].date, DividedByZero(series[0].adjClose))
    ensures |FileChangesAsWritten(series)| == |FileRatios(series)| + 1
    ensures forall i :: 0 <= i < |series| - 1 ==>
      FileChangesAsWritten(series)[i + 1] == (FileRatios(series)[i].date, Finite(FileRatios(series)[i].percent))
  {
    FileRatiosChanges(series);
    forall i | 0 <= i < |series| - 1
      ensures FileChangesAsWritten(series)[i + 1] == (FileRatios(series)[i].date, Finite(FileRatios(series)[i].percent))
    {
      FileLoopAsWrittenLater(series, 0.0, i + 1);
    }
  }

  /** A two-line file: as written, its first line becomes a change dividing
      100.0 by zero, where the corrected branch and the database branch yield
      the single change of the second line. */
  lemma FileAsWrittenExample(series: seq<PricePoint>)
    requires series == [PricePoint(1, 100.0), PricePoint(2, 110.0)]
    ensures FileChangesAsWritten(series)[0] == (1, DividedByZero(100.0))
    ensures |FileChangesAsWritten(series)| == 2
    ensures |FileRatios(series)| == 1 && FileRatios(series)[0].date == 2
  {
    FileAsWrittenDividesByZero(series);
    FileRatiosChanges(series);
    assert |series| - 1 == 1 && series[1].date == 2;
  }

  /** The rows of the database query, in ascending date order: each date with
      the ratio of its adjusted close to the one before it. The ratio is NULL
      on the first row, which `LAG` gives no predecessor, and wherever either
      adjusted close is NULL. */
  function LagQuery(stored: seq<StoredPoint>): (rows: seq<(int, Option<real>)>)
    requires StoredRatiosDefined(stored)
    ensures |rows| == |stored|
    ensures forall i {:trigger rows[i]} :: 0 <= i < |rows| ==> rows[i].0 == stored[i].date
    ensures forall i {:trigger rows[i]} :: 0 <= i < |rows| ==>
      (rows[i].1.Some? <==> 0 < i && stored[i].adjClose.Some? && stored[i - 1].adjClose.Some?)
  {
    seq(|stored|, i requires 0 <= i < |stored| =>
      (stored[i].date,
       if 0 < i && stored[i].adjClose.Some? && stored[i - 1].adjClose.Some?
       then Some(Over(stored[i].adjClose.value, stored[i - 1].adjClose.value))
       else None))
  }

  /** A row whose adjusted close and predecessor's are both present holds the
      ratio of the two. */
  lemma LagQueryRatio(stored: seq<StoredPoint>, i: int)
    requires StoredRatiosDefined(stored)
    requires 0 < i < |stored| && stored[i].adjClose.Some? && stored[i - 1].adjClose.Some?
    ensures LagQuery(stored)[i].1 == Some(Over(stored[i].adjClose.value, stored[i - 1].adjClose.value))
  {
  }

  /** The positions of the rows whose ratio is not NULL (in increasing order,
      by `NonNullRowsInOrder`). */
  function NonNullRows(rows: seq<(int, Option<real>)>): (idx: seq<int>)
    ensures |idx| <= |rows|
    ensures forall k :: 0 <= k < |idx| ==> 0 <= idx[k] < |rows| && rows[idx[k]].1.Some?
    decreases |rows|
  {
    if |rows| == 0 then []
    else
      var front := NonNullRows(rows[..|rows| - 1]);
      if rows[|rows| - 1].1.Some? then front + [|rows| - 1] else front
  }

  /** `NonNullRows` lists every row with a non-NULL ratio, each once, in increasing order. */
  lemma {:induction false} NonNullRowsInOrder(rows: seq<(int, Option<real>)>)
    ensures forall k, m :: 0 <= k < m < |NonNullRows(rows)| ==> NonNullRows(rows)[k] < NonNullRows(rows)[m]
    ensures forall i :: 0 <= i < |rows| && rows[i].1.Some? ==> i in NonNullRows(rows)
    decreases |rows|
  {
    if |rows| > 0 {
      var n := |rows|;
      var front := rows[..n - 1];
      NonNullRowsInOrder(front);
      var idx, fidx := NonNullRows(rows), NonNullRows(front);
      assert idx == if rows[n - 1].1.Some? then fidx + [n - 1] else fidx;
      forall i | 0 <= i < n && rows[i].1.Some?
        ensures i in idx
      {
        if i < n - 1 {
          assert front[i] == rows[i];
        }
      }
    }
  }

  /** The scan loop over the query's rows: exactly the rows with a non-NULL
      ratio become changes, in order, each with its date and ratio. */
  function DropNullRatios(rows: seq<(int, Option<real>)>): (r: seq<PercentChange>)
    ensures |r| == |NonNullRows(rows)|
    ensures forall k :: 0 <= k < |r| ==>
      r[k] == PercentChange(rows[NonNullRows(rows)[k]].0, rows[NonNullRows(rows)[k]].1.value)
    decreases |rows|
  {
    if |rows| == 0 then []
    else
      var front := DropNullRatios(rows[..|rows| - 1]);
      var (date, ratio) := rows[|rows| - 1];
      if ratio.Some? then front + [PercentChange(date, ratio.value)] else front
  }

  /** The changes the database branch reads for a stored series. */
  function DbRatios(stored: seq<StoredPoint>): seq<PercentChange>
    requires StoredRatiosDefined(stored)
  {
    DropNullRatios(LagQuery(stored))
  }

  // ---------------------------------------------------------------------------
  // getComponentPctChange
  // ---------------------------------------------------------------------------

  /** The percent changes of a component, or the error that stops its reading.
      Every error comes with an empty list. */
  function PctChange(c: SyntheticComponent, w: World): (f: Fetched)
    requires WorldRatiosDefined(w)
    ensures f.err.Some? ==> f.changes == []
    ensures f.err.None? <==>
      (c.fileName != "" && c.fileName in w.files) || (c.fileName == "" && c.compositeFigi in w.db && c.compositeFigi != "")
    ensures c.fileName == "" && c.compositeFigi == "" ==> f.err == Some(Misspecified)
  {
    match SourceOf(c)
    case FileSeries(path) =>
      if path in w.files then Fetched(FileRatios(w.files[path]), None)
      else Fetched([], Some(FileUnreadable(path)))
    case DbSeries(figi) =>
      if figi in w.db then Fetched(DbRatios(w.db[figi]), None)
      else Fetched([], Some(DbUnavailable(figi)))
    case Misconfigured =>
      Fetched([], Some(Misspecified))
  }

  // ---------------------------------------------------------------------------
  // Properties
  // ---------------------------------------------------------------------------

  /** The file branch, change by change: change `i` carries the date of point
      `i + 1` and the ratio of its adjusted close to point `i`'s, in file order. */
  lemma {:induction false} FileLoopChanges(series: seq<PricePoint>, last: Option<real>)
    requires RatiosDefined(series)
    requires last.Some? && |series| > 0 ==> last.value != 0.0
    ensures last.None? ==> forall i :: 0 <= i < |series| - 1 ==>
      FileLoop(series, last)[i] == RatioOver(series[i], series[i + 1])
    ensures last.Some? && |series| > 0 ==>
      FileLoop(series, last)[0] == PercentChange(series[0].date, Over(series[0].adjClose, last.value))
    ensures last.Some? ==> forall i :: 0 < i < |series| ==>
      FileLoop(series, last)[i] == RatioOver(series[i - 1], series[i])
    decreases |series|
  {
    if |series| > 1 {
      var tail := series[1..];
      assert RatiosDefined(tail) by {
        forall i | 0 <= i < |tail| - 1
          ensures tail[i].adjClose != 0.0
        {
          assert tail[i] == series[i + 1];
        }
      }
      FileLoopChanges(tail, Some(series[0].adjClose));
      var r := FileLoop(series, last);
      var rest := FileLoop(tail, Some(series[0].adjClose));
      if last.None? {
        assert r == rest;
        forall i | 0 <= i < |series| - 1
          ensures r[i] == RatioOver(series[i], series[i + 1])
        {
          if i > 0 {
            assert tail[i - 1] == series[i] && tail[i] == series[i + 1];
          }
        }
      } else {
        var head := [PercentChange(series[0].date, Over(series[0].adjClose, last.value))];
        assert r == head + rest;
        forall i | 0 < i < |series|
          ensures r[i] == RatioOver(series[i - 1], series[i])
        {
          assert r[i] == rest[i - 1];
          if i > 1 {
            assert tail[i - 2] == series[i - 1] && tail[i - 1] == series[i];
          }
        }
      }
    }
  }

  /** The file branch's changes, as an independent statement: one per point
      after the first, each dated like its point and holding the ratio to the
      point before. */
  lemma FileRatiosChanges(series: seq<PricePoint>)
    requires RatiosDefined(series)
    ensures |FileRatios(series)| == if |series| == 0 then 0 else |series| - 1
    ensures forall i :: 0 <= i < |series| - 1 ==>
      FileRatios(series)[i] == PercentChange(series[i + 1].date, Over(series[i + 1].adjClose, series[i].adjClose))
  {
    FileLoopChanges(series, None);
  }

  /** The NULL filter on rows whose first ratio alone is NULL keeps every row
      after the first, in order. */
  lemma {:induction false} DropLeadingNull(rows: seq<(int, Option<real>)>)
    requires |rows| > 0 && rows[0].1.None?
    requires forall i :: 0 < i < |rows| ==> rows[i].1.Some?
    ensures |DropNullRatios(rows)| == |rows| - 1
    ensures forall i :: 0 <= i < |rows| - 1 ==>
      DropNullRatios(rows)[i] == PercentChange(rows[i + 1].0, rows[i + 1].1.value)
    decreases |rows|
  {
    var n := |rows|;
    var front := rows[..n - 1];
    if n == 1 {
      assert front == [];
    } else {
      assert front[0] == rows[0];
      assert forall i :: 0 < i < |front| ==> front[i] == rows[i];
      DropLeadingNull(front);
      var r := DropNullRatios(rows);
      assert r == DropNullRatios(front) + [PercentChange(rows[n - 1].0, rows[n - 1].1.value)];
      forall i | 0 <= i < n - 1
        ensures r[i] == PercentChange(rows[i + 1].0, rows[i + 1].1.value)
      {
        if i < n - 2 {
          assert front[i + 1] == rows[i + 1];
        }
      }
    }
  }

  /** A row with a NULL ratio is not among `NonNullRows`, so the list is shorter than the rows. */
  lemma {:induction false} OneNullRow(rows: seq<(int, Option<real>)>, a: int)
    requires 0 <= a < |rows| && rows[a].1.None?
    ensures |NonNullRows(rows)| <= |rows| - 1
    decreases |rows|
  {
    var n := |rows|;
    var front := rows[..n - 1];
    if a < n - 1 {
      assert front[a] == rows[a];
      OneNullRow(front, a);
    } else {
      assert NonNullRows(rows) == NonNullRows(front);
    }
  }

  /** Two rows with NULL ratios leave at most `|rows| - 2` non-NULL rows. */
  lemma {:induction false} TwoNullRows(rows: seq<(int, Option<real>)>, a: int, b: int)
    requires 0 <= a < b < |rows| && rows[a].1.None? && rows[b].1.None?
    ensures |NonNullRows(rows)| <= |rows| - 2
    decreases |rows|
  {
    var n := |rows|;
    var front := rows[..n - 1];
    assert front[a] == rows[a];
    if b < n - 1 {
      assert front[b] == rows[b];
      TwoNullRows(front, a, b);
    } else {
      assert NonNullRows(rows) == NonNullRows(front);
      OneNullRow(front, a);
    }
  }

  /** A NULL adjusted close nulls the ratio on its own row and on the next one, so
      the database branch yields at least two fewer changes than a fully populated
      series of the same length would (which yields `|stored| - 1`). */
  lemma NullCloseDropsChanges(stored: seq<StoredPoint>, k: int)
    requires StoredRatiosDefined(stored)
    requires 0 <= k < |stored| && stored[k].adjClose.None?
    requires 2 <= |stored|
    ensures LagQuery(stored)[k].1.None?
    ensures k + 1 < |stored| ==> LagQuery(stored)[k + 1].1.None?
    ensures |DbRatios(stored)| <= |stored| - 2
  {
    var rows := LagQuery(stored);
    if k == 0 {
      TwoNullRows(rows, 0, 1);
    } else {
      TwoNullRows(rows, 0, k);
    }
  }

  /** A fully stored series has defined ratios when the parsed one has. */
  lemma StoredRatiosOf(series: seq<PricePoint>)
    requires RatiosDefined(series)
    ensures StoredRatiosDefined(Stored(series))
  {
  }

  /** The query over a fully stored series: a NULL ratio on the first row and
      the point's adjusted close over its predecessor's on every later row. */
  lemma LagOfStored(series: seq<PricePoint>)
    requires RatiosDefined(series)
    ensures StoredRatiosDefined(Stored(series))
    ensures |LagQuery(Stored(series))| == |series|
    ensures |series| > 0 ==> LagQuery(Stored(series))[0].1.None?
    ensures forall i {:trigger LagQuery(Stored(series))[i]} :: 0 < i < |series| ==>
      LagQuery(Stored(series))[i] == (series[i].date, Some(Over(series[i].adjClose, series[i - 1].adjClose)))
  {
    StoredRatiosOf(series);
    var stored := Stored(series);
    forall i | 0 < i < |series|
      ensures LagQuery(stored)[i] == (series[i].date, Some(Over(series[i].adjClose, series[i - 1].adjClose)))
    {
      assert stored[i] == StoredPoint(series[i].date, Some(series[i].adjClose));
      assert stored[i - 1] == StoredPoint(series[i - 1].date, Some(series[i - 1].adjClose));
      LagQueryRatio(stored, i);
    }
  }

  /** The database branch's changes of a fully stored series: one per point
      after the first, since only the first row's ratio is NULL. */
  lemma DbRatiosChanges(series: seq<PricePoint>)
    requires RatiosDefined(series)
    ensures StoredRatiosDefined(Stored(series))
    ensures |DbRatios(Stored(series))| == if |series| == 0 then 0 else |series| - 1
    ensures forall i {:trigger DbRatios(Stored(series))[i]} :: 0 <= i < |series| - 1 ==>
      DbRatios(Stored(series))[i] == PercentChange(series[i + 1].date, Over(series[i + 1].adjClose, series[i].adjClose))
  {
    LagOfStored(series);
    if |series| > 0 {
      var rows := LagQuery(Stored(series));
      assert forall i :: 0 < i < |rows| ==> rows[i].1.Some? by {
        forall i | 0 < i < |rows|
          ensures rows[i].1.Some?
        {
          assert rows[i] == (series[i].date, Some(Over(series[i].adjClose, series[i - 1].adjClose)));
        }
      }
      DropLeadingNull(rows);
      forall i | 0 <= i < |series| - 1
        ensures DbRatios(Stored(series))[i] == PercentChange(series[i + 1].date, Over(series[i + 1].adjClose, series[i].adjClose))
      {
        assert rows[i + 1] == (series[i + 1].date, Some(Over(series[i + 1].adjClose, series[i].adjClose)));
      }
    }
  }

  /** The file branch and the database branch agree on the same series. */
  lemma FileMatchesDb(series: seq<PricePoint>)
    requires RatiosDefined(series)
    ensures StoredRatiosDefined(Stored(series))
    ensures FileRatios(series) == DbRatios(Stored(series))
  {
    StoredRatiosOf(series);
    var byFile, byDb := FileRatios(series), DbRatios(Stored(series));
    assert Ratios(series, byFile) by {
      FileRatiosChanges(series);
    }
    assert Ratios(series, byDb) by {
      DbRatiosChanges(series);
    }
    RatiosAreUnique(series, byFile, byDb);
  }

  /** `r` holds, in order, the change of every point of `series` over its predecessor. */
  predicate Ratios(series: seq<PricePoint>, r: seq<PercentChange>)
    requires RatiosDefined(series)
  {
    && |r| == (if |series| == 0 then 0 else |series| - 1)
    && forall i :: 0 <= i < |series| - 1 ==> r[i] == RatioOver(series[i], series[i + 1])
  }

  /** Only one list holds the changes of a series. */
  lemma RatiosAreUnique(series: seq<PricePoint>, r: seq<PercentChange>, r': seq<PercentChange>)
    requires RatiosDefined(series)
    requires Ratios(series, r) && Ratios(series, r')
    ensures r == r'
  {
    forall i | 0 <= i < |r|
      ensures r[i] == r'[i]
    {
      assert r[i] == RatioOver(series[i], series[i + 1]);
    }
  }

  /** A file name takes precedence: whatever the composite FIGI, a component
      with a file name reads the file. */
  lemma FileNameTakesPrecedence(c: SyntheticComponent, figi: string, w: World)
    requires WorldRatiosDefined(w)
    requires c.fileName != ""
    ensures PctChange(c, w) == PctChange(c.(compositeFigi := figi), w)
    ensures c.fileName in w.files ==> PctChange(c, w).changes == FileRatios(w.files[c.fileName])
    ensures c.fileName !in w.files ==> PctChange(c, w).err == Some(FileUnreadable(c.fileName))
  {
  }

  /** A component read from the database gets the same changes as one reading
      a file with the same series. */
  lemma SourcesAgree(byFile: SyntheticComponent, byDb: SyntheticComponent, w: World)
    requires WorldRatiosDefined(w)
    requires byFile.fileName in w.files && byDb.fileName == "" && byDb.compositeFigi in w.db
    requires byFile.fileName != "" && byDb.compositeFigi != ""
    requires w.db[byDb.compositeFigi] == Stored(w.files[byFile.fileName])
    ensures PctChange(byFile, w) == PctChange(byDb, w)
  {
    FileMatchesDb(w.files[byFile.fileName]);
  }
}
