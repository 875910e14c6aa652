# eod: price adjustment and synthetic history, in Dafny

This project models the two sequencing algorithms of the `eod` package.

**CRSP back-adjustment.** This is the loop inside `AdjustAllTickers`, in
`eod/adjust.go`. Rows arrive grouped by ticker, newest first. A running
adjustment factor:
- starts at 1.0;
- resets to 1.0 whenever the ticker changes.

Each row's adjusted close is its close divided by the factor. After that, the
factor is multiplied by the row's growth, `(1 + dividend/close) * splitFactor`.
A row whose close is not positive resets the factor to 1.0 instead.

**Synthetic history.** This is `BuildSyntheticHistory`, together with the pure
part of `getComponentPctChange`, both in `eod/synthetic.go`. The builder starts
from a seed quote:
- the newest stored quote, when there is one;
- otherwise, 10.0 on the asset's start date.

It then walks the components in order. A component reads percent changes from a
file or from the database series of a composite FIGI, and each change past the
current quote (and within the component's end) becomes a new quote.

Modules:
- `Wrappers`: `Option`.
- `EodTypes`: the records of `eod/types.go`. Dates are whole days; prices are
  exact reals.
- `Adjust`: the loop as a fold (`Step`, `Walk`, `AdjustRows`). Next to it is an
  independent reference definition (`RefAdjClose`): a row's close divided by
  the product of the growths since its last reset. The lemmas connect the two.
- `AdjustExamples`: the worked cases of `eod/eod_test.go`.
- `PercentChanges`: which series a component reads, the file branch's ratio
  loop, and the database branch's `LAG` query with its NULL filter.
- `Synthetic`: the builder.
- `SyntheticLaws`: what the builder promises.

The database, files and configuration become a `World` value. It holds two maps:
- file path to parsed `(date, adjClose)` series;
- composite FIGI to the stored `eod` rows of that FIGI: dates in ascending
  order, each with an `adj_close` that may be NULL. Rows with a NULL
  `adj_close` exist: `saveSyntheticEod` (eod/synthetic.go:216-218) inserts
  quotes without one, and cmd/adjust.go:61 looks for them.

A key missing from its map stands for a read error.

Behaviour of the code worth noting:
- **Skipping a finished component.** The code skips it only when its end is
  strictly before the current quote's date (`End.Before`,
  `eod/synthetic.go:77`). A component ending on the current date is still read
  (`SyntheticLaws.EndOnCurrentDateContributesNothing`).
- **Components naming both a file and a FIGI.** These are not rejected. The file
  name takes precedence (`eod/synthetic.go:112`).
- **Scan errors in the adjustment loop.** These are logged, and processing
  continues with the row as scanned (`eod/adjust.go:59-61`).

## Model

| member | source | states |
|---|---|---|
| Adjust.Step | eod/adjust.go:63-76 | One loop iteration keeps the factor non-zero, records the row's ticker as the current one, and appends exactly one adjusted close while keeping the earlier ones |
| Adjust.Walk | eod/adjust.go:49-76 | Starting from ticker "" and factor 1.0, the loop yields one adjusted close per row; the current ticker is the last row's ticker; the factor stays non-zero |
| Adjust.AdjustRows | eod/adjust.go:56-79 | Every input row comes out exactly once, in order, with date, ticker, FIGI, close, dividend and split factor unchanged |
| Adjust.RunStart | eod/adjust.go:63-67 | The row a run starts at is the last reset at or before row i: the first row, a ticker change, or a row after one with close <= 0; no reset lies between it and i |
| Adjust.Product | eod/adjust.go:72-73 | The product of the growths of positive-close rows with defined growth is non-zero, so dividing by it is defined |
| Adjust.RefFactor | eod/adjust.go:69-76 | The reference factor of any row (the product of the growths since its reset) is non-zero |
| Adjust.RunIsPositive | eod/adjust.go:72-76 | Every row between a reset and row i has a positive close, because a non-positive close would itself start a new run |
| Adjust.RunStartOfPrefix | eod/adjust.go:56-67 | Rows after row i do not move row i's reset point |
| Adjust.RefFactorOfPrefix | eod/adjust.go:69-76 | Rows after row i do not change the factor row i is divided by |
| Adjust.RefAdjCloseOfPrefix | eod/adjust.go:69-76 | Rows after row i change neither row i's adjusted close nor the factor it passes on |
| Adjust.LastFactorMatches | eod/adjust.go:63-69 | Given a loop state that carries the reference factor of the previous row, the factor the loop divides the next row by is that row's reference factor, including the ticker-change reset |
| Adjust.StepMatchesReference | eod/adjust.go:63-76 | One loop iteration extends agreement with the reference definition by one row |
| Adjust.AgreementOfPrefix | eod/adjust.go:56-76 | Agreement with the reference on the first n rows does not depend on the rows after them |
| Adjust.WalkMatchesReference | eod/adjust.go:49-76 | Each adjusted close the loop computes equals the close divided by the product of the growths since the row's last reset; the final factor is the one the last row passes on |
| Adjust.AdjustRowsIsReference | eod/adjust.go:69 | Every output row carries the CRSP adjusted close of the reference definition |
| Adjust.AdjustedRowAt | eod/adjust.go:69 | Output row i is input row i with only its adjusted close set, to the reference value |
| Adjust.ResetRowUnadjusted | eod/adjust.go:63-76 | The first row, the first row of every ticker group, and the row after a non-positive close keep their close as adjusted close |
| Adjust.RefFactorSeesOnlyEarlierRows | eod/adjust.go:69-76 | Row i's adjusted close depends only on the rows before it: changing the dividends and split factors of row i and of later rows, keeping tickers and closes, leaves it unchanged |
| Adjust.OwnEventsDoNotAdjustOwnClose | eod/adjust.go:69-76 | Changing a row's own dividend and split factor changes neither its own adjusted close nor that of any earlier row; the factor update runs after the division |
| Adjust.RunStartOfSuffix | eod/adjust.go:63-67 | After a ticker change at the boundary, a later group's reset points are its own, shifted by the length of the rows before it |
| Adjust.RefFactorOfSuffix | eod/adjust.go:63-76 | After a ticker change at the boundary, a later group's adjusted closes are what it would get alone |
| Adjust.SeparateTickersFront | eod/adjust.go:56-76 | Row i of an earlier group comes out of the joined rows exactly as from that group alone |
| Adjust.SeparateTickersBack | eod/adjust.go:63-67 | Row k of a later group, separated by a ticker change, comes out of the joined rows exactly as from that group alone |
| Adjust.EarlierGroupUnaffected | eod/adjust.go:56-76 | Rows appended later never change the adjustment of the rows before them |
| Adjust.LaterGroupUnaffected | eod/adjust.go:63-67 | Because the factor resets at a ticker change, the rows of one ticker come out the same whatever other tickers' rows precede them |
| Adjust.UnitGrowthProduct | eod/adjust.go:73 | A run without dividends or splits multiplies the factor by exactly 1.0 |
| Adjust.UnitGrowth | eod/adjust.go:73 | A row without dividend or split has growth 1.0 |
| Adjust.NoEventsNoAdjustment | eod/adjust.go:69-76 | With every dividend 0 and every split factor 1.0, every adjusted close equals the close |
| AdjustExamples.FirstThreeRows | eod/eod_test.go:38-57 | In the four-row test asset with closes of 1.0, the first two rows are unadjusted and the third is divided by the second row's growth |
| AdjustExamples.DividendExample | eod/eod_test.go:28-58 | A 0.25 dividend on the second day gives adjusted closes 1.0, 1.0, 0.8 |
| AdjustExamples.SplitExample | eod/eod_test.go:61-91 | A split factor of 2.0 on the second day gives 1.0, 1.0, 0.5 |
| AdjustExamples.SplitAndDividendExample | eod/eod_test.go:94-124 | A 1.0 dividend with a split factor of 2.0 gives 1.0, 1.0, 0.25 |
| AdjustExamples.NoEventsExample | eod/eod_test.go:127-160 | Without dividends or splits all four adjusted closes stay 1.0 |
| PercentChanges.SourceOf | eod/synthetic.go:112-171 | A non-empty file name selects the file branch whatever the FIGI; otherwise a non-empty FIGI selects the database; with neither the component is mis-specified (both directions) |
| PercentChanges.FileLoop | eod/synthetic.go:128-139 | With no predecessor the first point yields no change, so n points give n - 1 changes; with a predecessor every point yields one |
| PercentChanges.FileRatios | eod/synthetic.go:128-139 | A parsed file of n points yields n - 1 changes (none for an empty file) |
| PercentChanges.FileLoopChanges | eod/synthetic.go:128-139 | Change i of the file loop carries the date of its point and the ratio of its adjusted close to the previous point's, in file order |
| PercentChanges.FileRatiosChanges | eod/synthetic.go:128-139 | Change i of a file is point i+1's date with point i+1's adjusted close over point i's |
| PercentChanges.Divide | eod/synthetic.go:133 | A float quotient is infinite or NaN exactly when the divisor is zero; otherwise it times the divisor gives back the dividend |
| PercentChanges.FileLoopAsWritten | eod/synthetic.go:128-139 | As written, the loop emits one entry for every point, the first included |
| PercentChanges.FileChangesAsWritten | eod/synthetic.go:128-139 | As written, a file of n points yields n entries |
| PercentChanges.FileLoopAsWrittenLater | eod/synthetic.go:133-138 | As written, entry i > 0 is point i's date with point i's adjusted close divided by point i-1's |
| PercentChanges.FileAsWrittenDividesByZero | eod/synthetic.go:128-139 | As written, the first entry divides the first adjusted close by zero; the remaining entries are exactly the corrected changes |
| PercentChanges.FileAsWrittenExample | eod/synthetic.go:128-139 | For points (1, 100.0), (2, 110.0): as written there are two entries, the first 100.0 over zero; corrected there is one change, dated 2 |
| PercentChanges.LagQuery | eod/synthetic.go:149 | The query returns one row per stored row, in date order, with its date; the ratio is non-NULL exactly when the row is not the first and both its own and the previous row's adjusted closes are non-NULL |
| PercentChanges.LagQueryRatio | eod/synthetic.go:149 | A non-NULL ratio is the row's adjusted close over the previous row's |
| PercentChanges.DropNullRatios | eod/synthetic.go:154-166 | The scan loop yields exactly one change per row with a non-NULL ratio, in row order, carrying that row's date and ratio (with `NonNullRows`, which lists exactly those rows) |
| PercentChanges.NonNullRowsInOrder | eod/synthetic.go:154-166 | The rows whose ratio is kept are listed in increasing row order, and every row with a non-NULL ratio is among them |
| PercentChanges.OneNullRow | eod/synthetic.go:162-165 | A row with a NULL ratio is dropped, so fewer changes than rows come out |
| PercentChanges.TwoNullRows | eod/synthetic.go:162-165 | Two rows with NULL ratios leave at most the number of rows minus two changes |
| PercentChanges.NullCloseDropsChanges | eod/synthetic.go:149-166 | A NULL adjusted close makes the ratio NULL on its own row and on the next one, so the database branch yields at most the number of rows minus two changes, against one fewer than the rows when every close is present |
| PercentChanges.DropLeadingNull | eod/synthetic.go:162-165 | When only the first ratio is NULL, the filter keeps every other row, in order, with its date and ratio |
| PercentChanges.DbRatiosChanges | eod/synthetic.go:149-166 | For a series stored with every adjusted close present, the database branch yields, for each point after the first, its date and its ratio to the previous point |
| PercentChanges.FileMatchesDb | eod/synthetic.go:128-166 | On the same series, the corrected file branch and the database branch over that series stored with no NULL adjusted close yield the same changes |
| PercentChanges.RatiosAreUnique | eod/synthetic.go:128-166 | Only one list of changes is the ratio list of a series, so the two branches' agreement is forced |
| PercentChanges.PctChange | eod/synthetic.go:109-174 | Reading succeeds exactly when the selected file or FIGI is present; with neither name set the result is the mis-specification error; a failed read returns no changes |
| PercentChanges.FileNameTakesPrecedence | eod/synthetic.go:112 | A component with a file name gets the same result whatever its FIGI: the file's changes, or an unreadable-file error |
| PercentChanges.SourcesAgree | eod/synthetic.go:112-166 | Components reading the same series, one from a file and one from the database where it is stored with no NULL adjusted close, get the same changes |
| Synthetic.SplicePoints | eod/synthetic.go:85-101 | Every quote one component emits belongs to the asset, is after the current quote, is within the component's end, and dates strictly increase; the new current quote is the last one emitted |
| Synthetic.AscendingJoin | eod/synthetic.go:94-101 | Two ascending runs, the second after the end of the first, join into one ascending run |
| Synthetic.RunsJoin | eod/synthetic.go:75-101 | A run of quotes from one current quote to a second, followed by a run from the second to a third, is one run from the first to the third |
| Synthetic.SpliceComponents | eod/synthetic.go:75-104 | Across all components, the emitted quotes belong to the asset, follow the seed, and have strictly increasing dates, so no date repeats even across components |
| Synthetic.BuildSyntheticHistory | eod/synthetic.go:57-106 | Without stored quotes, the first quote is 10.0 on the start date and every later one is after it; with stored quotes, the newest one is not re-emitted and every quote is after it; dates strictly increase |
| SyntheticLaws.SpliceEmits | eod/synthetic.go:93-101 | A change after the current quote and within the end becomes the quote with the current close times its percent, followed by what the rest yields from that quote |
| SyntheticLaws.FromChangeOfTail | eod/synthetic.go:86-101 | A quote made from a change of the remaining changes, dated after the first change, is made from a change of the whole list |
| SyntheticLaws.ChainThroughSkip | eod/synthetic.go:86-88 | Skipping a change at or before the current date keeps every emitted close chained to its predecessor |
| SyntheticLaws.ChainThroughEmit | eod/synthetic.go:93-101 | Emitting a change starts the chain, and the rest continues from the new quote |
| SyntheticLaws.SplicedClosesChain | eod/synthetic.go:85-101 | Each emitted quote comes from the change consumed for it: the first change dated after the previous current quote and after every earlier change. The quote carries that change's date, and its close is the previous current quote's close times that change's percent |
| SyntheticLaws.ComponentChainAfterSkip | eod/synthetic.go:76-80 | A skipped component leaves the close chain of the remaining components in place |
| SyntheticLaws.FromProducerAfterSkip | eod/synthetic.go:76-80 | A quote emitted by a later component, behind a skipped one, is the same quote of the whole run and was emitted by the same component |
| SyntheticLaws.FromProducerAfterRead | eod/synthetic.go:81-101 | Quote r emitted by the remaining components, behind a component that was read and emitted k quotes, is quote r + k of the whole run, emitted by the same component |
| SyntheticLaws.ComponentChainAtHead | eod/synthetic.go:85-101 | A quote of the first component's own chain is chained in the whole run, emitted by component 0 |
| SyntheticLaws.ComponentChainAtRest | eod/synthetic.go:75-104 | A quote the remaining components emitted from the quote the first one left current is chained in the whole run, emitted by the same component |
| SyntheticLaws.ComponentChainAfterRead | eod/synthetic.go:81-101 | A component read without error contributes its own chain, and the remaining components continue from the quote it left current |
| SyntheticLaws.ComponentsCloseChain | eod/synthetic.go:75-104 | Across all components, quote i's close is the previous current quote's close times the percent of the change consumed for it, from the component that emitted quote i (the one whose prefix of the component list first reaches i + 1 quotes) |
| SyntheticLaws.ChainBehindSeed | eod/synthetic.go:60-73 | Behind the seed quote, the first emitted quote chains from the seed and every later one from the quote before it |
| SyntheticLaws.HistoryClosesChain | eod/synthetic.go:57-106 | With stored quotes, every new quote's close chains from the quote before it, the first from the newest stored quote; without stored quotes, every quote after the 10.0 seed does so. The factor is the percent of the change consumed from the component that emitted the quote |
| SyntheticLaws.PrefixQuotesGrow | eod/synthetic.go:75-104 | Running more of the component list never yields fewer quotes |
| SyntheticLaws.ProducerIsUnique | eod/synthetic.go:75-104 | Each quote of the run was emitted by exactly one component |
| SyntheticLaws.FromChangeCloseIsUnique | eod/synthetic.go:85-101 | From a given current quote and a component's changes, at most one change is consumed for a date, so a quote of that date has one possible close |
| SyntheticLaws.ProducedCloseIsUnique | eod/synthetic.go:75-104 | The close of quote i is determined by its date and the quote before it, even when components overlap in time |
| SyntheticLaws.RecordsOfTail | eod/synthetic.go:85-101 | A change is a record of the remaining changes, after the current date moves to the emitted change's date, exactly when it is a record of the whole |
| SyntheticLaws.EmittedDatesAreRecords | eod/synthetic.go:85-101 | The dates a component emits are exactly the dates of its record changes within its end: those after the current date and after every earlier change |
| SyntheticLaws.NoRecordsAfterCutover | eod/synthetic.go:89-92 | Once one change is past the end, every later record is too |
| SyntheticLaws.DatesOfCons | eod/synthetic.go:100 | Prepending a quote adds exactly its date to the dates of a run |
| SyntheticLaws.RecordDatesShift | eod/synthetic.go:85-101 | The record dates of the whole are the tail's, plus the first change's date when it is an emitted record |
| SyntheticLaws.CutoverIgnoresRest | eod/synthetic.go:89-92 | Once the first change past the end is reached, no later change of that component is consumed: appending more changes changes nothing |
| SyntheticLaws.NothingAfterEnd | eod/synthetic.go:85-92 | A component whose end is not after the current date emits nothing and leaves the current quote alone |
| SyntheticLaws.SkippedComponentIsNotFetched | eod/synthetic.go:76-80 | A component that ended before the current quote contributes nothing, and the result is the same whether or not its series could be read |
| SyntheticLaws.EndOnCurrentDateContributesNothing | eod/synthetic.go:76-92 | A component ending on the current date is still read, so its read error still stops the build, but it emits no quote |
| SyntheticLaws.SpliceComponentsConcat | eod/synthetic.go:75-104 | Building over two lists of components runs the first list, then the second from where the first stopped; an error in the first list ends the build there |
| SyntheticLaws.FailureAfterSkip | eod/synthetic.go:76-80 | A failure after a skipped component is a failure of the whole list |
| SyntheticLaws.FailureAfterRead | eod/synthetic.go:81-101 | A failure after a component read without error is a failure of the whole list |
| SyntheticLaws.FailureReturnsPrefix | eod/synthetic.go:81-84 | A build that fails is stopped by one component: all components before it ran without error, that component's read failed, and the result is exactly the quotes built before it, with its error |

## Left out

- Floating point: prices are exact reals. IEEE rounding and Go's formatting are not modelled. Infinity and NaN appear only in `PercentChanges.Divide`.
- Adjust.Growth, Adjust.Walk, Adjust.AdjustRows and the `RefAdjClose` lemmas require `GrowthDefined`: no positive-close row may have a zero growth (a dividend of minus the close, or a split factor of 0). In Go such a row makes the factor 0, and every later adjusted close of the ticker is infinite or NaN up to the next reset (a row with close <= 0, eod/adjust.go:74-75); that case is not modelled.
- PercentChanges.FileRatios, PercentChanges.DbRatios, PercentChanges.PctChange and the builder require `RatiosDefined` / `StoredRatiosDefined`: no adjusted close that a later point is divided by is zero (in the database, no non-NULL `adj_close` followed by another row). Zero divisors are modelled only for the as-written file loop. PostgreSQL's division-by-zero error for the query is not modelled.
- PercentChanges.PctChange: a scan error in the database loop (eod/synthetic.go:157-160) returns the changes read so far together with the error, whereas the model returns no changes with every error. This is harmless, because `BuildSyntheticHistory` discards the changes when there is an error (eod/synthetic.go:82-83).
- PercentChanges.PctChange: the file branch is modelled as corrected (`FileRatios`), not as written, so the modelled builder never emits the quote with the infinite close that the as-written loop can cause (see Findings). The as-written loop is `FileLoopAsWritten`.
- Database plumbing of `AdjustAllTickers` (eod/adjust.go:26-55, 78-86), left out because it is I/O: the connection, the transaction, the query, each row's `UPDATE`, rollback, commit and `fmt.Printf`. The query's `ORDER BY ticker, event_date DESC` is taken as the order of the input sequence.
- Scan errors at eod/adjust.go:58-61: logged, and the row is processed as scanned. The model takes the rows as already read.
- The I/O of `getComponentPctChange` (eod/synthetic.go:114-126, 142-161), replaced by the `World` maps. The model does not distinguish the different errors of opening, decoding, connecting, querying and scanning; each read failure is one `FetchError` for the missing key.
- Date parsing in the file loop (eod/synthetic.go:130-132): a failed `time.Parse` is only logged and the point keeps the zero time. The model takes already-parsed `(date, adjClose)` points as input.
- `UpdateSyntheticHistory`, `saveSyntheticAsset`, `saveSyntheticEod`, `LoadEodHistory` and `PrintEod` (eod/synthetic.go:31-55, 176-226), left out because they are storage and printing. Only the newest-first order of `LoadEodHistory` is assumed, so `history[0]` is the newest stored quote.
- The command drivers cmd/adjust.go and cmd/synthetic.go, left out because they are configuration loading and orchestration.
- Logging calls throughout, left out because they have no effect on results.
- `AdjustAssetEodPrice`, the per-asset function that eod/eod_test.go calls, is not part of this model. The worked examples are stated against the loop of eod/adjust.go, processing rows in the order the tests list them.
- Adjust.EarlierGroupUnaffected and Adjust.LaterGroupUnaffected state group independence row by row rather than as one equation `AdjustRows(a + b) == AdjustRows(a) + AdjustRows(b)`. That equation follows from the two directly, but only when `b` starts with a ticker different from the last ticker of `a`, the condition `LaterGroupUnaffected` requires.
- The component fields `Start`, `Source` and `Symbol` (eod/types.go:39-47) are left out because the core never reads them. The component's `Name` is used only in a log message (eod/synthetic.go:90). The asset's `Name` is written to the assets table by `saveSyntheticAsset` (eod/synthetic.go:207), which is left out above. The asset's `Category` is never read. All three are carried but unused.

## Findings

| source | as written | input that shows it | evidently intended | confidence | as-written member | corrected member |
|---|---|---|---|---|---|---|
| eod/synthetic.go:128-139 | The file branch starts with `last := 0.0` and appends a change for every line, so the first line's adjusted close is divided by zero | A file with lines (day 1, 100.0) and (day 2, 110.0) yields a first change of 100.0 / 0 on day 1. With a seed before day 1, the builder would emit a quote on day 1 with an infinite close | The first line has no predecessor and yields no change, as the database branch does when it drops its NULL first ratio | not executed | PercentChanges.FileAsWrittenDividesByZero | PercentChanges.FileMatchesDb |
