/** `BuildSyntheticHistory` (eod/synthetic.go): a synthetic asset's quotes are
    spliced together from the percent changes of its components, starting from
    a seed quote and walking the components in order. */
module Synthetic {
  import opened Wrappers
  import opened EodTypes
  import opened PercentChanges

  // ---------------------------------------------------------------------------
  // Quotes
  // ---------------------------------------------------------------------------

  /** A quote of the synthetic asset: its symbol and FIGI, the close also as the
      adjusted close, and the zero dividend and split factor of a fresh record. */
  function Quote(asset: SyntheticAsset, date: int, close: real): Eod {
    Eod(date, asset.symbol, asset.compositeFigi, close, close, 0.0, 0.0)
  }

  /** `q` has the shape of a quote the builder makes for `asset`. */
  predicate IsQuoteOf(asset: SyntheticAsset, q: Eod) {
    q == Quote(asset, q.eventDate, q.close)
  }

  /** The quote the builder starts from: the newest stored quote when there is
      one, else 10.0 on the asset's start date. */
  function Seed(asset: SyntheticAsset, history: seq<Eod>): Eod {
    if |history| > 0 then history[0] else Quote(asset, asset.startDate, 10.0)
  }

  /** The current quote after `quotes` were emitted from `cur`. */
  function Latest(cur: Eod, quotes: seq<Eod>): Eod {
    if |quotes| == 0 then cur else quotes[|quotes| - 1]
  }

  /** `date` is not past the component's end, if it has one. */
  predicate WithinEnd(end: Option<int>, date: int) {
    end.None? || date <= end.value
  }

  // ---------------------------------------------------------------------------
  // One component
  // ---------------------------------------------------------------------------

  /** What splicing one component's changes yields: the new quotes and the current quote. */
  datatype Spliced = Spliced(quotes: seq<Eod>, current: Eod)

  /** The inner loop over one component's changes: a change dated at or before
      the current quote is skipped, the first one past the component's end stops
      the loop, and every other one becomes a quote whose close is the current
      close times the change's percent. */
  function SplicePoints(asset: SyntheticAsset, end: Option<int>, changes: seq<PercentChange>, cur: Eod): (s: Spliced)
    ensures s.current == Latest(cur, s.quotes)
    ensures forall i :: 0 <= i < |s.quotes| ==> IsQuoteOf(asset, s.quotes[i])
    ensures forall i :: 0 <= i < |s.quotes| ==> cur.eventDate < s.quotes[i].eventDate
    ensures forall i :: 0 <= i < |s.quotes| ==> WithinEnd(end, s.quotes[i].eventDate)
    ensures StrictlyAscending(s.quotes)
    decreases |changes|
  {
    if |changes| == 0 then Spliced([], cur)
    else
      var pct := changes[0];
      if pct.date <= cur.eventDate then SplicePoints(asset, end, changes[1..], cur)
      else if !WithinEnd(end, pct.date) then Spliced([], cur)
      else
        var quote := Quote(asset, pct.date, Times(cur.close, pct.percent));
        var rest := SplicePoints(asset, end, changes[1..], quote);
        Spliced([quote] + rest.quotes, rest.current)
  }

  // ---------------------------------------------------------------------------
  // All components
  // ---------------------------------------------------------------------------

  /** What the outer loop yields: the new quotes, the current quote, and the
      error that stopped it, if any. */
  datatype Built = Built(quotes: seq<Eod>, current: Eod, err: Option<FetchError>)

  /** A component whose end is set and strictly before the current quote's date
      is skipped without being read. */
  predicate Skipped(c: SyntheticComponent, cur: Eod) {
    c.end.Some? && c.end.value < cur.eventDate
  }

  /** Two ascending runs of quotes, the second after the last of the first, join into one. */
  lemma AscendingJoin(xs: seq<Eod>, ys: seq<Eod>)
    requires StrictlyAscending(xs) && StrictlyAscending(ys)
    requires |xs| > 0 ==> forall j :: 0 <= j < |ys| ==> xs[|xs| - 1].eventDate < ys[j].eventDate
    ensures StrictlyAscending(xs + ys)
  {
    var zs := xs + ys;
    forall i, j | 0 <= i < j < |zs|
      ensures zs[i].eventDate < zs[j].eventDate
    {
      if j >= |xs| && i < |xs| {
        assert xs[i].eventDate <= xs[|xs| - 1].eventDate;
      }
    }
  }

  /** A run of quotes of `asset` made from `cur`: all after it, ascending, and
      ending on `last`. */
  predicate RunFrom(asset: SyntheticAsset, cur: Eod, quotes: seq<Eod>, last: Eod) {
    && last == Latest(cur, quotes)
    && (forall i :: 0 <= i < |quotes| ==> IsQuoteOf(asset, quotes[i]))
    && (forall i :: 0 <= i < |quotes| ==> cur.eventDate < quotes[i].eventDate)
    && StrictlyAscending(quotes)
  }

  /** A run from `cur` to `mid` followed by a run from `mid` to `last` is a run from `cur` to `last`. */
  lemma RunsJoin(asset: SyntheticAsset, cur: Eod, xs: seq<Eod>, mid: Eod, ys: seq<Eod>, last: Eod)
    requires RunFrom(asset, cur, xs, mid) && RunFrom(asset, mid, ys, last)
    ensures RunFrom(asset, cur, xs + ys, last)
  {
    AscendingJoin(xs, ys);
    var zs := xs + ys;
    forall i | 0 <= i < |zs|
      ensures IsQuoteOf(asset, zs[i]) && cur.eventDate < zs[i].eventDate
    {
      if i < |xs| {
        assert zs[i] == xs[i];
      } else {
        assert zs[i] == ys[i - |xs|];
        if |xs| > 0 {
          assert cur.eventDate < xs[|xs| - 1].eventDate;
        }
      }
    }
    if |ys| > 0 {
      assert zs[|zs| - 1] == ys[|ys| - 1];
    }
  }

  /** The outer loop over the components, from the current quote `cur`. A fetch
      error ends it with the quotes made so far. */
  function SpliceComponents(asset: SyntheticAsset, comps: seq<SyntheticComponent>, w: World, cur: Eod): (b: Built)
    requires WorldRatiosDefined(w)
    ensures b.current == Latest(cur, b.quotes)
    ensures forall i :: 0 <= i < |b.quotes| ==> IsQuoteOf(asset, b.quotes[i])
    ensures forall i :: 0 <= i < |b.quotes| ==> cur.eventDate < b.quotes[i].eventDate
    ensures StrictlyAscending(b.quotes)
    decreases |comps|
  {
    if |comps| == 0 then Built([], cur, None)
    else
      var c := comps[0];
      if Skipped(c, cur) then SpliceComponents(asset, comps[1..], w, cur)
      else
        var fetched := PctChange(c, w);
        if fetched.err.Some? then Built([], cur, fetched.err)
        else
          var s := SplicePoints(asset, c.end, fetched.changes, cur);
          var rest := SpliceComponents(asset, comps[1..], w, s.current);
          RunsJoin(asset, cur, s.quotes, s.current, rest.quotes, rest.current);
          Built(s.quotes + rest.quotes, rest.current, rest.err)
  }

  /** What `BuildSyntheticHistory` returns: the new quotes and the error, if any. */
  datatype History = History(quotes: seq<Eod>, err: Option<FetchError>)

  /** The new history of `asset`, given its stored quotes newest first. Without
      stored quotes the seed is emitted first; otherwise the newest stored quote
      only sets the starting point and every quote emitted is after it. */
  function BuildSyntheticHistory(asset: SyntheticAsset, history: seq<Eod>, w: World): (h: History)
    requires WorldRatiosDefined(w)
    ensures |history| == 0 ==> |h.quotes| > 0 && h.quotes[0] == Quote(asset, asset.startDate, 10.0)
    ensures |history| == 0 ==> forall i :: 0 < i < |h.quotes| ==> asset.startDate < h.quotes[i].eventDate
    ensures |history| > 0 ==> forall i :: 0 <= i < |h.quotes| ==> history[0].eventDate < h.quotes[i].eventDate
    ensures forall i :: 0 <= i < |h.quotes| ==> IsQuoteOf(asset, h.quotes[i])
    ensures StrictlyAscending(h.quotes)
  {
    var seed := Seed(asset, history);
    var b := SpliceComponents(asset, asset.components, w, seed);
    if |history| == 0 then
      AscendingJoin([seed], b.quotes);
      History([seed] + b.quotes, b.err)
    else
      History(b.quotes, b.err)
  }
}
