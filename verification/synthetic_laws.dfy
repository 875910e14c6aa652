/** What `BuildSyntheticHistory` promises: which changes become quotes, how
    their closes chain, where a component's end cuts it off, and what a failed
    fetch leaves behind. */
module SyntheticLaws {
  import opened Wrappers
  import opened EodTypes
  import opened PercentChanges
  import opened Synthetic

  /** The quote that was current when `quotes[i]` was emitted. */
  function Previous(cur: Eod, quotes: seq<Eod>, i: int): Eod
    requires 0 <= i < |quotes|
  {
    if i == 0 then cur else quotes[i - 1]
  }

  /** The step of the inner loop that emits the first change. */
  lemma SpliceEmits(asset: SyntheticAsset, end: Option<int>, changes: seq<PercentChange>, cur: Eod)
    requires |changes| > 0 && cur.eventDate < changes[0].date && WithinEnd(end, changes[0].date)
    ensures SplicePoints(asset, end, changes, cur).quotes ==
      [Quote(asset, changes[0].date, Times(cur.close, changes[0].percent))]
      + SplicePoints(asset, end, changes[1..], Quote(asset, changes[0].date, Times(cur.close, changes[0].percent))).quotes
  {
  }

  // ---------------------------------------------------------------------------
  // One component: what is emitted
  // ---------------------------------------------------------------------------

  /** `q` was made from one of `changes`: from the first change dated after
      the quote `prev` current before it and after every earlier change, with
      the close of `prev` times its percent. */
  predicate FromChange(q: Eod, prev: Eod, changes: seq<PercentChange>) {
    exists k :: 0 <= k < |changes| && IsRecord(changes, prev.eventDate, k)
      && changes[k].date == q.eventDate && q.close == Times(prev.close, changes[k].percent)
  }

  /** A quote made from a change of the tail, dated after the head, was made
      from a change of the whole. */
  lemma FromChangeOfTail(q: Eod, prev: Eod, changes: seq<PercentChange>)
    requires |changes| > 0 && changes[0].date < q.eventDate
    requires FromChange(q, prev, changes[1..])
    ensures FromChange(q, prev, changes)
  {
    var tail := changes[1..];
    var k :| 0 <= k < |tail| && IsRecord(tail, prev.eventDate, k)
      && tail[k].date == q.eventDate && q.close == Times(prev.close, tail[k].percent);
    assert changes[k + 1] == tail[k];
    forall m | 0 <= m < k + 1
      ensures changes[m].date < changes[k + 1].date
    {
      if m > 0 {
        assert changes[m] == tail[m - 1];
      }
    }
    assert IsRecord(changes, prev.eventDate, k + 1);
  }

  /** Each quote spliced from `changes` starting at `cur` is made from one of
      the changes and the quote current before it. */
  predicate ClosesChain(asset: SyntheticAsset, end: Option<int>, changes: seq<PercentChange>, cur: Eod) {
    var q := SplicePoints(asset, end, changes, cur).quotes;
    forall i {:trigger Previous(cur, q, i)} :: 0 <= i < |q| ==> FromChange(q[i], Previous(cur, q, i), changes)
  }

  /** A skipped first change leaves the chain of the tail in place. */
  lemma ChainThroughSkip(asset: SyntheticAsset, end: Option<int>, changes: seq<PercentChange>, cur: Eod)
    requires |changes| > 0 && changes[0].date <= cur.eventDate
    requires ClosesChain(asset, end, changes[1..], cur)
    ensures ClosesChain(asset, end, changes, cur)
  {
    var q := SplicePoints(asset, end, changes, cur).quotes;
    assert q == SplicePoints(asset, end, changes[1..], cur).quotes;
    forall i | 0 <= i < |q|
      ensures FromChange(q[i], Previous(cur, q, i), changes)
    {
      FromChangeOfTail(q[i], Previous(cur, q, i), changes);
    }
  }

  /** An emitted first change starts the chain, and the tail's chain from the
      emitted quote follows it. */
  lemma ChainThroughEmit(asset: SyntheticAsset, end: Option<int>, changes: seq<PercentChange>, cur: Eod, quote: Eod)
    requires |changes| > 0 && cur.eventDate < changes[0].date && WithinEnd(end, changes[0].date)
    requires quote == Quote(asset, changes[0].date, Times(cur.close, changes[0].percent))
    requires ClosesChain(asset, end, changes[1..], quote)
    ensures ClosesChain(asset, end, changes, cur)
  {
    var q := SplicePoints(asset, end, changes, cur).quotes;
    var rest := SplicePoints(asset, end, changes[1..], quote).quotes;
    assert q == [quote] + rest by {
      SpliceEmits(asset, end, changes, cur);
    }
    forall i | 0 <= i < |q|
      ensures FromChange(q[i], Previous(cur, q, i), changes)
    {
      if i == 0 {
        assert changes[0].date == q[0].eventDate && IsRecord(changes, cur.eventDate, 0);
      } else {
        assert q[i] == rest[i - 1] && Previous(cur, q, i) == Previous(quote, rest, i - 1);
        FromChangeOfTail(q[i], Previous(cur, q, i), changes);
      }
    }
  }

  /** Each quote spliced from a component is made from one of its changes and
      the quote current before it. */
  lemma {:induction false} SplicedClosesChain(asset: SyntheticAsset, end: Option<int>, changes: seq<PercentChange>, cur: Eod)
    ensures ClosesChain(asset, end, changes, cur)
    decreases |changes|
  {
    if |changes| > 0 {
      var pct := changes[0];
      if pct.date <= cur.eventDate {
        SplicedClosesChain(asset, end, changes[1..], cur);
        ChainThroughSkip(asset, end, changes, cur);
      } else if WithinEnd(end, pct.date) {
        var quote := Quote(asset, pct.date, Times(cur.close, pct.percent));
        SplicedClosesChain(asset, end, changes[1..], quote);
        ChainThroughEmit(asset, end, changes, cur, quote);
      }
    }
  }

  /** Change `k` is dated after `floor` and after every change before it. */
  predicate IsRecord(changes: seq<PercentChange>, floor: int, k: int)
    requires 0 <= k < |changes|
  {
    floor < changes[k].date && forall m :: 0 <= m < k ==> changes[m].date < changes[k].date
  }

  /** The dates of a run of quotes. */
  function DatesOf(quotes: seq<Eod>): set<int> {
    set i | 0 <= i < |quotes| :: quotes[i].eventDate
  }

  /** The dates of the record changes within the component's end. */
  function RecordDates(end: Option<int>, changes: seq<PercentChange>, floor: int): set<int> {
    set k | 0 <= k < |changes| && IsRecord(changes, floor, k) && WithinEnd(end, changes[k].date) :: changes[k].date
  }

  /** After skipping a change at or before the floor, or consuming one that
      becomes the new floor, the records of the rest are the records of the whole. */
  lemma RecordsOfTail(changes: seq<PercentChange>, floor: int, floor': int, k: int)
    requires 0 < k < |changes|
    requires changes[0].date <= floor == floor' || floor < changes[0].date == floor'
    ensures IsRecord(changes, floor, k) <==> IsRecord(changes[1..], floor', k - 1)
  {
    var tail := changes[1..];
    assert tail[k - 1] == changes[k];
    assert forall m :: 0 <= m < k - 1 ==> tail[m] == changes[m + 1];
    if IsRecord(tail, floor', k - 1) {
      forall m | 0 <= m < k
        ensures changes[m].date < changes[k].date
      {
        if m > 0 {
          assert tail[m - 1] == changes[m];
        }
      }
    }
  }

  /** The dates a component emits are exactly the dates of its record changes
      that lie within its end: a change is used when it is later than the
      current quote and than every change before it. */
  lemma {:induction false} EmittedDatesAreRecords(asset: SyntheticAsset, end: Option<int>, changes: seq<PercentChange>, cur: Eod)
    ensures DatesOf(SplicePoints(asset, end, changes, cur).quotes) == RecordDates(end, changes, cur.eventDate)
    decreases |changes|
  {
    var q := SplicePoints(asset, end, changes, cur).quotes;
    var floor := cur.eventDate;
    if |changes| == 0 {
      assert RecordDates(end, changes, floor) == {};
    } else {
      var pct, tail := changes[0], changes[1..];
      if pct.date <= floor {
        EmittedDatesAreRecords(asset, end, tail, cur);
        forall k | 0 < k < |changes|
          ensures IsRecord(changes, floor, k) <==> IsRecord(tail, floor, k - 1)
        {
          RecordsOfTail(changes, floor, floor, k);
        }
        RecordDatesShift(end, changes, floor, floor);
      } else if !WithinEnd(end, pct.date) {
        NoRecordsAfterCutover(end, changes, floor);
      } else {
        var quote := Quote(asset, pct.date, Times(cur.close, pct.percent));
        var rest := SplicePoints(asset, end, tail, quote).quotes;
        SpliceEmits(asset, end, changes, cur);
        EmittedDatesAreRecords(asset, end, tail, quote);
        forall k | 0 < k < |changes|
          ensures IsRecord(changes, floor, k) <==> IsRecord(tail, pct.date, k - 1)
        {
          RecordsOfTail(changes, floor, pct.date, k);
        }
        RecordDatesShift(end, changes, floor, pct.date);
        DatesOfCons(quote, rest);
        assert IsRecord(changes, floor, 0);
      }
    }
  }

  /** When the first change is past the end, so is every later record. */
  lemma NoRecordsAfterCutover(end: Option<int>, changes: seq<PercentChange>, floor: int)
    requires |changes| > 0 && !WithinEnd(end, changes[0].date)
    ensures RecordDates(end, changes, floor) == {}
  {
    forall k | 0 <= k < |changes| && IsRecord(changes, floor, k)
      ensures !WithinEnd(end, changes[k].date)
    {
      if k > 0 {
        assert changes[0].date < changes[k].date;
      }
    }
  }

  /** The dates of a quote followed by a run of quotes. */
  lemma DatesOfCons(quote: Eod, rest: seq<Eod>)
    ensures DatesOf([quote] + rest) == {quote.eventDate} + DatesOf(rest)
  {
    var q := [quote] + rest;
    forall d | d in DatesOf(q)
      ensures d in {quote.eventDate} + DatesOf(rest)
    {
      var i :| 0 <= i < |q| && q[i].eventDate == d;
      if i > 0 {
        assert q[i] == rest[i - 1];
      }
    }
    forall d | d in {quote.eventDate} + DatesOf(rest)
      ensures d in DatesOf(q)
    {
      if d == quote.eventDate {
        assert q[0] == quote;
      } else {
        var i :| 0 <= i < |rest| && rest[i].eventDate == d;
        assert q[i + 1] == rest[i];
      }
    }
  }

  /** The record dates of the whole are those of the tail, plus the first
      change's date when it is a record within the end. */
  lemma RecordDatesShift(end: Option<int>, changes: seq<PercentChange>, floor: int, floor': int)
    requires 0 < |changes|
    requires forall k :: 0 < k < |changes| ==> (IsRecord(changes, floor, k) <==> IsRecord(changes[1..], floor', k - 1))
    ensures RecordDates(end, changes, floor) ==
      RecordDates(end, changes[1..], floor')
      + (if IsRecord(changes, floor, 0) && WithinEnd(end, changes[0].date) then {changes[0].date} else {})
  {
    var tail := changes[1..];
    forall d | d in RecordDates(end, tail, floor')
      ensures d in RecordDates(end, changes, floor)
    {
      var k :| 0 <= k < |tail| && IsRecord(tail, floor', k) && WithinEnd(end, tail[k].date) && tail[k].date == d;
      assert changes[k + 1] == tail[k];
      assert IsRecord(changes, floor, k + 1);
    }
    forall d | d in RecordDates(end, changes, floor)
      ensures d in RecordDates(end, tail, floor') || (IsRecord(changes, floor, 0) && WithinEnd(end, changes[0].date) && d == changes[0].date)
    {
      var k :| 0 <= k < |changes| && IsRecord(changes, floor, k) && WithinEnd(end, changes[k].date) && changes[k].date == d;
      if k > 0 {
        assert changes[k] == tail[k - 1];
        assert IsRecord(tail, floor', k - 1);
      }
    }
  }

  /** Once a record change past the end is reached, nothing after it is consumed:
      the component's remaining changes do not affect the result. */
  lemma {:induction false} CutoverIgnoresRest(asset: SyntheticAsset, end: Option<int>, changes: seq<PercentChange>, rest: seq<PercentChange>, cur: Eod)
    requires |changes| > 0 && IsRecord(changes, cur.eventDate, |changes| - 1)
    requires !WithinEnd(end, changes[|changes| - 1].date)
    ensures SplicePoints(asset, end, changes + rest, cur) == SplicePoints(asset, end, changes, cur)
    decreases |changes|
  {
    var all := changes + rest;
    var pct, tail := changes[0], changes[1..];
    assert all[0] == pct && all[1..] == tail + rest;
    var n := |changes|;
    if n > 1 {
      if pct.date <= cur.eventDate {
        RecordsOfTail(changes, cur.eventDate, cur.eventDate, n - 1);
        CutoverIgnoresRest(asset, end, tail, rest, cur);
      } else if WithinEnd(end, pct.date) {
        var quote := Quote(asset, pct.date, Times(cur.close, pct.percent));
        RecordsOfTail(changes, cur.eventDate, pct.date, n - 1);
        CutoverIgnoresRest(asset, end, tail, rest, quote);
        SpliceEmits(asset, end, all, cur);
        SpliceEmits(asset, end, changes, cur);
      }
    }
  }

  // ---------------------------------------------------------------------------
  // All components: skipping, failing, composing
  // ---------------------------------------------------------------------------

  /** A component that ended before the current quote contributes nothing and
      is never read: its own fetch error, if any, does not surface. */
  lemma SkippedComponentIsNotFetched(asset: SyntheticAsset, c: SyntheticComponent, rest: seq<SyntheticComponent>, w: World, cur: Eod)
    requires WorldRatiosDefined(w)
    requires Skipped(c, cur)
    ensures SpliceComponents(asset, [c] + rest, w, cur) == SpliceComponents(asset, rest, w, cur)
  {
    assert ([c] + rest)[1..] == rest;
  }

  /** A component ending on the current quote's date is still read, and so can
      fail, but contributes no quote: the skip test is strict. */
  lemma EndOnCurrentDateContributesNothing(asset: SyntheticAsset, c: SyntheticComponent, rest: seq<SyntheticComponent>, w: World, cur: Eod)
    requires WorldRatiosDefined(w)
    requires c.end == Some(cur.eventDate)
    ensures PctChange(c, w).err.None? ==>
      SpliceComponents(asset, [c] + rest, w, cur) == SpliceComponents(asset, rest, w, cur)
    ensures PctChange(c, w).err.Some? ==>
      SpliceComponents(asset, [c] + rest, w, cur) == Built([], cur, PctChange(c, w).err)
  {
    assert ([c] + rest)[1..] == rest;
    NothingAfterEnd(asset, c.end, PctChange(c, w).changes, cur);
  }

  /** A component whose end is not after the current quote's date emits nothing. */
  lemma {:induction false} NothingAfterEnd(asset: SyntheticAsset, end: Option<int>, changes: seq<PercentChange>, cur: Eod)
    requires end.Some? && end.value <= cur.eventDate
    ensures SplicePoints(asset, end, changes, cur) == Spliced([], cur)
    decreases |changes|
  {
    if |changes| > 0 && changes[0].date <= cur.eventDate {
      NothingAfterEnd(asset, end, changes[1..], cur);
    }
  }

  /** Splicing `comps + more` runs `comps` first; an error there ends the run,
      otherwise `more` continues from the quote `comps` left current. */
  lemma {:induction false} SpliceComponentsConcat(asset: SyntheticAsset, comps: seq<SyntheticComponent>, more: seq<SyntheticComponent>, w: World, cur: Eod)
    requires WorldRatiosDefined(w)
    ensures var b := SpliceComponents(asset, comps, w, cur);
      b.err.Some? ==> SpliceComponents(asset, comps + more, w, cur) == b
    ensures var b := SpliceComponents(asset, comps, w, cur);
      var n := SpliceComponents(asset, more, w, b.current);
      b.err.None? ==> SpliceComponents(asset, comps + more, w, cur) == Built(b.quotes + n.quotes, n.current, n.err)
    decreases |comps|
  {
    if |comps| == 0 {
      assert comps + more == more;
    } else {
      var c, tail := comps[0], comps[1..];
      assert (comps + more)[0] == c && (comps + more)[1..] == tail + more;
      if Skipped(c, cur) {
        SpliceComponentsConcat(asset, tail, more, w, cur);
      } else if PctChange(c, w).err.None? {
        var s := SplicePoints(asset, c.end, PctChange(c, w).changes, cur);
        SpliceComponentsConcat(asset, tail, more, w, s.current);
        var b := SpliceComponents(asset, tail, w, s.current);
        if b.err.None? {
          var n := SpliceComponents(asset, more, w, b.current);
          assert s.quotes + (b.quotes + n.quotes) == (s.quotes + b.quotes) + n.quotes;
        }
      }
    }
  }

  /** Some component of `comps` is the one that failed, in the sense of `FailsAt`. */
  predicate FailsSomewhere(asset: SyntheticAsset, comps: seq<SyntheticComponent>, w: World, cur: Eod)
    requires WorldRatiosDefined(w)
  {
    exists j :: 0 <= j < |comps| && FailsAt(asset, comps, w, cur, j)
  }

  /** A failure in the tail after a skipped component is a failure of the whole. */
  lemma FailureAfterSkip(asset: SyntheticAsset, comps: seq<SyntheticComponent>, w: World, cur: Eod)
    requires WorldRatiosDefined(w)
    requires |comps| > 0 && Skipped(comps[0], cur)
    requires FailsSomewhere(asset, comps[1..], w, cur)
    ensures FailsSomewhere(asset, comps, w, cur)
  {
    var c, tail := comps[0], comps[1..];
    var j :| 0 <= j < |tail| && FailsAt(asset, tail, w, cur, j);
    assert comps[..j + 1] == [c] + tail[..j] && comps[j + 1] == tail[j];
    SkippedComponentIsNotFetched(asset, c, tail[..j], w, cur);
    assert FailsAt(asset, comps, w, cur, j + 1);
  }

  /** A failure in the tail after a component that was read without error is a
      failure of the whole. */
  lemma FailureAfterRead(asset: SyntheticAsset, comps: seq<SyntheticComponent>, w: World, cur: Eod)
    requires WorldRatiosDefined(w)
    requires |comps| > 0 && !Skipped(comps[0], cur) && PctChange(comps[0], w).err.None?
    requires FailsSomewhere(asset, comps[1..], w, SplicePoints(asset, comps[0].end, PctChange(comps[0], w).changes, cur).current)
    ensures FailsSomewhere(asset, comps, w, cur)
  {
    var c, tail := comps[0], comps[1..];
    var s := SplicePoints(asset, c.end, PctChange(c, w).changes, cur);
    var j :| 0 <= j < |tail| && FailsAt(asset, tail, w, s.current, j);
    assert comps[..j + 1] == [c] + tail[..j] && comps[j + 1] == tail[j];
    assert ([c] + tail[..j])[1..] == tail[..j];
    assert FailsAt(asset, comps, w, cur, j + 1);
  }

  /** A failed run returns what the components before the failing one built:
      that component was read, not skipped, and its error is the one returned. */
  lemma {:induction false} FailureReturnsPrefix(asset: SyntheticAsset, comps: seq<SyntheticComponent>, w: World, cur: Eod)
    requires WorldRatiosDefined(w)
    requires SpliceComponents(asset, comps, w, cur).err.Some?
    ensures FailsSomewhere(asset, comps, w, cur)
    decreases |comps|
  {
    var c := comps[0];
    if Skipped(c, cur) {
      FailureReturnsPrefix(asset, comps[1..], w, cur);
      FailureAfterSkip(asset, comps, w, cur);
    } else if PctChange(c, w).err.Some? {
      assert comps[..0] == [];
      assert FailsAt(asset, comps, w, cur, 0);
    } else {
      var s := SplicePoints(asset, c.end, PctChange(c, w).changes, cur);
      FailureReturnsPrefix(asset, comps[1..], w, s.current);
      FailureAfterRead(asset, comps, w, cur);
    }
  }

  /** Component `j` is the one that failed: the components before it ran without
      error, it was not skipped from the quote they left current, its fetch
      failed with the returned error, and the returned quotes are theirs. */
  predicate FailsAt(asset: SyntheticAsset, comps: seq<SyntheticComponent>, w: World, cur: Eod, j: int)
    requires WorldRatiosDefined(w)
    requires 0 <= j < |comps|
  {
    var before := SpliceComponents(asset, comps[..j], w, cur);
    var b := SpliceComponents(asset, comps, w, cur);
    && before.err.None?
    && !Skipped(comps[j], before.current)
    && PctChange(comps[j], w).err.Some?
    && b.err == PctChange(comps[j], w).err
    && b.quotes == before.quotes
  }

  // ---------------------------------------------------------------------------
  // All components: how the closes chain
  // ---------------------------------------------------------------------------

  /** Quote `i` of the run that `comps` splice from `cur` was emitted by
      component `j`: the components before `j` emitted at most `i` quotes, and
      those up to and including `j` emitted more. */
  predicate ProducedBy(asset: SyntheticAsset, comps: seq<SyntheticComponent>, w: World, cur: Eod, i: int, j: int)
    requires WorldRatiosDefined(w)
    requires 0 <= j < |comps|
  {
    |SpliceComponents(asset, comps[..j], w, cur).quotes| <= i < |SpliceComponents(asset, comps[..j + 1], w, cur).quotes|
  }

  /** `q`, quote `i` of the run that `comps` splice from `cur`, was made from
      the quote `prev` current before it and a change of the component that
      emitted it. */
  predicate FromProducer(asset: SyntheticAsset, comps: seq<SyntheticComponent>, w: World, cur: Eod, i: int, q: Eod, prev: Eod)
    requires WorldRatiosDefined(w)
  {
    exists j :: 0 <= j < |comps| && ProducedBy(asset, comps, w, cur, i, j)
      && PctChange(comps[j], w).err.None? && FromChange(q, prev, PctChange(comps[j], w).changes)
  }

  /** Behind a skipped first component, a prefix of the components splices
      what the same prefix of the rest does. */
  lemma PrefixAfterSkip(asset: SyntheticAsset, comps: seq<SyntheticComponent>, w: World, cur: Eod, n: int)
    requires WorldRatiosDefined(w)
    requires 0 < n <= |comps| && Skipped(comps[0], cur)
    ensures SpliceComponents(asset, comps[..n], w, cur).quotes == SpliceComponents(asset, comps[1..][..n - 1], w, cur).quotes
  {
    assert comps[..n][0] == comps[0] && comps[..n][1..] == comps[1..][..n - 1];
  }

  /** Behind a first component read without error, a prefix of the components
      splices that component's quotes, then what the same prefix of the rest
      splices from the quote it left current. */
  lemma PrefixAfterRead(asset: SyntheticAsset, comps: seq<SyntheticComponent>, w: World, cur: Eod, n: int)
    requires WorldRatiosDefined(w)
    requires 0 < n <= |comps| && !Skipped(comps[0], cur) && PctChange(comps[0], w).err.None?
    ensures var s := SplicePoints(asset, comps[0].end, PctChange(comps[0], w).changes, cur);
      SpliceComponents(asset, comps[..n], w, cur).quotes == s.quotes + SpliceComponents(asset, comps[1..][..n - 1], w, s.current).quotes
  {
    assert comps[..n][0] == comps[0] && comps[..n][1..] == comps[1..][..n - 1];
  }

  /** A quote the rest emitted, behind a skipped first component, is the same
      quote of the whole run and was emitted by the same component. */
  lemma FromProducerAfterSkip(asset: SyntheticAsset, comps: seq<SyntheticComponent>, w: World, cur: Eod, i: int, q: Eod, prev: Eod)
    requires WorldRatiosDefined(w)
    requires |comps| > 0 && Skipped(comps[0], cur)
    requires FromProducer(asset, comps[1..], w, cur, i, q, prev)
    ensures FromProducer(asset, comps, w, cur, i, q, prev)
  {
    var tail := comps[1..];
    var j :| 0 <= j < |tail| && ProducedBy(asset, tail, w, cur, i, j)
      && PctChange(tail[j], w).err.None? && FromChange(q, prev, PctChange(tail[j], w).changes);
    PrefixAfterSkip(asset, comps, w, cur, j + 1);
    PrefixAfterSkip(asset, comps, w, cur, j + 2);
    assert comps[j + 1] == tail[j];
    assert ProducedBy(asset, comps, w, cur, i, j + 1);
  }

  /** Quote `r` the rest emitted from `mid`, behind a first component that
      was read without error and emitted `xs` ending in `mid`, is quote
      `r + |xs|` of the whole run, and was emitted by the same component. */
  lemma FromProducerAfterRead(asset: SyntheticAsset, comps: seq<SyntheticComponent>, w: World, cur: Eod, xs: seq<Eod>, mid: Eod, r: int, q: Eod, prev: Eod)
    requires WorldRatiosDefined(w)
    requires |comps| > 0 && !Skipped(comps[0], cur) && PctChange(comps[0], w).err.None?
    requires Spliced(xs, mid) == SplicePoints(asset, comps[0].end, PctChange(comps[0], w).changes, cur)
    requires FromProducer(asset, comps[1..], w, mid, r, q, prev)
    ensures FromProducer(asset, comps, w, cur, r + |xs|, q, prev)
  {
    var tail := comps[1..];
    var j :| 0 <= j < |tail| && ProducedBy(asset, tail, w, mid, r, j)
      && PctChange(tail[j], w).err.None? && FromChange(q, prev, PctChange(tail[j], w).changes);
    PrefixAfterRead(asset, comps, w, cur, j + 1);
    PrefixAfterRead(asset, comps, w, cur, j + 2);
    assert comps[j + 1] == tail[j];
    assert ProducedBy(asset, comps, w, cur, r + |xs|, j + 1);
  }

  /** A quote the first component emitted was emitted by component 0. */
  lemma FromProducerFirst(asset: SyntheticAsset, comps: seq<SyntheticComponent>, w: World, cur: Eod, i: int, q: Eod, prev: Eod)
    requires WorldRatiosDefined(w)
    requires |comps| > 0 && !Skipped(comps[0], cur) && PctChange(comps[0], w).err.None?
    requires 0 <= i < |SplicePoints(asset, comps[0].end, PctChange(comps[0], w).changes, cur).quotes|
    requires FromChange(q, prev, PctChange(comps[0], w).changes)
    ensures FromProducer(asset, comps, w, cur, i, q, prev)
  {
    PrefixAfterRead(asset, comps, w, cur, 1);
    assert comps[..0] == [] && comps[1..][..0] == [];
    assert ProducedBy(asset, comps, w, cur, i, 0);
  }

  /** Each quote the components splice starting at `cur` is made from a change
      of the component that emitted it and the quote current before it. */
  predicate ComponentClosesChain(asset: SyntheticAsset, comps: seq<SyntheticComponent>, w: World, cur: Eod)
    requires WorldRatiosDefined(w)
  {
    var q := SpliceComponents(asset, comps, w, cur).quotes;
    forall i {:trigger Previous(cur, q, i)} :: 0 <= i < |q| ==> FromProducer(asset, comps, w, cur, i, q[i], Previous(cur, q, i))
  }

  /** A skipped first component leaves the chain of the rest in place. */
  lemma ComponentChainAfterSkip(asset: SyntheticAsset, comps: seq<SyntheticComponent>, w: World, cur: Eod)
    requires WorldRatiosDefined(w)
    requires |comps| > 0 && Skipped(comps[0], cur)
    requires ComponentClosesChain(asset, comps[1..], w, cur)
    ensures ComponentClosesChain(asset, comps, w, cur)
  {
    var q := SpliceComponents(asset, comps, w, cur).quotes;
    assert q == SpliceComponents(asset, comps[1..], w, cur).quotes;
    forall i | 0 <= i < |q|
      ensures FromProducer(asset, comps, w, cur, i, q[i], Previous(cur, q, i))
    {
      FromProducerAfterSkip(asset, comps, w, cur, i, q[i], Previous(cur, q, i));
    }
  }

  /** Behind a first component read without error, the run is that
      component's quotes followed by what the rest splices from the quote it
      left current. */
  lemma ReadSplitsRun(asset: SyntheticAsset, comps: seq<SyntheticComponent>, w: World, cur: Eod)
    requires WorldRatiosDefined(w)
    requires |comps| > 0 && !Skipped(comps[0], cur) && PctChange(comps[0], w).err.None?
    ensures var s := SplicePoints(asset, comps[0].end, PctChange(comps[0], w).changes, cur);
      SpliceComponents(asset, comps, w, cur).quotes == s.quotes + SpliceComponents(asset, comps[1..], w, s.current).quotes
  {
  }

  /** A quote of the first component's own chain is chained in the whole run. */
  lemma ComponentChainAtHead(asset: SyntheticAsset, comps: seq<SyntheticComponent>, w: World, cur: Eod, xs: seq<Eod>, ys: seq<Eod>, i: int)
    requires WorldRatiosDefined(w)
    requires |comps| > 0 && !Skipped(comps[0], cur) && PctChange(comps[0], w).err.None?
    requires xs == SplicePoints(asset, comps[0].end, PctChange(comps[0], w).changes, cur).quotes
    requires ClosesChain(asset, comps[0].end, PctChange(comps[0], w).changes, cur)
    requires 0 <= i < |xs|
    ensures FromProducer(asset, comps, w, cur, i, (xs + ys)[i], Previous(cur, xs + ys, i))
  {
    assert (xs + ys)[i] == xs[i] && Previous(cur, xs + ys, i) == Previous(cur, xs, i);
    FromProducerFirst(asset, comps, w, cur, i, xs[i], Previous(cur, xs, i));
  }

  /** A quote of the rest's chain is chained in the whole run, shifted by the
      first component's count. */
  lemma ComponentChainAtRest(asset: SyntheticAsset, comps: seq<SyntheticComponent>, w: World, cur: Eod, xs: seq<Eod>, mid: Eod, ys: seq<Eod>, i: int)
    requires WorldRatiosDefined(w)
    requires |comps| > 0 && !Skipped(comps[0], cur) && PctChange(comps[0], w).err.None?
    requires Spliced(xs, mid) == SplicePoints(asset, comps[0].end, PctChange(comps[0], w).changes, cur)
    requires mid == Latest(cur, xs)
    requires ys == SpliceComponents(asset, comps[1..], w, mid).quotes
    requires ComponentClosesChain(asset, comps[1..], w, mid)
    requires |xs| <= i < |xs + ys|
    ensures FromProducer(asset, comps, w, cur, i, (xs + ys)[i], Previous(cur, xs + ys, i))
  {
    var r := i - |xs|;
    assert (xs + ys)[i] == ys[r] && Previous(cur, xs + ys, i) == Previous(mid, ys, r);
    assert FromProducer(asset, comps[1..], w, mid, r, ys[r], Previous(mid, ys, r));
    FromProducerAfterRead(asset, comps, w, cur, xs, mid, r, ys[r], Previous(mid, ys, r));
  }

  /** The first component's own chain, followed by the rest's chain from the
      quote it left current, is the chain of the whole. */
  lemma ComponentChainAfterRead(asset: SyntheticAsset, comps: seq<SyntheticComponent>, w: World, cur: Eod)
    requires WorldRatiosDefined(w)
    requires |comps| > 0 && !Skipped(comps[0], cur) && PctChange(comps[0], w).err.None?
    requires ClosesChain(asset, comps[0].end, PctChange(comps[0], w).changes, cur)
    requires ComponentClosesChain(asset, comps[1..], w, SplicePoints(asset, comps[0].end, PctChange(comps[0], w).changes, cur).current)
    ensures ComponentClosesChain(asset, comps, w, cur)
  {
    var s := SplicePoints(asset, comps[0].end, PctChange(comps[0], w).changes, cur);
    var ys := SpliceComponents(asset, comps[1..], w, s.current).quotes;
    var q := SpliceComponents(asset, comps, w, cur).quotes;
    ReadSplitsRun(asset, comps, w, cur);
    assert q == s.quotes + ys;
    forall i | 0 <= i < |q|
      ensures FromProducer(asset, comps, w, cur, i, q[i], Previous(cur, q, i))
    {
      if i < |s.quotes| {
        ComponentChainAtHead(asset, comps, w, cur, s.quotes, ys, i);
      } else {
        ComponentChainAtRest(asset, comps, w, cur, s.quotes, s.current, ys, i);
      }
    }
  }

  /** Each quote the components splice is made from a change of the component
      that emitted it and the quote current before it. */
  lemma {:induction false} ComponentsCloseChain(asset: SyntheticAsset, comps: seq<SyntheticComponent>, w: World, cur: Eod)
    requires WorldRatiosDefined(w)
    ensures ComponentClosesChain(asset, comps, w, cur)
    decreases |comps|
  {
    if |comps| > 0 {
      var c := comps[0];
      if Skipped(c, cur) {
        ComponentsCloseChain(asset, comps[1..], w, cur);
        ComponentChainAfterSkip(asset, comps, w, cur);
      } else if PctChange(c, w).err.None? {
        var s := SplicePoints(asset, c.end, PctChange(c, w).changes, cur);
        SplicedClosesChain(asset, c.end, PctChange(c, w).changes, cur);
        ComponentsCloseChain(asset, comps[1..], w, s.current);
        ComponentChainAfterRead(asset, comps, w, cur);
      }
    }
  }

  /** Splicing more components never takes a quote back. */
  lemma PrefixQuotesGrow(asset: SyntheticAsset, comps: seq<SyntheticComponent>, w: World, cur: Eod, a: int, b: int)
    requires WorldRatiosDefined(w)
    requires 0 <= a <= b <= |comps|
    ensures |SpliceComponents(asset, comps[..a], w, cur).quotes| <= |SpliceComponents(asset, comps[..b], w, cur).quotes|
  {
    SpliceComponentsConcat(asset, comps[..a], comps[a..b], w, cur);
    assert comps[..a] + comps[a..b] == comps[..b];
  }

  /** Only one component emitted quote `i`. */
  lemma ProducerIsUnique(asset: SyntheticAsset, comps: seq<SyntheticComponent>, w: World, cur: Eod, i: int, j: int, j': int)
    requires WorldRatiosDefined(w)
    requires 0 <= j < |comps| && 0 <= j' < |comps|
    requires ProducedBy(asset, comps, w, cur, i, j) && ProducedBy(asset, comps, w, cur, i, j')
    ensures j == j'
  {
    if j < j' {
      PrefixQuotesGrow(asset, comps, w, cur, j + 1, j');
    } else if j' < j {
      PrefixQuotesGrow(asset, comps, w, cur, j' + 1, j);
    }
  }

  /** At most one change is a record dated `q.eventDate`, so two quotes of
      that date made from the same quote and the same changes have one close. */
  lemma FromChangeCloseIsUnique(q: Eod, q': Eod, prev: Eod, changes: seq<PercentChange>)
    requires FromChange(q, prev, changes) && FromChange(q', prev, changes)
    requires q.eventDate == q'.eventDate
    ensures q.close == q'.close
  {
    var k :| 0 <= k < |changes| && IsRecord(changes, prev.eventDate, k)
      && changes[k].date == q.eventDate && q.close == Times(prev.close, changes[k].percent);
    var k' :| 0 <= k' < |changes| && IsRecord(changes, prev.eventDate, k')
      && changes[k'].date == q'.eventDate && q'.close == Times(prev.close, changes[k'].percent);
    assert k == k';
  }

  /** The close of quote `i` is determined by its date and the quote before
      it: two candidate quotes of the same date, both made as quote `i` from
      the same previous quote, have the same close. */
  lemma ProducedCloseIsUnique(asset: SyntheticAsset, comps: seq<SyntheticComponent>, w: World, cur: Eod, i: int, q: Eod, q': Eod, prev: Eod)
    requires WorldRatiosDefined(w)
    requires FromProducer(asset, comps, w, cur, i, q, prev) && FromProducer(asset, comps, w, cur, i, q', prev)
    requires q.eventDate == q'.eventDate
    ensures q.close == q'.close
  {
    var j :| 0 <= j < |comps| && ProducedBy(asset, comps, w, cur, i, j)
      && PctChange(comps[j], w).err.None? && FromChange(q, prev, PctChange(comps[j], w).changes);
    var j' :| 0 <= j' < |comps| && ProducedBy(asset, comps, w, cur, i, j')
      && PctChange(comps[j'], w).err.None? && FromChange(q', prev, PctChange(comps[j'], w).changes);
    ProducerIsUnique(asset, comps, w, cur, i, j, j');
    FromChangeCloseIsUnique(q, q', prev, PctChange(comps[j], w).changes);
  }

  /** Behind a seed, quotes chained from it are each chained from the quote before. */
  lemma ChainBehindSeed(asset: SyntheticAsset, comps: seq<SyntheticComponent>, w: World, seed: Eod, xs: seq<Eod>)
    requires WorldRatiosDefined(w)
    requires forall i {:trigger Previous(seed, xs, i)} :: 0 <= i < |xs| ==> FromProducer(asset, comps, w, seed, i, xs[i], Previous(seed, xs, i))
    ensures forall i :: 0 < i < |[seed] + xs| ==> FromProducer(asset, comps, w, seed, i - 1, ([seed] + xs)[i], ([seed] + xs)[i - 1])
  {
    var q := [seed] + xs;
    forall i | 0 < i < |q|
      ensures FromProducer(asset, comps, w, seed, i - 1, q[i], q[i - 1])
    {
      assert q[i] == xs[i - 1] && q[i - 1] == Previous(seed, xs, i - 1);
    }
  }

  /** Every quote of the synthetic history after the first is the quote
      before it (or, when there was history, its most recent quote) times the
      percent of a change of the component that emitted it: the first change
      of that component dated after the previous quote and after every
      earlier change of it. */
  lemma HistoryClosesChain(asset: SyntheticAsset, history: seq<Eod>, w: World)
    requires WorldRatiosDefined(w)
    ensures var h := BuildSyntheticHistory(asset, history, w);
      |history| > 0 ==> forall i :: 0 <= i < |h.quotes| ==>
        FromProducer(asset, asset.components, w, history[0], i, h.quotes[i], Previous(history[0], h.quotes, i))
    ensures var h := BuildSyntheticHistory(asset, history, w);
      |history| == 0 ==> forall i :: 0 < i < |h.quotes| ==>
        FromProducer(asset, asset.components, w, h.quotes[0], i - 1, h.quotes[i], h.quotes[i - 1])
  {
    var seed := Seed(asset, history);
    var b := SpliceComponents(asset, asset.components, w, seed).quotes;
    ComponentsCloseChain(asset, asset.components, w, seed);
    assert forall i {:trigger Previous(seed, b, i)} :: 0 <= i < |b| ==>
      FromProducer(asset, asset.components, w, seed, i, b[i], Previous(seed, b, i));
    if |history| == 0 {
      assert BuildSyntheticHistory(asset, history, w).quotes == [seed] + b;
      ChainBehindSeed(asset, asset.components, w, seed, b);
    } else {
      assert BuildSyntheticHistory(asset, history, w).quotes == b && seed == history[0];
    }
  }
}
