/** The records of eod/types.go: quotes, synthetic asset definitions and their
    components, and percent changes. Dates are whole days (`int`) and prices are
    exact reals; IEEE rounding is not modelled. */
module EodTypes {
  import opened Wrappers

  /** One end-of-day quote. `ticker` is the key the adjustment loop groups by. */
  datatype Eod = Eod(
    eventDate: int,
    ticker: string,
    compositeFigi: string,
    close: real,
    adjClose: real,
    dividend: real,
    splitFactor: real)

  /** `x` and `y` are the same quote except, possibly, for the adjusted close. */
  predicate SameQuoteBut(x: Eod, y: Eod) {
    x.eventDate == y.eventDate && x.ticker == y.ticker && x.compositeFigi == y.compositeFigi
    && x.close == y.close && x.dividend == y.dividend && x.splitFactor == y.splitFactor
  }

  /** Multiplication of prices and factors. The models use it, and `Over`, instead
      of the bare operators so that their proofs can treat each product and
      quotient as one term. */
  function Times(x: real, y: real): real {
    x * y
  }

  /** A product of non-zero factors is not zero. */
  lemma TimesNonZero(x: real, y: real)
    requires x != 0.0 && y != 0.0
    ensures Times(x, y) != 0.0
  {
  }

  /** Division of a price by a non-zero price or factor. */
  function Over(x: real, y: real): real
    requires y != 0.0
  {
    x / y
  }

  /** One parsed row of a component's price series: a date and its adjusted close. */
  datatype PricePoint = PricePoint(date: int, adjClose: real)

  /** The ratio of the adjusted close on `date` to the one on the preceding observation. */
  datatype PercentChange = PercentChange(date: int, percent: real)

  /** One segment of a synthetic asset. The percent changes come from the file
      `fileName` when it is non-empty, else from the database series of
      `compositeFigi`. `end` is None where the Go code holds the zero time. */
  datatype SyntheticComponent = SyntheticComponent(
    name: string,
    fileName: string,
    compositeFigi: string,
    end: Option<int>)

  /** A synthetic asset definition: its identity, start date and components in timeline order. */
  datatype SyntheticAsset = SyntheticAsset(
    category: string,
    components: seq<SyntheticComponent>,
    compositeFigi: string,
    name: string,
    startDate: int,
    symbol: string)

  /** Dates strictly increase along `qs`. */
  predicate StrictlyAscending(qs: seq<Eod>) {
    forall i, j :: 0 <= i < j < |qs| ==> qs[i].eventDate < qs[j].eventDate
  }
}
