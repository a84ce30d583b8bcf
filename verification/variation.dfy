/** The variation engine: for the history of one currency, oldest first,
    the change of each record's rate against the record before it.
 */
module Variation {
  import opened Types

  /** A percentage of the previous rate: the quotient when the previous rate
      is non-zero, `ByZero` when it is zero. Dividing by zero does not stop
      the computation in float64; it yields an infinity or NaN, which this
      model does not tell apart. */
  datatype Pct = Ratio(value: real) | ByZero

  /** One record's rate and its change against the previous record. */
  datatype CurrencyVariation = CurrencyVariation(at: Timestamp, rate: real, delta: real, percent: Pct)

  /** `(delta / prev) * 100`: the change as a percentage of the previous rate. */
  function Percent(delta: real, prev: real): (p: Pct)
    ensures p.Ratio? <==> prev != 0.0
    ensures p.Ratio? ==> p.value * prev == delta * 100.0
  {
    if prev == 0.0 then ByZero
    else
      var q := delta / prev;
      assert q * prev == delta;
      Ratio(q * 100.0)
  }

  /** The variation of the record at index `i`: its instant and rate, and
      its change against the record before it; the first record has none. */
  function Expected(records: seq<ConversionRecord>, i: int): CurrencyVariation
    requires 0 <= i < |records|
  {
    if i == 0 then CurrencyVariation(records[0].at, records[0].rate, 0.0, Ratio(0.0))
    else
      var delta := records[i].rate - records[i - 1].rate;
      CurrencyVariation(records[i].at, records[i].rate, delta, Percent(delta, records[i - 1].rate))
  }

  /** `vs` is the variation of `records`: one element per record, in order. */
  predicate Describes(records: seq<ConversionRecord>, vs: seq<CurrencyVariation>)
  {
    && |vs| == |records|
    && forall i :: 0 <= i < |vs| ==> vs[i] == Expected(records, i)
  }

  /** The loop over the records; a nil slice comes back when there are none. */
  method Variations(records: seq<ConversionRecord>) returns (vs: Slice<CurrencyVariation>)
    ensures vs.Nil? <==> records == []
    ensures Describes(records, Elems(vs))
  {
    vs := Nil;
    for i := 0 to |records|
      invariant vs.Nil? <==> i == 0
      invariant |Elems(vs)| == i
      invariant forall j :: 0 <= j < i ==> Elems(vs)[j] == Expected(records, j)
    {
      var delta, percent := 0.0, Ratio(0.0);
      if i > 0 {
        var prev := records[i - 1].rate;
        delta := records[i].rate - prev;
        percent := Percent(delta, prev);
      }
      vs := Append(vs, CurrencyVariation(records[i].at, records[i].rate, delta, percent));
    }
  }

  /** The variation of the stored history of `currency`. */
  method Execute(searcher: ConversionSearcher, currency: string) returns (x: Execution<Slice<CurrencyVariation>>)
    // the store is asked once, for this currency
    ensures x.calls == [GetConversionsByCurrency(currency)]
    // the store's error is passed through unchanged, with a nil result
    ensures searcher(currency).err.Some? ==> x.result == Returned(Nil, searcher(currency).err)
    // otherwise one variation per record, in order; nil exactly when there are no records
    ensures searcher(currency).err.None? ==>
              var records := Elems(searcher(currency).value);
              && x.result.err.None?
              && (x.result.value.Nil? <==> records == [])
              && Describes(records, Elems(x.result.value))
  {
    var answer := searcher(currency);
    if answer.err.Some? {
      return Execution(Returned(Nil, answer.err), [GetConversionsByCurrency(currency)]);
    }
    var vs := Variations(Elems(answer.value));
    x := Execution(Returned(vs, None), [GetConversionsByCurrency(currency)]);
  }

  /** What `Describes` says of each element: same length and order, instant
      and rate copied, no change at the first element, and every later element
      measured against its predecessor. */
  lemma DescribesFormulas(records: seq<ConversionRecord>, vs: seq<CurrencyVariation>)
    requires Describes(records, vs)
    ensures |vs| == |records|
    ensures forall i :: 0 <= i < |vs| ==> vs[i].at == records[i].at && vs[i].rate == records[i].rate
    ensures |vs| > 0 ==> vs[0].delta == 0.0 && vs[0].percent == Ratio(0.0)
    ensures forall i :: 0 < i < |vs| ==>
              && vs[i].delta == records[i].rate - records[i - 1].rate
              && vs[i].percent == Percent(vs[i].delta, records[i - 1].rate)
  {
  }

  /** The variation of a history is unique: `Describes` leaves no choice. */
  lemma DescribesIsFunctional(records: seq<ConversionRecord>, v1: seq<CurrencyVariation>, v2: seq<CurrencyVariation>)
    requires Describes(records, v1) && Describes(records, v2)
    ensures v1 == v2
  {
  }

  /** Every prefix of a variation is the variation of the same prefix. */
  lemma DescribesPrefix(records: seq<ConversionRecord>, vs: seq<CurrencyVariation>, n: nat)
    requires Describes(records, vs) && n <= |records|
    ensures Describes(records[..n], vs[..n])
  {
  }

  /** Sum of the value changes. */
  function TotalDelta(vs: seq<CurrencyVariation>): real
  {
    if vs == [] then 0.0 else TotalDelta(vs[..|vs| - 1]) + vs[|vs| - 1].delta
  }

  /** The value changes telescope: together they add up to the difference
      between the last and the first rate, so the rates can be recovered from
      the first rate and the changes. */
  lemma {:induction false} DeltasTelescope(records: seq<ConversionRecord>, vs: seq<CurrencyVariation>)
    requires Describes(records, vs) && |records| > 0
    ensures TotalDelta(vs) == records[|records| - 1].rate - records[0].rate
  {
    var n := |records|;
    if n == 1 {
      assert vs[..0] == [];
    } else {
      DescribesPrefix(records, vs, n - 1);
      DeltasTelescope(records[..n - 1], vs[..n - 1]);
    }
  }

  /** A percentage taken of a non-zero previous rate, applied to that rate,
      gives the current rate. */
  lemma PercentRecoversRate(records: seq<ConversionRecord>, vs: seq<CurrencyVariation>, i: int)
    requires Describes(records, vs) && 0 < i < |vs| && vs[i].percent.Ratio?
    ensures records[i - 1].rate * (1.0 + vs[i].percent.value / 100.0) == records[i].rate
  {
  }

  /** Over a history of non-zero rates no percentage divides by zero. */
  lemma NonZeroRatesNeverDivideByZero(records: seq<ConversionRecord>, vs: seq<CurrencyVariation>)
    requires Describes(records, vs)
    requires forall i :: 0 <= i < |records| ==> records[i].rate != 0.0
    ensures forall i :: 0 <= i < |vs| ==> vs[i].percent.Ratio?
  {
  }

  /** A rise from 30 to 33 is a change of 3, or 10 percent. */
  lemma ThirtyToThirtyThree(records: seq<ConversionRecord>, vs: seq<CurrencyVariation>)
    requires Describes(records, vs) && |records| == 2
    requires records[0].rate == 30.0 && records[1].rate == 33.0
    ensures vs[0].delta == 0.0 && vs[0].percent == Ratio(0.0)
    ensures vs[1].delta == 3.0 && vs[1].percent == Ratio(10.0)
  {
  }
}
