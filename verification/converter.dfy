/** The persisting converter: looks up the rate of the target currency,
    rejects a zero rate, divides, and records the conversion in the history
    store. The caller sees a result only if the record was stored.
 */
module Converter {
  import opened Types

  /** The record the converter builds for a conversion at rate `rate`. */
  function RecordOf(currency: string, rate: real, amount: real, now: Timestamp): (rec: ConversionRecord)
    requires rate != 0.0
    ensures rec.currency == currency && rec.rate == rate && rec.amountIn == amount && rec.at == now
    ensures rec.amountOut * rate == amount
  {
    ConversionRecord(currency, rate, amount, amount / rate, now)
  }

  /** Converts `amount` BRL into `currency`, with `now` standing for the
      clock reading taken when the record is built. */
  function Execute(provider: RateProvider, repo: ConversionRepository, now: Timestamp,
                   currency: string, amount: real): (x: Execution<real>)
    // the rate lookup is always made, first, for the requested currency
    ensures |x.calls| >= 1 && x.calls[0] == GetRate(currency)
    // the provider's error is passed through unchanged and nothing is stored
    ensures provider(currency).err.Some? ==>
              x.result == Returned(0.0, provider(currency).err) && x.calls == [GetRate(currency)]
    // a zero rate is rejected before anything is stored; any other rate,
    // negative ones included, goes on to the store
    ensures provider(currency).err.None? && provider(currency).value == 0.0 ==>
              x.result == Returned(0.0, Some(ZeroRate)) && x.calls == [GetRate(currency)]
    ensures provider(currency).err.None? && provider(currency).value != 0.0 ==>
              var rate := provider(currency).value;
              x.calls == [GetRate(currency), SaveHistory(ConversionRecord(currency, rate, amount, amount / rate, now))]
    // a store failure hides both the computed value and the store's own error
    ensures |Saved(x.calls)| == 1 && repo(Saved(x.calls)[0]).Some? ==>
              x.result == Returned(0.0, Some(SaveFailed))
    // all or nothing: success exactly when one record was stored, and then
    // the value returned is the stored converted amount
    ensures x.result.err.None? <==> |Saved(x.calls)| == 1 && repo(Saved(x.calls)[0]).None?
    ensures x.result.err.None? ==> x.result.value == Saved(x.calls)[0].amountOut
    ensures x.result.err.Some? ==> x.result.value == 0.0
    // at most one save, and never of a zero rate
    ensures |Saved(x.calls)| <= 1
    ensures forall r | r in Saved(x.calls) :: r.rate != 0.0 && r.amountOut * r.rate == r.amountIn
  {
    var quote := provider(currency);
    if quote.err.Some? then
      Execution(Returned(0.0, quote.err), [GetRate(currency)])
    else if quote.value == 0.0 then
      Execution(Returned(0.0, Some(ZeroRate)), [GetRate(currency)])
    else
      var record := RecordOf(currency, quote.value, amount, now);
      var calls := [GetRate(currency), SaveHistory(record)];
      assert Saved(calls) == [record] by {
        assert calls[1..][1..] == [];
      }
      if repo(record).Some? then
        Execution(Returned(0.0, Some(SaveFailed)), calls)
      else
        Execution(Returned(record.amountOut, None), calls)
  }

  /** The conversion of 100 BRL at rate 5 is 20, and the record stored says so. */
  lemma HundredAtFiveIsTwenty(now: Timestamp)
    ensures var x := Execute(_ => Returned(5.0, None), _ => None, now, "USD", 100.0);
            x.result == Returned(20.0, None)
            && Saved(x.calls) == [ConversionRecord("USD", 5.0, 100.0, 20.0, now)]
  {
  }

  /** A zero rate yields the fixed zero-rate message, whatever the store would do. */
  lemma ZeroRateMessage(repo: ConversionRepository, now: Timestamp, currency: string, amount: real)
    ensures var x := Execute(_ => Returned(0.0, None), repo, now, currency, amount);
            x.result.err.Some? && Message(x.result.err.value) == "cotação não pode ser zero"
            && Saved(x.calls) == []
  {
  }
}
