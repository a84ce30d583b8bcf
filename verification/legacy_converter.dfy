/** The earlier converter revision, which computes the conversion but keeps
    no history. The persisting converter refines it: they agree unless the
    store refuses the record.
 */
module LegacyConverter {
  import opened Types
  import Converter

  /** Converts `amount` BRL into `currency` with one rate lookup and no other effect. */
  function Execute(provider: RateProvider, currency: string, amount: real): (x: Execution<real>)
    ensures x.calls == [GetRate(currency)]
    ensures provider(currency).err.Some? ==> x.result == Returned(0.0, provider(currency).err)
    ensures provider(currency).err.None? && provider(currency).value == 0.0 ==>
              x.result == Returned(0.0, Some(ZeroRate))
    ensures provider(currency).err.None? && provider(currency).value != 0.0 ==>
              x.result.err.None? && x.result.value * provider(currency).value == amount
  {
    var quote := provider(currency);
    if quote.err.Some? then
      Execution(Returned(0.0, quote.err), [GetRate(currency)])
    else if quote.value == 0.0 then
      Execution(Returned(0.0, Some(ZeroRate)), [GetRate(currency)])
    else
      Execution(Returned(amount / quote.value, None), [GetRate(currency)])
  }

  /** The persisting converter returns exactly what this revision returns if
      and only if no `SaveHistory` call of it failed; its calls are this
      revision's calls followed by at most the one save. */
  lemma PersistingRefinesLegacy(provider: RateProvider, repo: ConversionRepository, now: Timestamp,
                                currency: string, amount: real)
    ensures var p := Converter.Execute(provider, repo, now, currency, amount);
            var l := Execute(provider, currency, amount);
            && (p.result == l.result <==> forall r | r in Saved(p.calls) :: repo(r).None?)
            && p.calls[..1] == l.calls && |p.calls| == 1 + |Saved(p.calls)|
  {
  }
}
