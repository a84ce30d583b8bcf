/** The converter and the variation engine around one history store: the
    converter fills the store, one currency's records are read back, and the
    variation engine's specification (`Variation.Describes`) is applied to
    them. Because the converter never hands a zero rate to the store, no
    percentage over such a history divides by a zero previous rate.
 */
module History {
  import opened Types
  import Converter
  import Variation

  /** One conversion request: currency, BRL amount, the clock reading, and
      the answers the rate provider and the store give while serving it. */
  datatype Request = Request(currency: string, amount: real, at: Timestamp,
                             quote: Returned<real>, answer: Option<Error>)

  /** The conversion the converter performs for one request. */
  function Serve(q: Request): Execution<real>
  {
    Converter.Execute(_ => q.quote, _ => q.answer, q.at, q.currency, q.amount)
  }

  /** The records a store that starts empty may hold after the converter has
      served `requests` in order: every record handed to `SaveHistory`, even
      one whose save was answered with an error, since the store may have
      applied a write it then reported as failed. */
  function Stored(requests: seq<Request>): (h: seq<ConversionRecord>)
    ensures |h| <= |requests|
    ensures forall i :: 0 <= i < |h| ==> h[i].rate != 0.0 && h[i].amountOut * h[i].rate == h[i].amountIn
  {
    if requests == [] then []
    else
      var earlier := Stored(requests[..|requests| - 1]);
      var x := Serve(requests[|requests| - 1]);
      earlier + Saved(x.calls)
  }

  /** The stored records of one currency, in insertion order. */
  function ForCurrency(h: seq<ConversionRecord>, code: string): (s: seq<ConversionRecord>)
    ensures |s| <= |h|
    ensures forall r :: r in s <==> r in h && r.currency == code
  {
    if h == [] then []
    else
      var rest := ForCurrency(h[1..], code);
      assert forall r :: r in h <==> r == h[0] || r in h[1..];
      if h[0].currency == code then [h[0]] + rest else rest
  }

  /** No percentage computed over a currency's history written by the
      converter divides by a zero previous rate. */
  lemma StoredHistoryNeverDividesByZero(requests: seq<Request>, code: string,
                                         vs: seq<Variation.CurrencyVariation>)
    requires Variation.Describes(ForCurrency(Stored(requests), code), vs)
    ensures forall i :: 0 <= i < |vs| ==> vs[i].percent.Ratio?
  {
  }

  /** Two accepted conversions of 100 BRL at rates 5 and then 6 store both
      records, and their variation has a change of 1, or 20 percent. */
  lemma RateChangeIsStored(t1: Timestamp, t2: Timestamp, vs: seq<Variation.CurrencyVariation>)
    requires Variation.Describes(
               ForCurrency(Stored([Request("USD", 100.0, t1, Returned(5.0, None), None),
                                   Request("USD", 100.0, t2, Returned(6.0, None), None)]), "USD"), vs)
    ensures |vs| == 2
    ensures vs[1].delta == 1.0 && vs[1].percent == Variation.Ratio(20.0)
  {
    var q1 := Request("USD", 100.0, t1, Returned(5.0, None), None);
    var q2 := Request("USD", 100.0, t2, Returned(6.0, None), None);
    var h := Stored([q1, q2]);
    assert [q1, q2][..1] == [q1];
    assert [q1][..0] == [];
    assert Saved(Serve(q1).calls)[0].rate == 5.0;
    assert Saved(Serve(q2).calls)[0].rate == 6.0;
    assert Stored([q1]) == Saved(Serve(q1).calls);
    assert h == Stored([q1]) + Saved(Serve(q2).calls);
    assert ForCurrency(h, "USD") == h by {
      assert h[1..][1..] == [];
    }
    assert vs[1] == Variation.Expected(h, 1);
  }
}
