/** The history lister: asks the store for the latest conversions and never
    hands a nil list to a caller on success.
 */
module ListConversions {
  import opened Types

  /** How many of the latest records a listing asks for. */
  const SearchLimit: int := 10

  /** The store's answer made safe for callers: nil becomes an empty list,
      anything else is left as it is. */
  function NonNil(s: Slice<ConversionRecord>): (r: Slice<ConversionRecord>)
    ensures r.Items?
    ensures Elems(r) == Elems(s)
    ensures s.Items? ==> r == s
  {
    if s.Nil? then Items([]) else s
  }

  /** Lists the latest conversions. */
  function Execute(reader: ConversionReader): (x: Execution<Slice<ConversionRecord>>)
    // the store is asked once, always for `SearchLimit` records
    ensures x.calls == [GetLastConversions(SearchLimit)]
    // the store's error is passed through unchanged, with a nil list
    ensures reader(SearchLimit).err.Some? ==> x.result == Returned(Nil, reader(SearchLimit).err)
    // on success the list is never nil and holds the store's records, in order
    ensures reader(SearchLimit).err.None? ==>
              && x.result.err.None?
              && x.result.value.Items?
              && x.result.value.elems == Elems(reader(SearchLimit).value)
    // a non-nil answer is returned as it is
    ensures reader(SearchLimit).err.None? && reader(SearchLimit).value.Items? ==>
              x.result.value == reader(SearchLimit).value
  {
    var answer := reader(SearchLimit);
    if answer.err.Some? then
      Execution(Returned(Nil, answer.err), [GetLastConversions(SearchLimit)])
    else
      Execution(Returned(NonNil(answer.value), None), [GetLastConversions(SearchLimit)])
  }

  /** The listing depends on nothing but the store's answer to the one query
      it makes, so two stores that give the same answer give the same listing,
      and listing twice against an unchanged store repeats the result. */
  lemma SameAnswerSameListing(r1: ConversionReader, r2: ConversionReader)
    requires r1(SearchLimit) == r2(SearchLimit)
    ensures Execute(r1) == Execute(r2)
  {
  }

  /** Listing is idempotent: feeding a listing back as the store's answer
      reproduces it. */
  lemma ListingIsIdempotent(reader: ConversionReader)
    ensures var first := Execute(reader).result;
            Execute(_ => first).result == first
  {
  }

  /** An empty store and a store that answers nil list the same: an empty,
      non-nil list. */
  lemma EmptyAndNilAgree()
    ensures Execute(_ => Returned(Nil, None)).result == Returned(Items([]), None)
    ensures Execute(_ => Returned(Items([]), None)).result == Returned(Items([]), None)
  {
  }
}
