/** Shared data model of the currency-conversion domain: the persisted
    conversion record, Go's (value, error) return pairs, nil-able slices,
    the error values the use cases produce or pass through, and the trace
    of calls a use case makes on its collaborators.
 */
module Types {

  datatype Option<+T> = None | Some(value: T)

  /** A Go slice, which is either nil or a (possibly empty) list of elements.
      The domain distinguishes the two: the history lister never returns nil
      on success, while the variation engine returns nil for empty input. */
  datatype Slice<+T> = Nil | Items(elems: seq<T>)

  /** The elements of a slice; a nil slice has none. */
  function Elems<T>(s: Slice<T>): seq<T>
  {
    match s
    case Nil => []
    case Items(xs) => xs
  }

  /** Go's `append(s, x)`: appending to a nil slice allocates a new one. */
  function Append<T>(s: Slice<T>, x: T): (r: Slice<T>)
    ensures r.Items?
    ensures Elems(r) == Elems(s) + [x]
  {
    Items(Elems(s) + [x])
  }

  /** Error values. Errors coming from a collaborator are passed through as
      they are; the use cases create only `ZeroRate` and `SaveFailed`. */
  datatype Error =
    | CurrencyNotFound          // the rate source does not know the currency
    | Upstream(message: string) // any other collaborator failure, verbatim
    | ZeroRate                  // the rate source answered with rate 0
    | SaveFailed                // the history store refused the record

  /** The text a caller sees for an error. */
  function Message(e: Error): string
  {
    match e
    case CurrencyNotFound => "moeda_nao_encontrada"
    case Upstream(m) => m
    case ZeroRate => "cotação não pode ser zero"
    case SaveFailed => "erro interno ao salvar conversão"
  }

  /** The pair `(value, err)` a Go function returns. */
  datatype Returned<+T> = Returned(value: T, err: Option<Error>)

  /** An instant on the wall clock, as read by the caller of the converter. */
  datatype Timestamp = Timestamp(nanos: int)

  /** One persisted conversion event. */
  datatype ConversionRecord = ConversionRecord(
    currency: string,   // target currency code, as supplied
    rate: real,         // price of one unit of `currency` in BRL
    amountIn: real,     // BRL amount supplied by the caller
    amountOut: real,    // amountIn / rate
    at: Timestamp)

  /** One call a use case makes on a collaborator. */
  datatype Call =
    | GetRate(currency: string)
    | SaveHistory(record: ConversionRecord)
    | GetLastConversions(limit: int)
    | GetConversionsByCurrency(code: string)

  /** The collaborators, as the answers they give. */
  type RateProvider = string -> Returned<real>
  type ConversionRepository = ConversionRecord -> Option<Error>
  type ConversionReader = int -> Returned<Slice<ConversionRecord>>
  type ConversionSearcher = string -> Returned<Slice<ConversionRecord>>

  /** What a use case returned, together with the calls it made, in order. */
  datatype Execution<+T> = Execution(result: Returned<T>, calls: seq<Call>)

  /** The records handed to `SaveHistory` in a trace, in call order. */
  function Saved(calls: seq<Call>): (rs: seq<ConversionRecord>)
    ensures |rs| <= |calls|
    ensures forall r :: r in rs <==> SaveHistory(r) in calls
  {
    if calls == [] then []
    else
      var rest := Saved(calls[1..]);
      assert forall c :: c in calls <==> c == calls[0] || c in calls[1..];
      if calls[0].SaveHistory? then [calls[0].record] + rest else rest
  }
}
