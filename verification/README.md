# Currency conversion domain, modelled in Dafny

This project models the business rules of a BRL currency converter.

- **Converter.** It asks a rate provider for the rate of the target currency. It rejects a rate of exactly zero. It divides the BRL amount by the rate. It records the conversion in a history store, and reports success only if that record was stored.
- **LegacyConverter.** The earlier, persistence-free converter.
- **ListConversions.** Asks the store for the latest ten conversions and returns whatever the store answers, without truncating it. It never returns a nil list on success.
- **Variation.** Takes one currency's stored records, oldest first. For each record it gives the change in rate against the record before it, as a value and as a percentage.

Collaborators are parameters whose values are the answers they give:

- the rate provider is `string -> Returned<real>`;
- the history store's insert is `ConversionRecord -> Option<Error>`;
- the two history queries are `int -> ...` and `string -> ...`.

Each use case returns an `Execution`. It holds the Go pair `(value, err)` together with the trace of calls the use case made on its collaborators. That trace is how call counts and "nothing is stored" are stated. A Go slice is `Nil` or `Items(elems)`, because the code distinguishes a nil list from an empty one.

Modules:

- `Types` (types.dfy) holds the shared data: records, errors, slices, the call trace.
- `Converter` (converter.dfy) models `api/internal/domain/usecase.go`.
- `LegacyConverter` (legacy_converter.dfy) models `api/domain/usecase.go`. It also proves that the persisting converter refines it.
- `ListConversions` (list_conversions.dfy) models `api/internal/domain/list_usecase.go`.
- `Variation` (variation.dfy) models `api/internal/domain/variation_usecase.go`.
- `History` (history.dfy) connects the converter and the variation engine through one store. Each request carries its own rate-provider and store answers, so the stored rates can change from one conversion to the next. The store is filled with every record the converter hands to it, including records whose save was reported as failed. It is then read back per currency. The variation engine's per-record specification is then applied to what was read back. It proves that no percentage over such a history divides by a zero previous rate. The history lister is not part of this composition.

The code rejects only a rate equal to zero (`api/internal/domain/usecase.go:51`), so a negative rate is converted and stored. The model proves that stored rates are non-zero, not that they are positive.

## Model

| member | source | states |
|---|---|---|
| Converter.RecordOf | api/internal/domain/usecase.go:59-65 | the stored record carries the requested currency, the rate, the input amount and the clock reading, and its converted amount times the rate gives back the input amount |
| Converter.Execute | api/internal/domain/usecase.go:38-74 | one rate lookup first; a provider error is returned unchanged with value 0 and nothing is stored; rate 0 gives the zero-rate error with value 0 and nothing is stored; any other rate (negative included) leads to exactly one save of the record; a refused save gives the fixed save-failure error and value 0, not the store's error; success holds exactly when one record was saved and accepted, and then the value is that record's converted amount; no saved record has rate 0 |
| Converter.HundredAtFiveIsTwenty | api/internal/domain/usecase_test.go:46-60 | 100 BRL at rate 5 converts to 20 with no error, and exactly that record is saved |
| Converter.ZeroRateMessage | api/internal/domain/usecase.go:51-53 | a zero rate yields the message "cotação não pode ser zero" and no save, whatever the store would answer |
| LegacyConverter.Execute | api/domain/usecase.go:20-36 | the only effect is one rate lookup; a provider error passes through with value 0; rate 0 gives the zero-rate error with value 0; otherwise the value times the rate is the input amount, with no error |
| LegacyConverter.PersistingRefinesLegacy | api/domain/usecase.go:20-36 | the persisting converter returns the same (value, error) pair as this revision if and only if none of its saves was refused; its trace is this revision's single lookup followed only by its saves |
| ListConversions.NonNil | api/internal/domain/list_usecase.go:34-37 | a nil store answer becomes an empty non-nil list; a non-nil answer is kept as it is; the elements are never changed |
| ListConversions.Execute | api/internal/domain/list_usecase.go:23-41 | the store is queried once, with limit 10; a store error passes through with a nil list; on success the list is non-nil and holds the store's records in order, and a non-nil answer is returned unchanged |
| ListConversions.SameAnswerSameListing | api/internal/domain/list_usecase.go:26-40 | the listing depends only on the store's answer to the limit-10 query, so repeated listings of an unchanged store are identical |
| ListConversions.ListingIsIdempotent | api/internal/domain/list_usecase.go:34-40 | listing a store that answers with an earlier listing reproduces that listing |
| ListConversions.EmptyAndNilAgree | api/internal/domain/list_usecase_test.go:72-87 | an empty store and a store that answers nil both list as an empty, non-nil list with no error |
| Variation.Percent | api/internal/domain/variation_usecase.go:50 | the percentage is a quotient (`Ratio`) exactly when the previous rate is non-zero, and then it times the previous rate is 100 times the change; a zero previous rate gives `ByZero` |
| Variation.Variations | api/internal/domain/variation_usecase.go:39-59 | the loop gives one variation per record, same order, instant and rate copied, zero change for the first record, and change and percentage against the previous record for the rest; the result is nil exactly when there are no records |
| Variation.Execute | api/internal/domain/variation_usecase.go:29-63 | the store is queried once for the currency; a store error passes through with a nil result; otherwise the result is the variation of the returned records, and is nil exactly when there are none |
| Variation.DescribesFormulas | api/internal/domain/variation_usecase.go:42-58 | a variation has one element per record in the same order, copies each record's instant and rate, has zero change and zero percent at the first element, and at every later element has the rate minus the previous rate and that change as a percentage of the previous rate |
| Variation.DescribesIsFunctional | api/internal/domain/variation_usecase.go:42-59 | a history has only one variation |
| Variation.DescribesPrefix | api/internal/domain/variation_usecase.go:42-59 | the variation of a history starts with the variation of each of its prefixes |
| Variation.DeltasTelescope | api/internal/domain/variation_usecase.go:43-49 | the value changes add up to the last rate minus the first, so the rates can be recovered from the first rate and the changes |
| Variation.PercentRecoversRate | api/internal/domain/variation_usecase.go:48-50 | when the previous rate is non-zero, raising it by the percentage gives the current rate |
| Variation.NonZeroRatesNeverDivideByZero | api/internal/domain/variation_usecase.go:48-50 | over records whose rates are all non-zero, no percentage divides by a zero previous rate |
| Variation.ThirtyToThirtyThree | api/internal/domain/variation_usecase_test.go:52-71 | rates 30 then 33 give changes 0 and 3, and percentages 0 and 10 |
| History.Stored | api/internal/domain/usecase.go:51-70 | the store holds at most the records the converter handed to `SaveHistory`, each request with its own rate and store answer, and counting saves answered with an error: every such record has a non-zero rate and a converted amount that, times that rate, is the input amount |
| History.ForCurrency | api/internal/domain/variation_usecase.go:33 | reading one currency back gives exactly the stored records of that currency, no more than were stored |
| History.RateChangeIsStored | api/internal/domain/usecase.go:45-73 | two conversions at rates 5 and then 6 are both stored, and their variation shows a change of 1, or 20 percent |
| History.StoredHistoryNeverDividesByZero | api/internal/domain/variation_usecase.go:48-50 | over a currency's history written by the converter, whatever non-zero rates each conversion received, no percentage divides by a zero previous rate |

## Left out

- The HTTP handlers (`api/internal/handler/http.go`, `api/handler/http.go`) are transport and are not modelled: method checks, JSON decoding and encoding, panic recovery, the status codes. Their comparison of an error's text against "moeda_nao_encontrada" becomes the tagged error `CurrencyNotFound`.
- The rate client (`api/internal/infra/awesome_api.go`) is an HTTP GET with JSON and number parsing. Only its answer is modelled: a rate, `CurrencyNotFound`, or another error carried as `Upstream(message)`.
- The store adapter (`api/internal/infra/mongo_adapter.go`) is a driver connection and insert with timeouts. Only its answers are modelled. The implementations of the two read queries are not part of this model. The variation engine takes the records in the order the store gives them.
- History.ForCurrency: keeps the store's insertion order instead of sorting by ascending timestamp. The store's sorting is not part of this model. The two orders agree when clock readings never decrease across requests.
- Logging and bootstrap (`api/pkg/logger/logger.go`, `api/main.go`, the logger mock) have no effect on outcomes.
- The command-line tools under `cli/` do only argument, file and network I/O around one multiplication or division.
- Concurrency and timeouts: each use case is one sequential request. A timeout is just another collaborator error.
- The clock (`time.Now()`) is the `Timestamp` parameter of `Converter.Execute`.
- float64 arithmetic is modelled with `real`. Rounding, NaN and infinite inputs are not modelled.
- Variation.Percent: a zero previous rate yields `ByZero`. It does not say which of +Inf, -Inf or NaN float64 would give.
- Variation.Percent: float64 overflow is not modelled. With a non-zero previous rate the percentage can still be +Inf or -Inf in float64, for example after rates 1e-307 and then 1.0. `Ratio` means only that the previous rate was non-zero, not that the float64 result is finite.
- History.StoredHistoryNeverDividesByZero: it rules out division by a zero previous rate only. It does not rule out float64 overflow, or rates that are already NaN or infinite.
