# A verified model of grpcx

grpcx bundles what a gRPC service with a REST gateway needs. This project models, in Dafny, the parts of
it that keep state, loop or compute, and proves what they are for:

- **Rate limiting** (`TokenBuckets`, `Limiter`, `LimiterRuns`, `Interleaving`, `InterleavingRefinement`,
  `InterleavingSafety`, `InterleavingGrants`, `InterleavingBudget`, `InterleavingLinearization`,
  `InterleavingNoticed`). A limiter keeps a token bucket for each key and forgets keys that have not been
  used for a while. `Limiter` has it as objects whose operations are atomic and read the clock once;
  `LimiterRuns` reasons about whole runs of calls and sweeps. `Interleaving` has it as a step machine for
  any number of concurrent callers and one sweeper, one map or lock operation to a step;
  `InterleavingRefinement` shows that undisturbed steps are the atomic operations, `InterleavingSafety` says
  what every schedule keeps of the map and the sweeper, `InterleavingGrants` and `InterleavingBudget` bound
  what a key is granted between any two moments of any schedule, `InterleavingLinearization` shows that
  concurrent calls are answered as sequential ones, in the order of their takes, and `InterleavingNoticed`
  says exactly which deletions that survives.
- **Errors** (`Errs`, `I18n`, `ErrorPipeline`, `ErrorSharing`, `Gateway`). An application error becomes a
  gRPC status, its message is localised in place, internal errors are replaced by a fallback, and the
  gateway folds the details into a JSON body. `ErrorSharing` has one error object returned to any number of
  requests at the same time.
- **Header passing** (`HeaderPassing`), with a decision cache that outlives requests and is shared by
  concurrent ones.
- **Collections** (`Orders`, `SlicesSort`, `Collections`): deduplicating and sorting.
- **Text** (`Texts`, `Redaction`, `FieldMask`) and **paging** (`Paging`).

## Conventions

- Time is an integer number of nanoseconds. A token is `unit` level units and `rate` units flow into a
  bucket per nanosecond, so every rational rate is exact. The bucket itself (golang.org/x/time/rate) is a
  written assumption: it starts full, refills lazily up to the burst, and gives out one token when there
  is one; a refused take leaves it unchanged. A burst that is not positive holds nothing.
- Where Go iterates over a map, a method either takes the keys in any order or is given the order, and
  the results are proved for all orders (`Orders.VisitOrder`).
- Metadata values have a type of their own; how `%v` prints one, how a template renders, and how a status
  error prints are parameters of the error pipeline. Decisions on headers, keys and orders are parameters
  too.
- The source's sort is replaced by an insertion sort. Under a total order every sort gives the same
  sequence (`Orders.AscendingUnique`), so this does not show.
- The prefix of metadata headers is the one of grpc-gateway, header names are canonicalised as
  net/textproto does it, white space is Unicode's, and the numbers of the status codes are gRPC's.

## Where the code does not do what one might expect

- The sweeper can delete an entry that was touched after its check. `DeletedStillStaleIff` says exactly
  when, and `FreshEntryDeleted` gives the schedule. So evictions need not be a ttl apart, as they are when
  operations are atomic (`AdmissionBound`): `EvictedInNoTime` has a key used, evicted and used again at one
  clock value. What a key can be granted all the same is bounded by `GrantBoundInFlight`, which charges a
  burst and the inflow to each deletion and to each caller already past getOrCreate, by
  `GrantBoundByHolders`, which charges the inflow once and a token to each caller left holding a deleted
  entry, and by `GrantBound` from the start. Callers can notice a deletion exactly when one of them still
  held the entry or its bucket was not full (`DeleteUnnoticedIff`).
- Eviction can be noticed when a bucket takes longer than the ttl to refill (`EvictionInvisibleIff`). The
  staleness test is strict, so the condition is on ttl + 1 nanoseconds.
- A shared error object remembers the language of an earlier request when the code has no translation in
  the present one (`HistoryInvisibleIff`). Requests that share it at the same time can get each other's
  language even when all languages have a translation (`UndisturbedIff`, `RaceLeaks`).
- An application error with status Unknown turns into the fallback when it is converted a second time
  (`IdempotentIff`).
- A sensitive field whose name contains another one followed by ':' or '=' makes redaction depend on the
  iteration order (`OrderDoesNotShowIff`) and a second redaction change the text (`RedactIdempotentIff`).
- An empty translation hides the one of the fallback language (`EveryLanguageIff`).
- An empty JSON object gives the empty mask, which splits into one empty path (`MaskRoundTripIff`); a JSON
  null counts as an empty object (`PatchFieldMask`).
- The row offset wraps around at 2^32, and for a page 0 that was not normalised it is near 2^32
  (`OffsetExactIff`, `WrappedPageRepeats`).
- The comment on the collection package calls its functions pure; `DeduplicateAndSortSlice` reorders and
  clears its argument, and the model follows the code.

## Model

| member | source | states |
|---|---|---|
| `TokenBuckets.LevelLater` | ratelimit/tokenbucket.go:71 | the bucket the limiter relies on refills lazily: its level at a later time is the level at an earlier one plus the inflow in between, capped, whatever was read in between |
| `TokenBuckets.TakeLevel` | ratelimit/tokenbucket.go:58 | a granted take removes exactly one token, a refused one nothing, and the level stays between empty and full |
| `Limiter.Entry.Touch` | ratelimit/tokenbucket.go:32-36 | a touch sets the time of last use |
| `Limiter.Entry.Take` | ratelimit/tokenbucket.go:58 | the bucket answers and is updated as the bucket model says |
| `Limiter.TokenBucketLimiter.constructor` | ratelimit/tokenbucket.go:43-52 | a new limiter has no entries and keeps them for ten minutes |
| `Limiter.TokenBucketLimiter.GetOrCreate` | ratelimit/tokenbucket.go:66-78 | returns the key's own entry, building a full one when there is none and changing no other |
| `Limiter.TokenBucketLimiter.Allow` | ratelimit/tokenbucket.go:55-59 | answers as the key's bucket does at that time, and leaves the table with that entry used and touched and all others as they were |
| `Limiter.TokenBucketLimiter.EvictStale` | ratelimit/tokenbucket.go:93-105 | in whatever order the entries are visited, exactly those last seen more than ttl ago are gone |
| `LimiterRuns.OtherKeysInvisible` | ratelimit/tokenbucket.go:55-105 | in every run, each answer for a key is the one it would get if no other key had ever been used |
| `LimiterRuns.AdmissionBound` | ratelimit/tokenbucket.go:55-105 | between two uses of a key T apart with n evictions of it: n > 0 needs n*ttl < T, and the calls admitted are at most (n+1) bursts plus the rate over T - n*ttl |
| `LimiterRuns.AdmissionBoundAnyWindow` | ratelimit/tokenbucket.go:55-105 | the same bound for any window of events, n counting the evictions between the key's first and last use in it |
| `LimiterRuns.DrainTellsApart` | ratelimit/tokenbucket.go:66-105 | when rate*(ttl+1) is less than a burst, draining a key, sweeping and draining again gets an answer that a limiter without eviction would not give |
| `LimiterRuns.EvictionInvisibleIff` | ratelimit/tokenbucket.go:66-105 | no run can be told from the same run on a limiter that never evicts, exactly when rate*(ttl+1) is at least a burst |
| `LimiterRuns.Retention` | ratelimit/tokenbucket.go:47-50 | with sweeps at most five minutes apart, at every moment each stored key was used in the last 15 minutes and each key used in the last 10 minutes is stored |
| `Interleaving.Invariant` | ratelimit/tokenbucket.go:55-105 | in every interleaving of callers and the sweeper: the map holds each key's own entries, entries ever stored are in the map or were removed by a sweep, no two callers offer the same entry, and no entry gave out more than a burst and the inflow since it was built |
| `InterleavingRefinement.ReachableOwnEntries` | ratelimit/tokenbucket.go:66-78 | in every reachable state different keys have different entries, which is all the refinement of the atomic operations needs |
| `InterleavingRefinement.UndisturbedAllow` | ratelimit/tokenbucket.go:55-78 | the steps of a call, with nothing in between, are the atomic Allow: same table, same answer |
| `InterleavingRefinement.UndisturbedSweep` | ratelimit/tokenbucket.go:93-105 | the steps of a sweep over all keys in any order, with nothing in between, are the atomic sweep |
| `InterleavingSafety.NeverOverwritten` | ratelimit/tokenbucket.go:76 | a stored entry is never overwritten: a step keeps it, or it is the Delete of that entry, and only LoadOrStore puts one in where there was none |
| `InterleavingSafety.CallersHoldPublished` | ratelimit/tokenbucket.go:66-78 | a caller past getOrCreate holds the entry the map has for its key or one a sweep removed |
| `InterleavingSafety.TouchedBeforeTake` | ratelimit/tokenbucket.go:55-78 | in every run, every caller about to take, winner or loser of LoadOrStore, began its call, then got from the map the very entry the map held, then touched that entry, setting its time, and has done nothing since |
| `InterleavingSafety.FinishesAlone` | ratelimit/tokenbucket.go:55-78 | in every reachable state a call left alone comes to a take for its key and is answered by it, a loser of LoadOrStore from the stored entry |
| `InterleavingSafety.LoserNeverTaken` | ratelimit/tokenbucket.go:74-77 | the entry of a caller that lost LoadOrStore is never held, touched or taken from again and stays, as a whole, as it was built |
| `InterleavingSafety.DeletesWhatWasChecked` | ratelimit/tokenbucket.go:95-104 | before every Delete there is a Check that found that very entry stale, and the map held it all the way in between |
| `InterleavingSafety.SweepBegan` | ratelimit/tokenbucket.go:93-94 | every sweep that is on began at one SweepBegin, and its cutoff is the time then less the ttl |
| `InterleavingSafety.ObservedOnce` | ratelimit/tokenbucket.go:95 | one sweep looks at a key at most once |
| `InterleavingSafety.DeletedStillStaleIff` | ratelimit/tokenbucket.go:93-104 | the entry a Delete removes was last seen more than the ttl before the sweep began exactly when nobody touched it between the Check and the Delete |
| `InterleavingSafety.FreshEntryDeleted` | ratelimit/tokenbucket.go:95-104 | for every configuration there is a schedule in which the deleted entry was touched at that very moment |
| `InterleavingSafety.EvictedInNoTime` | ratelimit/tokenbucket.go:55-105 | for every configuration there is a schedule in which a key is used, deleted and used again at one clock value, so that one eviction between two uses does not need more than a ttl |
| `InterleavingGrants.RetiredForGood` | ratelimit/tokenbucket.go:55-105 | an entry that a sweep removed and no caller holds is never held or taken from again |
| `InterleavingGrants.GrantBoundWindow` | ratelimit/tokenbucket.go:55-105 | between any two moments of any interleaving the tokens given for a key are within one burst and the inflow in between for each entry that could be reached at the first moment and each stored since |
| `InterleavingGrants.GrantBoundInFlight` | ratelimit/tokenbucket.go:55-105 | between any two moments, T apart, the takes granted for a key are at most (1 + callers past getOrCreate at the first moment + deletes since) * (burst + rate*T) |
| `InterleavingGrants.GrantBound` | ratelimit/tokenbucket.go:55-105 | in every interleaving the takes granted for a key in elapsed time T are at most (1 + deletes) * (burst + rate*T) |
| `InterleavingBudget.GrantBoundByHolders` | ratelimit/tokenbucket.go:55-105 | between any two moments, T apart, the tokens granted for a key are within (1 + deletes) bursts, rate*T once, and one for each caller that held an entry no longer in the map at the first moment or held the one a Delete took out since |
| `InterleavingLinearization.EntryLinearizable` | ratelimit/tokenbucket.go:55-58 | in every interleaving the takes from one entry are answered, one after the other, as calls at those times to a sequential limiter that never evicts |
| `InterleavingLinearization.Linearizable` | ratelimit/tokenbucket.go:55-78 | as long as every Delete of a key, if any, takes out an entry that nobody holds and whose bucket is full, concurrent calls for it are answered as if made one after the other, in the order and at the times of their takes, to a sequential limiter that never evicts |
| `InterleavingNoticed.DeleteUnnoticedIff` | ratelimit/tokenbucket.go:55-105 | when earlier Deletes of a key took out full entries that nobody held, no way to go on after one more can be told from a sequential limiter that never evicts, exactly when that one does so too or the burst is not positive |
| `HeaderPassing.SetHeader` | server/middleware.go:50-54 | adds the values, in order, under the canonical name |
| `HeaderPassing.CanonicalAt` | server/middleware.go:50-54 | the form of a name that Header.Add uses: upper case at the start and after each hyphen, lower case elsewhere, all else as it is |
| `HeaderPassing.CanonicalOther` | server/middleware.go:50-54 | a name with a character that names cannot have is used as it is |
| `HeaderPassing.PassingHeaderMiddleware.ServeHTTP` | server/middleware.go:29-48 | for any sound cache the header passed on is the one of the rule without a cache, and the cache stays sound and gains exactly the accepted names |
| `HeaderPassing.CacheInvisible` | server/middleware.go:30-48 | however the cache operations of any number of concurrent requests are interleaved, the shared cache only ever says what the rule says, it has every accepted name that some request is through with, and every finished request has the header of the rule without a cache |
| `HeaderPassing.Progress` | server/middleware.go:34-43 | a load and a store bring a request one name further |
| `HeaderPassing.OrderInvisible` | server/middleware.go:34-43 | for every header map and any two iteration orders, each name gets the same multiset of values, which is what the incoming names contribute |
| `HeaderPassing.PrefixedCanonical` | server/middleware.go:39 | the prefixed form of a canonical name is canonical |
| `HeaderPassing.OwnAndCopied` | server/middleware.go:34-43 | with canonical names, a name has its own values and those of the accepted header it is the prefixed name of, one after the other, and nothing else |
| `HeaderPassing.PassedIs` | server/middleware.go:34-43 | with canonical names, and spelled out: each name has the values that came in under it and those of the accepted name k with Grpc-Metadata- + k equal to it, each once, one after the other, and no others |
| `HeaderPassing.ValuesInOrder` | server/middleware.go:34-43 | values keep their order when no incoming name is the prefixed name of an accepted one |
| `HeaderPassing.ValueOrderFixedIff` | server/middleware.go:34-43 | the order of a name's values is the same for all iteration orders exactly when its own values and the copied ones commute |
| `FieldMask.PatchFieldMask` | server/middleware.go:123-160 | a mask is injected exactly for a PATCH without one whose body is a JSON object or null, and it joins the keys, none for null, in ascending order |
| `Orders.LexLeqIff` | server/middleware.go:153 | the order of the paths: a prefix comes first, and otherwise the first different character decides |
| `FieldMask.MaskUnique` | server/middleware.go:149-156 | the mask does not depend on the map's iteration order |
| `FieldMask.MaskRoundTripIff` | server/middleware.go:149-156 | splitting the mask at commas gives back the ascending key list exactly when there is a key and no key has a comma |
| `Texts.JoinShort` | server/middleware.go:156 | joining no part gives the empty text and joining one gives that part |
| `Texts.JoinConcat` | server/middleware.go:156 | joining two lists end to end is joining each with the separator in between |
| `Texts.JoinSplit` | server/middleware.go:156 | joining undoes splitting, for every text |
| `Texts.SpacesAre` | server/log.go:34 | the white space is the 25 characters that Unicode lists |
| `Texts.FieldsOfSpread` | server/log.go:34 | whatever runs of white space stand before, between and after them, splitting gives the tokens |
| `Texts.SpreadOfFields` | server/log.go:34 | every text is its tokens with white space before, between and after them |
| `Texts.FieldsJoined` | server/log.go:34-42 | splitting at white space gives back any list of tokens joined by spaces |
| `Texts.SplitJoinIff` | server/middleware.go:156 | splitting undoes joining exactly for a non-empty list without the separator in its parts |
| `Redaction.RedactSensitive` | server/log.go:33-43 | with any iteration order of the field set for each token, each token is replaced by the last match's mask |
| `Redaction.LastMatchStays` | server/log.go:36-40 | for any field set, the token gets the mask of the last field tried that it begins with, and stays when there is none |
| `Redaction.RedactionIs` | server/log.go:33-43 | without shadowing, the tokens of the result are those of the data, where exactly those beginning with a listed field and : or = became the field and the mask |
| `Redaction.FieldRedacted` | server/log.go:37-38 | for any listed field and any rest, both the field with : and the rest and the field with = and the rest become the field with the mask, in any iteration order |
| `Redaction.RedactIdempotentIff` | server/log.go:33-43 | redacting what was redacted changes nothing, for all data and orders, exactly when no listed field shadows another |
| `Redaction.PlainNamesUnambiguous` | server/log.go:37 | field names without ':' and '=' never shadow one another |
| `Redaction.OrderDoesNotShowIff` | server/log.go:36-40 | the text is the same for all iteration orders and all data exactly when no listed field shadows another |
| `SlicesSort.Sort` | collection/collection.go:148 | sorts in place and keeps the elements |
| `SlicesSort.Compact` | collection/collection.go:149-151 | keeps in place the first of each run of equal elements and clears what is left over |
| `SlicesSort.CompactedSorted` | collection/collection.go:148-151 | compacting a sorted sequence leaves its elements once each, strictly ascending |
| `Collections.DeduplicateSliceOfObject` | collection/collection.go:155-166 | keeps the elements whose key was not seen before |
| `Collections.FirstByKeyIs` | collection/collection.go:155-166 | what is kept is the subsequence, in input order, of exactly the first elements of the keys |
| `Collections.DeduplicateIdempotent` | collection/collection.go:155-166 | deduplicating twice changes nothing |
| `Collections.DeduplicateSlice` | collection/collection.go:117-127 | keeps the first occurrences in input order |
| `Collections.FirstOccurrencesElements` | collection/collection.go:117-127 | the result has the input's elements, each once |
| `Collections.FirstOccurrencesByKey` | collection/collection.go:117-166 | it is the by-key variant for any key that tells elements apart |
| `Collections.DeduplicateSliceAndRemove` | collection/collection.go:130-144 | excluding then deduplicating, and the same as deduplicating then excluding; it has, once each, the elements of the input that are not excluded |
| `Collections.KeepFirstCommute` | collection/collection.go:130-144 | filtering by any predicate commutes with deduplicating |
| `Collections.RemoveIdempotent` | collection/collection.go:130-144 | a second application changes nothing |
| `Collections.DeduplicateAndSortSlice` | collection/collection.go:147-152 | in place, the first n elements become the input's elements strictly ascending and the rest is cleared |
| `Collections.SortedDedupUnique` | collection/collection.go:147-152 | the result equals any sort of the deduplicated input and depends only on which elements the input has |
| `Collections.DeduplicateAndSortSliceOfObject` | collection/collection.go:169-177 | the result has, strictly ascending by key, the last element of each key |
| `Collections.LastByKeyUnique` | collection/collection.go:170-176 | there is only one such result, so the map's iteration order does not show |
| `Collections.LastByKeyIsReversedFirst` | collection/collection.go:155-177 | it equals sorting by key the first-wins deduplication of the reversed input |
| `Collections.FilterSlice` | collection/collection.go:180-188 | keeps, in order, the elements the predicate accepts |
| `Collections.KeepIs` | collection/collection.go:180-188 | filtering leaves the subsequence, in input order, of exactly the accepted elements |
| `Collections.MapSlice` | collection/collection.go:191-197 | maps position by position |
| `Errs.Error.WithMetadata` | errs/errs.go:58-64 | sets one metadata entry of this very error and changes nothing else |
| `Errs.ToStringMap` | errs/errs.go:80-89 | under every key of the metadata, and no other, is the text of its value, in whatever order the map is visited |
| `Errs.GRPCStatusIs` | errs/errs.go:68-77 | the status of an application error has its code and message and one detail with its code, the domain and its metadata as text; OK has no detail |
| `Errs.Validation` | errs/errs.go:110-123 | an InvalidArgument status with one detail that lists each violation once, in some order |
| `Errs.Parse` | errs/errs.go:128-142 | the result is what the error's status tells |
| `Errs.ParsedIs` | errs/errs.go:128-142 | from each kind of error: an application error gives its code and metadata, a status error those of its first ErrorInfo, a wrapping what is inside, all else and OK nothing |
| `Errs.FirstInfoIs` | errs/errs.go:133-142 | the first ErrorInfo tells the code and the metadata, and without one there is nothing |
| `Errs.WrappingInvisibleToParse` | errs/errs.go:128-142 | however deep an error is wrapped, the same code and metadata are parsed from it; nothing from a foreign error |
| `I18n.TranslateOwn` | i18n/i18n.go:76-93 | a listed message gives its text with the data put in, the message as it is without data or when that fails, and the key when it is empty |
| `I18n.TranslateFallback` | i18n/i18n.go:76-107 | a language that does not list the key gives the same of the fallback language, and the key when that has no message |
| `I18n.EveryLanguageIff` | i18n/i18n.go:95-107 | a key has a message in every language exactly when the fallback language has one and no language that lists the key leaves it empty |
| `I18n.TranslatedEverywhereIff` | i18n/i18n.go:76-107 | for given data a key is translated in every language exactly when the fallback language lists it and no language that lists it has an empty message or one that comes out as the bare key |
| `I18n.FallsBack` | i18n/i18n.go:101-105 | a language without an entry for the key gives what the fallback language gives |
| `ErrorPipeline.ConvertGRPCErrorToHTTPError` | grpc/middleware/error.go:72-121 | the converted error is that of the conversion's definition on the fields as they were, and the application error object is left with the localised message |
| `ErrorPipeline.ErrorWrapperUnaryServerInterceptor` | grpc/middleware/error.go:124-140 | a response without error passes unchanged; an error is converted and the response dropped |
| `ErrorPipeline.FallbackIs` | grpc/middleware/error.go:79-83 | the fallback is Unknown with INTERNAL_SERVER_ERROR and its message in the language of the request, English when there is none |
| `ErrorPipeline.ConvertedAppIs` | grpc/middleware/error.go:73-95 | an application error that is neither OK nor Internal keeps its code, and its message is what localising its code and metadata in the language of the request gives, English when there is none, or its own when that is the bare code |
| `ErrorPipeline.ConvertedOtherIs` | grpc/middleware/error.go:96-121 | all other errors by kind: which pass through, which become the fallback, and the stack and text that debugging adds |
| `ErrorPipeline.NeverInternal` | grpc/middleware/error.go:116-118 | no conversion yields status Internal |
| `ErrorPipeline.ThreeIsTwo` | grpc/middleware/error.go:72-121 | with debugging off, converting three times is converting twice |
| `ErrorPipeline.IdempotentIff` | grpc/middleware/error.go:72-121 | with debugging off, converting again changes nothing, except exactly for application errors with status Unknown that do not look like the fallback already |
| `ErrorPipeline.StatusPassesThrough` | grpc/middleware/error.go:99-100 | a status error that is not OK, Unknown or Internal keeps its code and details; only a wrapping replaces the message |
| `ErrorPipeline.ObjectServed` | grpc/middleware/error.go:91-95 | after any sequence of conversions the error holds what the served fields say, in the same wrappings, and the next request is answered from that |
| `ErrorPipeline.ServedMessage` | grpc/middleware/error.go:94-98 | an error object returned to any sequence of requests has the translation for the latest request that had one, or its original message, and nothing else of it changes |
| `ErrorPipeline.HistoryInvisibleIff` | grpc/middleware/error.go:94-98 | a response never depends on earlier requests, exactly when the code has a translation in the request's language, or no language would change the message, or the message is not sent |
| `ErrorPipeline.LocalizerForgetsHistory` | i18n/i18n.go:76-107 | with a localizer whose fallback language lists the code, and none of whose messages for it is empty or comes out as the bare code, no request notices an earlier one |
| `ErrorSharing.ResponseAlone` | grpc/middleware/error.go:91-118 | localising and then reading, with nothing in between, is the conversion |
| `ErrorSharing.AnsweredAlone` | grpc/middleware/error.go:91-95 | whatever others have left in the object, a request that localises and reads with nothing in between is answered as the conversion of that |
| `ErrorSharing.AnsweredWithLatest` | grpc/middleware/error.go:91-95 | in every interleaving a request is answered with the translation that was written last before it reads, by whatever request, or with the original message when none was |
| `ErrorSharing.RaceLeaks` | grpc/middleware/error.go:91-95 | for any two languages, of which the other has a translation, there is a schedule in which a request is answered with the translation for the other |
| `ErrorSharing.UndisturbedIff` | grpc/middleware/error.go:91-95 | no schedule of requests that share the error changes the response to one in a given language, exactly when no language puts in another message than its own or the message is not sent |
| `Gateway.ErrorHandler` | server/gateway.go:420-439 | the body is the fold of the details over the default body |
| `Gateway.BodyIs` | server/gateway.go:420-439 | for every list of details: the message of the status, the code of the last ErrorInfo or BadRequest or UNKNOWN_ERROR, and the metadata of the last detail that has any or none; of several violations of a field the last counts |
| `Gateway.LastCodeDecides` | server/gateway.go:421-433 | the code is told by the last ErrorInfo or BadRequest, and the message is the status's |
| `Gateway.LastMetadataDecides` | server/gateway.go:424-438 | the metadata is told by the last BadRequest or ErrorInfo with metadata |
| `Gateway.AppErrorEndToEnd` | errs/errs.go:68-142 | an application error whose status is neither OK nor Internal reaches the client with its code, the translation of its code and metadata in the language of the request, English when there is none, or its own message, and its metadata as text, and Parse recovers code and metadata from the converted error |
| `Gateway.InternalsHidden` | grpc/middleware/error.go:107-118 | with debugging off, the body of an internal, unknown or foreign error is the fallback's, whatever the error says |
| `Gateway.DebugInvisibleInBody` | grpc/middleware/error.go:96-114 | debugging adds its detail to the fallback status exactly for errors that are foreign or have a status Unknown, and nothing to any body |
| `Gateway.ValidationEndToEnd` | errs/errs.go:107-123 | a validation error arrives as exactly its violations under VALIDATION_ERROR, in whatever order they were listed |
| `Paging.NewOffsetPaging` | query/paging.go:16-27 | missing values become the defaults, large sizes the maximum, and normal values, hence its own results, are kept |
| `Paging.OffsetExactIff` | query/paging.go:30 | the offset is (page-1)*size exactly when that is from 0 below 2^32; for page 0 of a size above 0 it is 2^32 less the size |
| `Paging.ExactPages` | query/paging.go:16-30 | every page up to 42,949,673 is exact at any normal size, and at the largest size no later one is |
| `Paging.WindowsTile` | query/paging.go:29-33 | over the exact pages of one size, a row is in the window of the one page it falls in by division and in no other |
| `Paging.WrappedPageRepeats` | query/paging.go:30 | the first page that is not exact shows rows of page 1 again |

## Left out

- Rounding in golang.org/x/time/rate, its unlimited rate, and negative bursts other than as empty buckets.
- The background goroutine's ticker and `Stop`: sweeps are events of a run or steps of the sweeper.
- AdmissionBoundAnyWindow: takes the first and last use in the window as arguments; a window without uses admits nothing.
- Torn reads of an error's message that another request is writing: writing and reading it are steps of their own.
- Errors that join several others, and failures to marshal status details; strings are valid UTF-8 and statuses travel without loss.
- `NewFromFS`: reading directories and YAML; the localizer starts from the loaded translations.
- The HTTP status, headers and marshalling in `ErrorHandler`: runtime plumbing around the fold.
- `ToHTTPError`: the same conversion with debugging off and, when no localisation is given, one that returns the key.
- `InterceptorLogger` and `slogLevel`: they apply the redaction to two named fields and map levels one to one.
- `Set`, `ListToMap`, the reducers and `GetCommonElements` of the collection package: one-step uses of maps and loops.
- NaN keys and signed zeros: keys are under a total order.
- Decoding the JSON body and encoding the query in `PatchFieldMaskMiddleware`: the body comes as its key set.
- Go's `int` is taken to have 64 bits in `Paging`.
- Authentication, configuration, HTTP client, worker, tracing, logging presentation and server start-up: library glue.
