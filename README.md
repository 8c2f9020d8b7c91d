# NYC 311 fetch and cleaning, modelled in Dafny

This project models the two sequential components of the NYC 311 service-request
exploration code.

**The paginated fetch with retry** (`src/nyc311_api.py`) covers:

- the Socrata query for one page: the four SoQL parameters and the optional `X-App-Token` header;
- the per-page retry loop of `_fetch_page`: three attempts, and after a read timeout or
  connection error a wait of `RETRY_DELAY * 2 ** attempt`;
- the pagination loop of `fetch_nyc311_data`: the limit check, offsets advancing by
  `limit`, rows accumulated in request order, a stop on an empty or a short page, and a
  failed page aborting the whole fetch with the session closed.

The network is a scripted server: the n-th GET of a session receives the n-th reply
of the script (a status and an optional JSON body, or a raised exception). Past the end
of the script, the server answers with an empty page. `time.sleep` is a `Clock` that
records every wait. The two loops are methods over a `Session` object and a `Clock`.
They are proved against specification functions in module `Paging`, and the
properties of the fetch are proved as lemmas about those functions.

**The ordered cleaning pipeline** (`src/nyc311_cleaning.py`) covers the seven
whole-table stages and the driver that runs them in a fixed order:

1. parse the dates;
2. compute the response time in days;
3. drop invalid rows;
4. map the intake channel onto Phone, Web or App;
5. drop duplicate `unique_key`s, keeping the first;
6. clip the response time at a quantile;
7. optionally keep only the frequent complaint types.

Every stage is a pure function. Stage 1 takes the fetched records, a
`seq<RawRow>`; every later stage takes a `Table`: its rows and whether it has a
`response_time_days` column. A pandas boolean mask is `Seqs.Select`/`Seqs.Filter`, so
every filtering stage returns an order-preserving subsequence of its input.

Files:

| file | contents |
|---|---|
| `wrappers.dfy` | `Option`, `Result` |
| `seqs.dfy` | mask selection, filtering, `drop_duplicates(keep="first")` |
| `text.dfy` | Python's `str(int)`, `str.upper`, `str.strip`, and a reader for decimal numerals |
| `cleaning.dfy` | stages 1–7 and `clean_nyc311_data` |
| `api_query.dfy` | the constants, `_build_params`, the headers, one request |
| `api_paging.dfy` | what `_fetch_page` and `fetch_nyc311_data` do against a scripted server, and its properties |
| `api_fetch.dfy` | the `Session` and `Clock` classes and the two loops as methods |

Points of the code that the model keeps as they are:

- **Waits.** The code waits 2 s after the first failed attempt and 4 s after the
  second. A third failure is re-raised without a wait
  (`Paging.RetrySchedule`, `Paging.ThirdAttemptDecides`).
- **Null response times.** Stage 3 keeps a row only when `response_time_days > 0`.
  A null response time fails that comparison, so its row is dropped along with the
  rows whose value is ≤ 0 (`Cleaning.HasPositiveResponseTime`).
- **Where `offset` advances.** The code adds `limit` to `offset` before it tests for a
  short page. The model adds it only when the loop goes on. Nothing reads `offset`
  after the loop, so the two agree.
- **An out-of-range percentile.** pandas' `Series.quantile` raises `ValueError` for a
  fraction outside [0, 1]. Stage 6 always finds the `response_time_days` column in the
  driver, so `clean_nyc311_data` raises exactly when the percentile lies outside
  0..100. The model returns `Err(PercentileOutOfRange)` there
  (`Cleaning.WinsorizeResponseTime`, `Cleaning.CleanNyc311Data`).
- **Default arguments.** The source's defaults are the model's default parameter values:
  - `limit` 25000 and `year` 2024 for the fetch;
  - the three stage-3 toggles `True`;
  - percentile 99.0;
  - `n_top` 10 and `min_count` None for stage 7;
  - no top-N and no minimum count for the driver.

## Model

| member | source | states |
|---|---|---|
| Query.BuildParams | src/nyc311_api.py:23-33 | exactly the keys `$limit`, `$offset`, `$order`, `$where`; limit and offset as given, order by `created_date`, the where clause over the whole calendar year |
| Query.WhereClause | src/nyc311_api.py:25-27 | the `$where` text `created_date between '<year>-01-01T00:00:00' and '<year>-12-31T23:59:59'`; no contract of its own: `Query.YearOfWhereClause` states that the year can be read back from it |
| Query.YearOfWhereClause | src/nyc311_api.py:25-27 | the where clause names its year unambiguously: reading the numeral back from the text gives the year, negative years included |
| Text.IntToString | src/nyc311_api.py:25-26 | `str(year)` inside the f-strings: never empty, a minus sign before the digits of a negative year; `Text.ParseIntToString` states that it reads back as the same int |
| Text.ParseIntToString | src/nyc311_api.py:25-26 | the decimal numeral an f-string prints for an int reads back as that int |
| Query.BuildHeaders | src/nyc311_api.py:108-111 | the `X-App-Token` header is present exactly when a token is given and is not empty, and it carries that token; there is no other header |
| Query.PageRequestInjective | src/nyc311_api.py:42-47 | requests for different offsets differ, so the log of sent requests determines the offsets |
| Fetch.Session.constructor | src/nyc311_api.py:99 | a new session is open and has sent nothing |
| Fetch.Session.Get | src/nyc311_api.py:42-47 | a GET is logged and answered with the script's reply for its index |
| Fetch.Session.Close | src/nyc311_api.py:140 | closing keeps the log and leaves the session closed |
| Fetch.Clock.Sleep | src/nyc311_api.py:54 | a sleep appends its duration to the clock's record |
| Paging.Attempt | src/nyc311_api.py:42-49 | one attempt returns rows exactly when the GET answered with a status below 400 or at least 600 and a JSON body, which it returns; a raised exception is passed on; a status error and a bad body are not retryable |
| Paging.PageFrom | src/nyc311_api.py:40-57 | from a given attempt, at least one and at most the remaining attempts, one wait fewer than attempts; a non-empty page comes only from a GET inside the script |
| Paging.FetchPageSpec | src/nyc311_api.py:36-57 | one call of `_fetch_page`: one to three GETs, one wait fewer than GETs, and a non-empty page was read inside the script |
| Paging.Backoff | src/nyc311_api.py:52 | the wait after a failed attempt is never shorter than `RETRY_DELAY`; `Paging.BackoffDoubles` pins it at `RETRY_DELAY * 2 ** attempt` |
| Paging.BackoffDoubles | src/nyc311_api.py:52 | the wait after attempt `a` is `RETRY_DELAY * 2 ** a` |
| Paging.PageFromSchedule | src/nyc311_api.py:40-57 | every GET but the last failed with a retryable exception and was followed by its doubling wait; a retryable failure ends the call only on the last attempt; the outcome is the last GET's |
| Paging.RetrySchedule | src/nyc311_api.py:40-57 | at most 3 GETs per page, and the waits are a prefix of 2 s, 4 s |
| Paging.NoRetryUnlessTransient | src/nyc311_api.py:48-50 | a success, or an exception other than a read timeout or connection error, decides on the first GET with no wait |
| Paging.ThirdAttemptDecides | src/nyc311_api.py:51-57 | after two retryable failures, the third GET decides after waits of 2 s and 4 s; a third retryable failure is re-raised with no further wait |
| Fetch.RetryStep | src/nyc311_api.py:40-57 | one attempt of the retry loop either ends the call with the outcome, GETs and waits of the specification, or is a retryable failure before the last attempt and leads to the state before the next attempt |
| Fetch.FetchPage | src/nyc311_api.py:36-57 | the method's outcome, the requests it sends (the same request once per attempt) and its waits are those of `Paging.FetchPageSpec`; the session stays open |
| Paging.Pages | src/nyc311_api.py:113-138 | the paging loop for any page behaviour: a failed page ends the fetch with its exception, an empty or short page ends it, a full page is appended and the loop goes on at `offset + limit`; no contract of its own, `Paging.PagesStep` to `Paging.PagesRows` state its properties |
| Paging.PagesStep | src/nyc311_api.py:113-138 | one turn of the loop: a failed page ends the fetch with its exception and no rows; an empty or short page ends it with the rows so far plus the page's; a full page is appended and the fetch goes on at `offset + limit` |
| Paging.PagesFromStep | src/nyc311_api.py:113-138 | the same turn against the scripted server; a full page was read inside the script |
| Paging.PagesFirstGet | src/nyc311_api.py:113-121 | the loop's first GET is at the starting offset |
| Paging.PagesOffsets | src/nyc311_api.py:114-133 | each GET's offset equals the previous one (a retry) or is `limit` past it (the next page) |
| Paging.PagesErrors | src/nyc311_api.py:121-125 | the loop fails only with an exception a page re-raised |
| Paging.PagesRows | src/nyc311_api.py:127-138 | a successful fetch never asks for an offset beyond its starting offset plus the rows it has received |
| Paging.SentRequestsOfPage | src/nyc311_api.py:117-121 | the requests of one page are its request repeated once per attempt, appended to the earlier requests |
| Paging.FetchSpec | src/nyc311_api.py:82-138 | `fetch_nyc311_data` against the scripted server: the limit check before any GET, then the loop from offset 0; no contract of its own, `Paging.FetchLimitCheck` and `Paging.FetchServedDataset` state its properties |
| Paging.FetchLimitCheck | src/nyc311_api.py:82-83 | a limit outside 1..50000 is rejected with no GET and no wait, and only such a limit is rejected; otherwise the first GET is at offset 0 |
| Paging.ServedInChunks | src/nyc311_api.py:114-138 | `n` full pages and `k < limit` more rows, served from any GET index on, are fetched whole at offsets `offset, offset + limit, ...` with `n + 1` GETs and no wait |
| Paging.FetchServedDataset | src/nyc311_api.py:114-138 | a dataset of `n * limit + k` rows is fetched whole in exactly `n + 1` requests at offsets `0, limit, ..., n * limit`; when `k` is 0 the last one finds an empty page |
| Fetch.NextPageState | src/nyc311_api.py:114-138 | from the state before a page, the logs grow by that page's requests and waits, and the fetch fails, ends, or reaches the state before the next page |
| Fetch.FetchNextPage | src/nyc311_api.py:114-138 | one turn of the loop: it builds the page's request, runs `_fetch_page` and keeps the loop's state |
| Fetch.FetchNyc311Data | src/nyc311_api.py:60-140 | the result, every request sent and every wait are those of `Paging.FetchSpec`; an invalid limit creates no session; otherwise the session is closed on every way out, a failed page included |
| Cleaning.ParseDateCell | src/nyc311_cleaning.py:37-38 | a null cell stays null, and text becomes what the parser makes of it, null when it rejects the text |
| Cleaning.ConvertDatesToDatetime | src/nyc311_cleaning.py:34-40 | row count, order and every column but the two dates kept; each date is the parser's reading of its own cell, null for a null cell or rejected text; no response time yet |
| Cleaning.ResponseDays | src/nyc311_cleaning.py:60 | a response time exists exactly when both dates exist |
| Cleaning.ResponseDaysPositive | src/nyc311_cleaning.py:60 | the response time is positive exactly when both dates exist and the closing came strictly after the creation; it is the elapsed seconds divided by 86400 |
| Cleaning.ComputeResponseTime | src/nyc311_cleaning.py:57-62 | adds the column; every row gets the response time of its own dates and nothing else changes |
| Cleaning.FilterInvalidRows | src/nyc311_cleaning.py:90-110 | the result is the order-preserving subsequence of exactly the rows meeting every active requirement, with the positive-response test whenever the column exists |
| Cleaning.FilterInvalidRowsAsOneMask | src/nyc311_cleaning.py:94-103 | the four masks applied one after the other keep what their conjunction keeps |
| Cleaning.ValidRowsClosedAfterCreated | src/nyc311_cleaning.py:94-103 | with the default toggles every kept row has both dates, a borough, a positive response time, and was closed strictly after it was created |
| Cleaning.ValidRowsTimed | src/nyc311_cleaning.py:60-103 | every kept row's response time is still the one its own dates give |
| Cleaning.StandardChannel | src/nyc311_cleaning.py:130-140 | every cell, null included, becomes one of Phone, Web, App |
| Text.Upper | src/nyc311_cleaning.py:139 | upper-casing changes each character on its own and keeps the length |
| Text.Strip | src/nyc311_cleaning.py:139 | the stripped text is the input with only whitespace removed at either end, and neither starts nor ends with whitespace |
| Cleaning.StandardChannelCases | src/nyc311_cleaning.py:130-140 | Phone exactly for PHONE, App exactly for MOBILE, Web for everything else, null included, after upper-casing and stripping |
| Cleaning.StandardizeChannelType | src/nyc311_cleaning.py:127-140 | row count, order and every other column unchanged; every channel is one of the three standard values |
| Cleaning.MobileIsApp | src/nyc311_cleaning.py:134-140 | "mobile" becomes App |
| Cleaning.AppIsNotAKey | src/nyc311_cleaning.py:130-140 | "App" is not a key of the lookup and becomes Web |
| Cleaning.StandardizeChannelNotIdempotent | src/nyc311_cleaning.py:130-140 | a second pass of stage 4 would turn an App row into Web, so the stage must run once |
| Cleaning.StandardizedRowsValid | src/nyc311_cleaning.py:139-140 | stage 4 keeps dates, borough and response time, so valid rows become valid rows with a standard channel |
| Seqs.Filter | src/nyc311_cleaning.py:95 | a mask keeps an order-preserving subsequence, exactly the rows that pass it |
| Seqs.FilterMultiplicity | src/nyc311_cleaning.py:95 | a mask keeps every copy of a row that passes it and none of a row that does not, so the rows kept number exactly the rows that pass |
| Seqs.FilterFilter | src/nyc311_cleaning.py:94-99 | two masks in a row keep what their conjunction keeps |
| Seqs.FirstOccurrenceMask | src/nyc311_cleaning.py:169 | a row is kept exactly when its key does not occur earlier |
| Seqs.DropDuplicates | src/nyc311_cleaning.py:169 | `drop_duplicates(keep="first")` returns an order-preserving subsequence of its input |
| Seqs.DropDuplicatesKeys | src/nyc311_cleaning.py:169 | the kept keys are pairwise distinct and are exactly the input's keys |
| Seqs.DropDuplicatesOfDistinct | src/nyc311_cleaning.py:169 | a frame whose keys are already distinct is left as it is |
| Cleaning.RemoveDuplicates | src/nyc311_cleaning.py:165-169 | order-preserving subsequence with pairwise distinct keys and the same set of keys; the result is the input selected by the mask that is set at exactly the positions whose key does not occur earlier, so each key keeps its first row, in input order |
| Cleaning.RemoveDuplicatesIdempotent | src/nyc311_cleaning.py:169 | de-duplicating twice gives what de-duplicating once gives |
| Cleaning.DeduplicatedRowsValid | src/nyc311_cleaning.py:169 | de-duplication only drops rows, so every row stays valid and standard |
| Cleaning.CleanThroughDeduplicationInvariants | src/nyc311_cleaning.py:297-313 | after step 5 every row is valid and has a standard channel and the response time of its dates, and the keys are distinct |
| Cleaning.CapResponseTime | src/nyc311_cleaning.py:208 | row count and order kept; every value at most the threshold; a row changes exactly when its value was above it, and then only to the threshold |
| Cleaning.CapResponseTimeIdempotent | src/nyc311_cleaning.py:205-208 | clipping again at the same threshold changes nothing and finds no value above it |
| Cleaning.ResponseTimes | src/nyc311_cleaning.py:202 | the sample `quantile` reads: no more values than rows, and every non-null `response_time_days` is in it |
| Cleaning.ResponseTimesMultiplicity | src/nyc311_cleaning.py:202 | the sample holds each value exactly as many times as rows carry it as their non-null `response_time_days`, and nothing else |
| Cleaning.ClipCell | src/nyc311_cleaning.py:208 | `clip(upper=threshold)` on one cell: a null stays null, a value comes back as the smaller of itself and the threshold |
| Cleaning.WinsorizeResponseTime | src/nyc311_cleaning.py:195-213 | without the column the frame is returned as it is; with it, a percentile outside 0..100 raises, and otherwise the frame is clipped at the quantile of the non-null values and the reported count is the number of values above that threshold |
| Cleaning.CapResponseTimeClean | src/nyc311_cleaning.py:202-208 | clipping valid, standard rows gives rows whose response time is their own clipped at the threshold, with the keys unchanged |
| Cleaning.ComplaintTypes | src/nyc311_cleaning.py:242 | the distinct non-null complaint types of the frame, each seen in some row, and every row's type among them |
| Cleaning.TypeCountIsOccurrences | src/nyc311_cleaning.py:242 | a type's count is the number of times it occurs in the complaint-type column |
| Cleaning.ComplaintTypesCounted | src/nyc311_cleaning.py:242 | a type is listed exactly when it is counted at least once |
| Cleaning.InsertByCount | src/nyc311_cleaning.py:242 | inserting into a ranking keeps it non-increasing in count, adds exactly the new type, and keeps the entries distinct |
| Cleaning.RankByCount | src/nyc311_cleaning.py:242 | the ranking is non-increasing in count and lists the same types, distinct when they were |
| Cleaning.ValueCounts | src/nyc311_cleaning.py:242 | the index of `value_counts`: each complaint type once, exactly the types present, in non-increasing order of count |
| Cleaning.Head | src/nyc311_cleaning.py:249 | `head(n)` is a prefix, no longer than its input |
| Cleaning.KeptTypes | src/nyc311_cleaning.py:244-249 | the types stage 7 keeps are among those `value_counts` ranks |
| Cleaning.KeptTypesWithMinCount | src/nyc311_cleaning.py:244-246 | with a minimum count, the kept types are exactly those seen at least that often, whatever `n_top` is |
| Cleaning.KeptTypesTopN | src/nyc311_cleaning.py:247-249 | without a minimum, the kept types are distinct and number `n_top` capped at the number of types (all but the last `-n_top` for a negative count); no dropped type is more frequent than a kept one |
| Cleaning.PrefixOfRanking | src/nyc311_cleaning.py:249 | a prefix of a distinct ranking is distinct and at least as frequent as anything it leaves out |
| Cleaning.SelectTopComplaintTypes | src/nyc311_cleaning.py:238-264 | the result is the order-preserving subsequence of exactly the rows whose type is kept, each kept as often as it occurs; a row with a null type is dropped |
| Seqs.SelectDistinct | src/nyc311_cleaning.py:252 | selecting rows keeps distinct keys distinct |
| Cleaning.CleanNyc311Data | src/nyc311_cleaning.py:297-325 | steps 1 to 6 always and in order; the pipeline raises exactly when the percentile lies outside 0..100; without a top-N or minimum count the frame after step 6 is the result, and otherwise the result is stage 7 applied to that frame with both arguments |
| Cleaning.CleanNyc311DataInvariants | src/nyc311_cleaning.py:297-325 | when the pipeline returns, every row of the cleaned frame has both dates, was closed after it was created, has a borough and a standard channel, and has its own response time clipped at the step-6 threshold; no two rows share a `unique_key` |

## Left out

- Date parsing (`pd.to_datetime(errors="coerce")`) is a parameter `parse` from text to an optional timestamp in whole seconds. pandas' formats and nanosecond resolution are not modelled.
- Response times are exact reals, not IEEE doubles. Rounding in the division by 86400 is not modelled.
- `Series.quantile` is a parameter `quantile` of the non-null values and the fraction. pandas returns NaN for an empty sample, and the model's threshold is always a number. With no non-null values nothing is clipped either way; only the reported threshold differs.
- The order `value_counts` gives to types with equal counts is decided by pandas. The model ranks them stably in order of first appearance and does not claim that this matches pandas.
- Text.Upper: exact on ASCII and on the dotless i only. Other letters are kept as they are. No other letter upper-cases to text made only of the letters of the channel lookup's keys, so stage 4's result is unaffected.
- The HTTP transport is left out. This covers the `requests` session, the urllib3 `Retry` adapter that retries 429/5xx itself, connection pooling and JSON decoding. A scripted `Reply` stands for what `session.get` finally returns or raises, and a body that is not JSON is `None`.
- The server is a finite script followed by empty pages. A server that never runs out of full pages is not modelled; against one, the source loops forever too.
- `time.sleep` does not wait: `Fetch.Clock` records the requested durations.
- All `print` output is left out. This covers the progress lines, the removed-row counts, the channel distribution and the per-type counts of stage 7. The count of clipped values that stage 6 prints is returned as `Winsorized.capped`.
- `page_count`, the snapshot time (`datetime.now`) and `pd.DataFrame.from_records` are left out. The fetch returns the records as a sequence.
- `create_sample_data.py` is not part of this model: it only reads, samples and writes parquet files.
- Integers are unbounded in both Python and Dafny, so no width is modelled.
- A `RawRow` has every column the stages read. A frame that lacks one is not modelled: stage 1 raises `KeyError` on it (src/nyc311_cleaning.py:37). One example is `pd.DataFrame.from_records([])` after a fetch that found no rows, which has no columns at all.
- Cleaning.RemoveDuplicates: the key is a parameter of any type, so `key_column="unique_key"` cannot be its default value. The driver passes `UniqueKey`, as the source does by default.
