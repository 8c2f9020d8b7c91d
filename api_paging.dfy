/**
 * What `_fetch_page` and `fetch_nyc311_data` in `src/nyc311_api.py` do,
 * stated as functions of a scripted server: the n-th GET of a session
 * receives the n-th reply of the script, and a GET past the end of the script
 * receives an empty page (the server has no more rows). These functions are
 * the specification the methods in module `Fetch` are proved against.
 */
module Paging {
  import opened Wrappers
  import opened Query

  /** One JSON row as the API returns it. */
  type Record = map<string, string>

  /** The exceptions a GET can end in. */
  datatype Exc =
    | ReadTimeout
    | ConnectionError            // includes its subclasses ConnectTimeout, SSLError and ProxyError
    | HTTPError(status: int)     // raised by `raise_for_status`
    | JSONDecodeError            // raised by `response.json()`
    | OtherRequestError          // any other `RequestException`, e.g. a `RetryError`

  /** What `session.get` does for one call: answer with a status and a body, or raise. */
  datatype Reply =
    | Response(status: int, body: Option<seq<Record>>)   // None: the body is not JSON
    | Raise(exc: Exc)

  /** The two exceptions `_fetch_page` retries. */
  predicate IsTransient(e: Exc) {
    e.ReadTimeout? || e.ConnectionError?
  }

  /** One attempt: `session.get`, then `raise_for_status`, then `response.json()`. */
  function Attempt(reply: Reply): (o: Result<seq<Record>, Exc>)
    ensures o.Ok? <==> reply.Response? && !(400 <= reply.status < 600) && reply.body.Some?
    ensures o.Ok? ==> o.value == reply.body.value
    ensures reply.Raise? ==> o == Err(reply.exc)
    ensures o.Err? && IsTransient(o.error) ==> reply == Raise(o.error)
  {
    match reply
    case Raise(e) => Err(e)
    case Response(status, body) =>
      if 400 <= status < 600 then Err(HTTPError(status))
      else if body.None? then Err(JSONDecodeError)
      else Ok(body.value)
  }

  /** The reply to the GET with index `n`; past the script, an empty page. */
  function ReplyAt(replies: seq<Reply>, n: nat): Reply {
    if n < |replies| then replies[n] else Response(200, Some([]))
  }

  /** The GET with index `n` ends in a retryable exception. */
  predicate FailedTransiently(replies: seq<Reply>, n: nat) {
    var o := Attempt(ReplyAt(replies, n));
    o.Err? && IsTransient(o.error)
  }

  function Pow2(n: nat): (p: nat)
    ensures p >= 1
  {
    if n == 0 then 1 else 2 * Pow2(n - 1)
  }

  /** The wait after failed attempt `attempt`: `RETRY_DELAY`, doubled once per earlier failure. */
  function Backoff(attempt: nat): (wait: nat)
    ensures wait >= RETRY_DELAY
  {
    if attempt == 0 then RETRY_DELAY else 2 * Backoff(attempt - 1)
  }

  /** The wait is `RETRY_DELAY * (2 ** attempt)`, as `_fetch_page` computes it. */
  lemma {:induction false} BackoffDoubles(attempt: nat)
    ensures Backoff(attempt) == RETRY_DELAY * Pow2(attempt)
  {
    if attempt > 0 {
      BackoffDoubles(attempt - 1);
    }
  }

  /** The outcome of one call of `_fetch_page`, the number of GETs it sent, and its waits. */
  datatype PageRun = PageRun(outcome: Result<seq<Record>, Exc>, attempts: nat, waits: seq<nat>)

  /**
   * `_fetch_page` from attempt number `attempt` on, when its next GET is the
   * one with index `pos`: at most the attempts that remain, one wait fewer
   * than attempts, and the outcome is that of the last GET.
   */
  function PageFrom(replies: seq<Reply>, pos: nat, attempt: nat): (run: PageRun)
    requires attempt < MAX_RETRIES
    ensures 1 <= run.attempts <= MAX_RETRIES - attempt
    ensures |run.waits| == run.attempts - 1
    ensures run.outcome.Ok? && run.outcome.value != [] ==> pos + run.attempts <= |replies|
    decreases MAX_RETRIES - attempt
  {
    match Attempt(ReplyAt(replies, pos))
    case Ok(rows) => PageRun(Ok(rows), 1, [])
    case Err(e) =>
      if IsTransient(e) && attempt < MAX_RETRIES - 1 then
        var rest := PageFrom(replies, pos + 1, attempt + 1);
        PageRun(rest.outcome, rest.attempts + 1, [Backoff(attempt)] + rest.waits)
      else PageRun(Err(e), 1, [])
  }

  /**
   * The retry schedule: every GET before the last one failed with a
   * retryable exception and was followed by its backoff, doubling from
   * `RETRY_DELAY`; a retryable failure ends the call only on the last
   * attempt, and it is re-raised without a wait.
   */
  lemma {:induction false} PageFromSchedule(replies: seq<Reply>, pos: nat, attempt: nat)
    requires attempt < MAX_RETRIES
    ensures var run := PageFrom(replies, pos, attempt);
      && (forall i :: 0 <= i < |run.waits| ==> run.waits[i] == Backoff(attempt + i))
      && (forall n :: pos <= n < pos + run.attempts - 1 ==> FailedTransiently(replies, n))
      && (run.outcome.Err? && IsTransient(run.outcome.error) ==> attempt + run.attempts == MAX_RETRIES)
      && run.outcome == Attempt(ReplyAt(replies, pos + run.attempts - 1))
    decreases MAX_RETRIES - attempt
  {
    var o := Attempt(ReplyAt(replies, pos));
    if o.Err? && IsTransient(o.error) && attempt < MAX_RETRIES - 1 {
      PageFromSchedule(replies, pos + 1, attempt + 1);
      var rest := PageFrom(replies, pos + 1, attempt + 1);
      var run := PageFrom(replies, pos, attempt);
      assert run.waits == [Backoff(attempt)] + rest.waits;
    }
  }

  /** A whole call of `_fetch_page` whose first GET has index `pos`. */
  function FetchPageSpec(replies: seq<Reply>, pos: nat): (run: PageRun)
    ensures 1 <= run.attempts <= MAX_RETRIES && |run.waits| == run.attempts - 1
    ensures run.outcome.Ok? && run.outcome.value != [] ==> pos + run.attempts <= |replies|
  {
    PageFrom(replies, pos, 0)
  }

  /** At most three GETs and two waits, and the waits are 2 seconds and then 4. */
  lemma RetrySchedule(replies: seq<Reply>, pos: nat)
    ensures var run := FetchPageSpec(replies, pos);
      run.attempts <= 3 && run.waits == [2, 4][..|run.waits|]
  {
    var run := FetchPageSpec(replies, pos);
    PageFromSchedule(replies, pos, 0);
    assert Backoff(0) == 2 && Backoff(1) == 4;
  }

  /** The first GET decides when it succeeds or fails with an exception that is not retried. */
  lemma NoRetryUnlessTransient(replies: seq<Reply>, pos: nat)
    ensures !FailedTransiently(replies, pos) ==>
      FetchPageSpec(replies, pos) == PageRun(Attempt(ReplyAt(replies, pos)), 1, [])
  {
  }

  /**
   * After two retryable failures the third GET decides, after waits of 2 and
   * 4 seconds: its rows are returned, and its exception, a third timeout
   * included, is re-raised.
   */
  lemma ThirdAttemptDecides(replies: seq<Reply>, pos: nat)
    requires FailedTransiently(replies, pos) && FailedTransiently(replies, pos + 1)
    ensures FetchPageSpec(replies, pos)
         == PageRun(Attempt(ReplyAt(replies, pos + 2)), 3, [2, 4])
  {
    assert Backoff(0) == 2 && Backoff(1) == 4;
  }

  /** Why `fetch_nyc311_data` gives up. */
  datatype FetchError = InvalidLimit | Raised(exc: Exc)

  /** A fetch: its result, the offset of every GET in order, and every wait in order. */
  datatype FetchRun = FetchRun(result: Result<seq<Record>, FetchError>, gets: seq<int>, waits: seq<nat>)

  /** The GETs of `_fetch_page` for one page: the same request, once per attempt. */
  function Repeat<T>(x: T, n: nat): (r: seq<T>)
    ensures |r| == n
  {
    if n == 0 then [] else Repeat(x, n - 1) + [x]
  }

  lemma {:induction false} RepeatAll<T>(x: T, n: nat)
    ensures forall i :: 0 <= i < n ==> Repeat(x, n)[i] == x
  {
    if n > 0 {
      RepeatAll(x, n - 1);
    }
  }

  /** A page's rows, GETs and waits followed by the rest of the fetch; a failure later discards the rows. */
  function Then(rows: seq<Record>, gets: seq<int>, waits: seq<nat>, rest: FetchRun): FetchRun {
    FetchRun(match rest.result
             case Ok(more) => Ok(rows + more)
             case Err(e) => Err(e),
             gets + rest.gets, waits + rest.waits)
  }

  lemma ThenNothing(rest: FetchRun)
    ensures Then([], [], [], rest) == rest
  {
    assert [] + rest.gets == rest.gets && [] + rest.waits == rest.waits;
    if rest.result.Ok? {
      assert [] + rest.result.value == rest.result.value;
    }
  }

  lemma ThenThen(rows1: seq<Record>, gets1: seq<int>, waits1: seq<nat>,
                 rows2: seq<Record>, gets2: seq<int>, waits2: seq<nat>, rest: FetchRun)
    ensures Then(rows1, gets1, waits1, Then(rows2, gets2, waits2, rest))
         == Then(rows1 + rows2, gets1 + gets2, waits1 + waits2, rest)
  {
    assert gets1 + (gets2 + rest.gets) == (gets1 + gets2) + rest.gets;
    assert waits1 + (waits2 + rest.waits) == (waits1 + waits2) + rest.waits;
    if rest.result.Ok? {
      assert rows1 + (rows2 + rest.result.value) == (rows1 + rows2) + rest.result.value;
    }
  }

  /**
   * A behaviour of `_fetch_page` for every index its first GET may have:
   * each call sends at least one GET, and a call that returns rows ends
   * within the first `bound` GETs.
   */
  ghost predicate Progresses(page: nat -> PageRun, bound: nat) {
    forall pos: nat :: page(pos).attempts >= 1
      && (page(pos).outcome.Ok? && page(pos).outcome.value != [] ==> pos + page(pos).attempts <= bound)
  }

  /**
   * The loop of `fetch_nyc311_data` from the page at `offset` on, when the
   * next GET has index `pos` and `page` says what `_fetch_page` does: a
   * failed page ends the fetch with its exception; an empty page ends it; a
   * non-empty page is appended, and the fetch stops after it when it is
   * shorter than `limit` and otherwise goes on at `offset + limit`.
   */
  ghost function Pages(page: nat -> PageRun, bound: nat, pos: nat, offset: int, limit: int): FetchRun
    requires Progresses(page, bound)
    decreases bound - pos
  {
    var run := page(pos);
    var gets := Repeat(offset, run.attempts);
    match run.outcome
    case Err(e) => FetchRun(Err(Raised(e)), gets, run.waits)
    case Ok(rows) =>
      if rows == [] || |rows| < limit then FetchRun(Ok(rows), gets, run.waits)
      else Then(rows, gets, run.waits, Pages(page, bound, pos + run.attempts, offset + limit, limit))
  }

  /**
   * One turn of the loop: after a page, the fetch so far followed by the
   * rest of the loop is either finished (a failure, an empty page or a short
   * page) or continues at the next offset with the page's rows appended.
   */
  lemma PagesStep(records: seq<Record>, gets: seq<int>, waits: seq<nat>,
                  page: nat -> PageRun, bound: nat, pos: nat, offset: int, limit: int)
    requires Progresses(page, bound)
    ensures var run := page(pos);
      var gets', waits' := gets + Repeat(offset, run.attempts), waits + run.waits;
      var before := Then(records, gets, waits, Pages(page, bound, pos, offset, limit));
      && (run.outcome.Err? ==> before == FetchRun(Err(Raised(run.outcome.error)), gets', waits'))
      && (run.outcome.Ok? && (run.outcome.value == [] || |run.outcome.value| < limit) ==>
            before == FetchRun(Ok(records + run.outcome.value), gets', waits'))
      && (run.outcome.Ok? && run.outcome.value != [] && |run.outcome.value| >= limit ==>
            before == Then(records + run.outcome.value, gets', waits',
                           Pages(page, bound, pos + run.attempts, offset + limit, limit)))
  {
    var run := page(pos);
    if run.outcome.Ok? && run.outcome.value != [] && |run.outcome.value| >= limit {
      ThenThen(records, gets, waits, run.outcome.value, Repeat(offset, run.attempts), run.waits,
               Pages(page, bound, pos + run.attempts, offset + limit, limit));
    }
  }

  /** The loop's first GET is for the page at `offset`. */
  lemma PagesFirstGet(page: nat -> PageRun, bound: nat, pos: nat, offset: int, limit: int)
    requires Progresses(page, bound)
    ensures var gets := Pages(page, bound, pos, offset, limit).gets;
      |gets| >= 1 && gets[0] == offset
  {
    RepeatAll(offset, page(pos).attempts);
  }

  /** Each offset equals the one before it or is `limit` past it. */
  predicate AdvancesBy(gets: seq<int>, limit: int) {
    forall k :: 0 < k < |gets| ==> gets[k] == gets[k - 1] || gets[k] == gets[k - 1] + limit
  }

  /** A page's retries at `offset`, then offsets from `offset + limit` on, still advance by `limit`. */
  lemma RepeatThenAdvances(offset: int, n: nat, more: seq<int>, limit: int)
    requires n >= 1 && AdvancesBy(more, limit)
    requires more == [] || more[0] == offset + limit
    ensures AdvancesBy(Repeat(offset, n) + more, limit)
  {
    RepeatAll(offset, n);
    var all := Repeat(offset, n) + more;
    forall k | 0 < k < |all|
      ensures all[k] == all[k - 1] || all[k] == all[k - 1] + limit
    {
      if k > n {
        assert all[k] == more[k - n] && all[k - 1] == more[k - 1 - n];
      } else if k == n {
        assert all[k] == more[0] && all[k - 1] == offset;
      }
    }
  }

  /** Offsets advance by `limit`: each GET is a retry at the same offset or the next page. */
  lemma {:induction false} PagesOffsets(page: nat -> PageRun, bound: nat, pos: nat, offset: int, limit: int)
    requires Progresses(page, bound)
    ensures AdvancesBy(Pages(page, bound, pos, offset, limit).gets, limit)
    decreases bound - pos
  {
    var run := page(pos);
    var all := Pages(page, bound, pos, offset, limit);
    if run.outcome.Ok? && run.outcome.value != [] && |run.outcome.value| >= limit {
      var rest := Pages(page, bound, pos + run.attempts, offset + limit, limit);
      PagesOffsets(page, bound, pos + run.attempts, offset + limit, limit);
      PagesFirstGet(page, bound, pos + run.attempts, offset + limit, limit);
      RepeatThenAdvances(offset, run.attempts, rest.gets, limit);
      assert all.gets == Repeat(offset, run.attempts) + rest.gets;
    } else {
      RepeatThenAdvances(offset, run.attempts, [], limit);
      assert all.gets == Repeat(offset, run.attempts) + [];
    }
  }

  /** The loop fails only with the exception a page re-raised; it never reports an invalid limit. */
  lemma {:induction false} PagesErrors(page: nat -> PageRun, bound: nat, pos: nat, offset: int, limit: int)
    requires Progresses(page, bound)
    ensures var all := Pages(page, bound, pos, offset, limit);
      all.result.Err? ==> all.result.error.Raised?
    decreases bound - pos
  {
    var run := page(pos);
    if run.outcome.Ok? && run.outcome.value != [] && |run.outcome.value| >= limit {
      PagesErrors(page, bound, pos + run.attempts, offset + limit, limit);
    }
  }

  /** No offset exceeds `bound`. */
  predicate AtMost(gets: seq<int>, bound: int) {
    forall k :: 0 <= k < |gets| ==> gets[k] <= bound
  }

  /** A page's retries at `offset`, then offsets up to `moreBound`, stay within any bound above both. */
  lemma RepeatThenAtMost(offset: int, n: nat, more: seq<int>, bound: int, moreBound: int)
    requires offset <= bound && AtMost(more, moreBound) && moreBound <= bound
    ensures AtMost(Repeat(offset, n) + more, bound)
  {
    RepeatAll(offset, n);
    var all := Repeat(offset, n) + more;
    forall k | 0 <= k < |all|
      ensures all[k] <= bound
    {
      if k >= n {
        assert all[k] == more[k - n];
      }
    }
  }

  /**
   * The loop never asks for a page beyond the rows it has received: a fetch
   * that succeeds has at least `limit` rows for every page before the last.
   */
  lemma {:induction false} PagesRows(page: nat -> PageRun, bound: nat, pos: nat, offset: int, limit: int)
    requires Progresses(page, bound)
    ensures var all := Pages(page, bound, pos, offset, limit);
      all.result.Ok? ==> AtMost(all.gets, offset + |all.result.value|)
    decreases bound - pos
  {
    var run := page(pos);
    var all := Pages(page, bound, pos, offset, limit);
    if run.outcome.Ok? {
      var rows := run.outcome.value;
      if rows != [] && |rows| >= limit {
        var rest := Pages(page, bound, pos + run.attempts, offset + limit, limit);
        PagesRows(page, bound, pos + run.attempts, offset + limit, limit);
        if rest.result.Ok? {
          var more := rest.result.value;
          RepeatThenAtMost(offset, run.attempts, rest.gets, offset + |rows + more|, offset + limit + |more|);
          assert all == FetchRun(Ok(rows + more), Repeat(offset, run.attempts) + rest.gets, run.waits + rest.waits);
        }
      } else {
        RepeatThenAtMost(offset, run.attempts, [], offset + |rows|, offset);
        assert all == FetchRun(Ok(rows), Repeat(offset, run.attempts) + [], run.waits);
      }
    }
  }

  /** `_fetch_page` against the scripted server, for every index its first GET may have. */
  function ScriptPages(replies: seq<Reply>): nat -> PageRun {
    (pos: nat) => FetchPageSpec(replies, pos)
  }

  lemma ScriptProgresses(replies: seq<Reply>)
    ensures Progresses(ScriptPages(replies), |replies|)
  {
  }

  /** The loop of `fetch_nyc311_data` against the scripted server. */
  ghost function PagesFrom(replies: seq<Reply>, pos: nat, offset: int, limit: int): FetchRun {
    ScriptProgresses(replies);
    Pages(ScriptPages(replies), |replies|, pos, offset, limit)
  }

  /**
   * One turn of the loop against the scripted server, with the next GET at
   * index `pos`: the fetch `spec` fails or ends with this page, or goes on
   * after it with the page's rows appended.
   */
  lemma PagesFromStep(replies: seq<Reply>, pos: nat, offset: int, limit: int,
                      records: seq<Record>, gets: seq<int>, waits: seq<nat>, spec: FetchRun)
    requires spec == Then(records, gets, waits, PagesFrom(replies, pos, offset, limit))
    ensures var page := FetchPageSpec(replies, pos);
      var gets', waits' := gets + Repeat(offset, page.attempts), waits + page.waits;
      && (page.outcome.Err? ==>
            spec.result == Err(Raised(page.outcome.error)) && spec.gets == gets' && spec.waits == waits')
      && (page.outcome.Ok? && (page.outcome.value == [] || |page.outcome.value| < limit) ==>
            spec.result == Ok(records + page.outcome.value) && spec.gets == gets' && spec.waits == waits')
      && (page.outcome.Ok? && page.outcome.value != [] && |page.outcome.value| >= limit ==>
            && pos + page.attempts <= |replies|
            && spec == Then(records + page.outcome.value, gets', waits',
                            PagesFrom(replies, pos + page.attempts, offset + limit, limit)))
  {
    var pages := ScriptPages(replies);
    ScriptProgresses(replies);
    assert pages(pos) == FetchPageSpec(replies, pos);
    PagesStep(records, gets, waits, pages, |replies|, pos, offset, limit);
  }

  /** A limit `fetch_nyc311_data` accepts. */
  predicate ValidLimit(limit: int) {
    0 < limit <= MAX_LIMIT
  }

  /** `fetch_nyc311_data` against a scripted server: the limit is checked before any GET. */
  ghost function FetchSpec(limit: int, replies: seq<Reply>): FetchRun {
    if !ValidLimit(limit) then FetchRun(Err(InvalidLimit), [], [])
    else PagesFrom(replies, 0, 0, limit)
  }

  /** The requests a fetch sends, one per GET. */
  function SentRequests(appToken: Option<string>, year: int, limit: int, gets: seq<int>): (r: seq<Request>)
    ensures |r| == |gets|
  {
    seq(|gets|, i requires 0 <= i < |gets| => PageRequest(appToken, year, limit, gets[i]))
  }

  /** The requests of a page appended to those before it. */
  lemma SentRequestsOfPage(appToken: Option<string>, year: int, limit: int,
                           gets: seq<int>, offset: int, n: nat)
    ensures SentRequests(appToken, year, limit, gets + Repeat(offset, n))
         == SentRequests(appToken, year, limit, gets) + Repeat(PageRequest(appToken, year, limit, offset), n)
  {
    RepeatAll(offset, n);
    RepeatAll(PageRequest(appToken, year, limit, offset), n);
  }

  /** The whole fetch: an invalid limit is reported exactly when it is out of range, with no GET sent. */
  lemma FetchLimitCheck(limit: int, replies: seq<Reply>)
    ensures FetchSpec(limit, replies).result == Err(InvalidLimit) ==> !ValidLimit(limit)
    ensures !ValidLimit(limit) ==> FetchSpec(limit, replies) == FetchRun(Err(InvalidLimit), [], [])
    ensures ValidLimit(limit) ==> FetchSpec(limit, replies).gets != [] && FetchSpec(limit, replies).gets[0] == 0
  {
    if ValidLimit(limit) {
      ScriptProgresses(replies);
      PagesFirstGet(ScriptPages(replies), |replies|, 0, 0, limit);
      PagesErrors(ScriptPages(replies), |replies|, 0, 0, limit);
    }
  }

  /** A dataset served in pages of `limit` rows: full pages, then the short remainder if any. */
  function Chunks(d: seq<Record>, limit: int): seq<Reply>
    requires limit > 0
    decreases |d|
  {
    if |d| < limit then (if d == [] then [] else [Response(200, Some(d))])
    else [Response(200, Some(d[..limit]))] + Chunks(d[limit..], limit)
  }

  /** The offsets `offset`, `offset + limit`, ..., `n` of them. */
  function PageOffsets(offset: int, limit: int, n: nat): (r: seq<int>)
    ensures |r| == n && forall i :: 0 <= i < n ==> r[i] == offset + i * limit
  {
    seq(n, i => offset + i * limit)
  }

  lemma MulAtLeast(n: nat, limit: int)
    requires n >= 1 && limit > 0
    ensures n * limit >= limit
  {
    assert n * limit == (n - 1) * limit + limit;
  }

  /** A dataset of `n` full pages and `k` further rows, served from GET `|prefix|` on. */
  lemma {:induction false} ServedInChunks(d: seq<Record>, prefix: seq<Reply>, offset: int, limit: int,
                                          n: nat, k: nat)
    requires ValidLimit(limit) && |d| == n * limit + k && k < limit
    ensures PagesFrom(prefix + Chunks(d, limit), |prefix|, offset, limit)
         == FetchRun(Ok(d), PageOffsets(offset, limit, n + 1), [])
    decreases |d|
  {
    var replies := prefix + Chunks(d, limit);
    if n >= 1 {
      MulAtLeast(n, limit);
    }
    if |d| < limit {
      assert n == 0;
      if d != [] {
        assert ReplyAt(replies, |prefix|) == Response(200, Some(d));
      } else {
        assert replies == prefix;
      }
      assert PageOffsets(offset, limit, 1) == [offset];
    } else {
      assert n >= 1;
      var first := Response(200, Some(d[..limit]));
      assert replies == (prefix + [first]) + Chunks(d[limit..], limit);
      assert ReplyAt(replies, |prefix|) == first;
      assert |d[limit..]| == (n - 1) * limit + k;
      ServedInChunks(d[limit..], prefix + [first], offset + limit, limit, n - 1, k);
      assert d[..limit] + d[limit..] == d;
      assert [offset] + PageOffsets(offset + limit, limit, n) == PageOffsets(offset, limit, n + 1);
    }
  }

  /**
   * Request counting: a dataset of `n` full pages and `k < limit` further
   * rows is fetched whole, in `n + 1` GETs at offsets `0, limit, ..., n * limit`
   * and with no wait. When `k` is 0 the last of those GETs is the extra
   * request that finds an empty page.
   */
  lemma FetchServedDataset(d: seq<Record>, limit: int, n: nat, k: nat)
    requires ValidLimit(limit) && |d| == n * limit + k && k < limit
    ensures FetchSpec(limit, Chunks(d, limit)) == FetchRun(Ok(d), PageOffsets(0, limit, n + 1), [])
  {
    ServedInChunks(d, [], 0, limit, n, k);
    assert [] + Chunks(d, limit) == Chunks(d, limit);
  }
}
