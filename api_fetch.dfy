/**
 * The two loops of `src/nyc311_api.py` as methods over a session and a
 * clock: the retry loop of `_fetch_page` and the pagination loop of
 * `fetch_nyc311_data`. Each is proved to do what module `Paging` specifies.
 */
module Fetch {
  import opened Wrappers
  import opened Query
  import opened Paging
  import opened Seqs

  /**
   * An HTTP session against a scripted server: it answers its n-th GET with
   * the n-th reply of the script and logs every request it sends.
   */
  class Session {
    const replies: seq<Reply>
    var sent: seq<Request>
    var isOpen: bool

    constructor (replies: seq<Reply>)
      ensures this.replies == replies && sent == [] && isOpen
    {
      this.replies := replies;
      sent := [];
      isOpen := true;
    }

    /** `session.get`: sends `req` and returns what the server does with it. */
    method Get(req: Request) returns (reply: Reply)
      requires isOpen
      modifies this
      ensures sent == old(sent) + [req] && isOpen
      ensures reply == ReplyAt(replies, |old(sent)|)
    {
      reply := ReplyAt(replies, |sent|);
      sent := sent + [req];
    }

    /** `session.close()`. */
    method Close()
      modifies this
      ensures !isOpen && sent == old(sent)
    {
      isOpen := false;
    }
  }

  /** `time.sleep`, which here records how long it was asked to wait. */
  class Clock {
    var slept: seq<nat>

    constructor ()
      ensures slept == []
    {
      slept := [];
    }

    method Sleep(seconds: nat)
      modifies this
      ensures slept == old(slept) + [seconds]
    {
      slept := slept + [seconds];
    }
  }

  /**
   * The state of the retry loop of `_fetch_page` before attempt number
   * `attempt` (from 0), on the session's log `sent` and the clock's log
   * `slept`, for the call whose logs started as `sent0` and `slept0`: the same
   * request has been sent once per earlier attempt, the clock has waited the
   * first `attempt` waits of `FetchPageSpec`, and the attempts from here on
   * give that call's outcome.
   */
  ghost predicate Retrying(replies: seq<Reply>, req: Request, sent0: seq<Request>, slept0: seq<nat>,
                           sent: seq<Request>, slept: seq<nat>, attempt: nat)
  {
    var run := FetchPageSpec(replies, |sent0|);
    && attempt < run.attempts
    && sent == sent0 + Repeat(req, attempt)
    && slept == slept0 + run.waits[..attempt]
    && run.outcome == PageFrom(replies, |sent0| + attempt, attempt).outcome
    && run.attempts == attempt + PageFrom(replies, |sent0| + attempt, attempt).attempts
  }

  /**
   * One attempt from a `Retrying` state: the GET's result ends the call with
   * `FetchPageSpec`'s outcome, GETs and waits, or is a retryable failure
   * before the last attempt, and after the wait of
   * `RETRY_DELAY * 2 ** attempt` the next attempt starts from a `Retrying`
   * state.
   */
  lemma RetryStep(replies: seq<Reply>, req: Request, sent0: seq<Request>, slept0: seq<nat>,
                  sent: seq<Request>, slept: seq<nat>, attempt: nat)
    requires Retrying(replies, req, sent0, slept0, sent, slept, attempt)
    ensures var run := FetchPageSpec(replies, |sent0|);
      var o := Attempt(ReplyAt(replies, |sent|));
      && (o.Ok? || !IsTransient(o.error) || attempt == MAX_RETRIES - 1 ==>
            o == run.outcome && sent + [req] == sent0 + Repeat(req, run.attempts) && slept == slept0 + run.waits)
      && (o.Err? && IsTransient(o.error) && attempt < MAX_RETRIES - 1 ==>
            Retrying(replies, req, sent0, slept0, sent + [req], slept + [RETRY_DELAY * Pow2(attempt)], attempt + 1))
  {
    var run := FetchPageSpec(replies, |sent0|);
    PageFromSchedule(replies, |sent0|, 0);
    BackoffDoubles(attempt);
    var o := Attempt(ReplyAt(replies, |sent|));
    if o.Err? && IsTransient(o.error) && attempt < MAX_RETRIES - 1 {
      assert run.waits[..attempt + 1] == run.waits[..attempt] + [Backoff(attempt)];
      AppendAssoc(slept0, run.waits[..attempt], [Backoff(attempt)]);
      AppendAssoc(sent0, Repeat(req, attempt), [req]);
    } else {
      assert run.waits[..attempt] == run.waits;
      AppendAssoc(sent0, Repeat(req, attempt), [req]);
    }
  }

  /**
   * `_fetch_page`: up to `MAX_RETRIES` attempts of the same request. Its
   * outcome, the GETs it sends and the waits it makes are those of
   * `FetchPageSpec` for the session's next GET.
   */
  method FetchPage(session: Session, clock: Clock, req: Request) returns (outcome: Result<seq<Record>, Exc>)
    requires session.isOpen
    modifies session, clock
    ensures var run := FetchPageSpec(session.replies, |old(session.sent)|);
      && outcome == run.outcome
      && session.sent == old(session.sent) + Repeat(req, run.attempts)
      && clock.slept == old(clock.slept) + run.waits
    ensures session.isOpen
  {
    ghost var sent0, slept0 := session.sent, clock.slept;
    for attempt := 0 to MAX_RETRIES
      invariant session.isOpen
      invariant Retrying(session.replies, req, sent0, slept0, session.sent, clock.slept, attempt)
    {
      RetryStep(session.replies, req, sent0, slept0, session.sent, clock.slept, attempt);
      var reply := session.Get(req);
      var result := Attempt(reply);
      match result {
        case Ok(rows) =>
          return Ok(rows);
        case Err(e) =>
          if IsTransient(e) {
            if attempt < MAX_RETRIES - 1 {
              var waitTime := RETRY_DELAY * Pow2(attempt);
              clock.Sleep(waitTime);
            } else {
              return Err(e);
            }
          } else {
            return Err(e);
          }
      }
    }
  }

  /**
   * The state of the loop of `fetch_nyc311_data` before the GET for the
   * page at `offset`, on the session's log `sent`, the clock's log `slept`
   * and the server's script `replies`: one request has been sent per offset
   * in `gets`, the clock has waited `waits` since `slept0`, `rest` is what
   * the loop does from here on, and the records so far followed by `rest`
   * make up the whole fetch `spec`.
   */
  ghost predicate FetchingState(sent: seq<Request>, slept: seq<nat>, replies: seq<Reply>,
                                appToken: Option<string>, year: int, limit: int,
                                slept0: seq<nat>, spec: FetchRun, records: seq<Record>, offset: int,
                                gets: seq<int>, waits: seq<nat>, rest: FetchRun)
  {
    && |sent| <= |replies|
    && sent == SentRequests(appToken, year, limit, gets)
    && slept == slept0 + waits
    && rest == PagesFrom(replies, |sent|, offset, limit)
    && spec == Then(records, gets, waits, rest)
  }

  /**
   * One page fetched from a `FetchingState`: the logs grow by the page's
   * GETs and waits, and the fetch fails here, ends here, or reaches the
   * `FetchingState` for the next offset.
   */
  lemma NextPageState(sent: seq<Request>, slept: seq<nat>, replies: seq<Reply>,
                      appToken: Option<string>, year: int, limit: int,
                      slept0: seq<nat>, spec: FetchRun, records: seq<Record>, offset: int,
                      gets: seq<int>, waits: seq<nat>, rest: FetchRun)
    requires FetchingState(sent, slept, replies, appToken, year, limit, slept0, spec, records, offset, gets, waits, rest)
    ensures var page := FetchPageSpec(replies, |sent|);
      var gets', waits' := gets + Repeat(offset, page.attempts), waits + page.waits;
      var sent' := sent + Repeat(PageRequest(appToken, year, limit, offset), page.attempts);
      var slept' := slept + page.waits;
      && sent' == SentRequests(appToken, year, limit, gets')
      && slept' == slept0 + waits'
      && (page.outcome.Err? ==>
            spec.result == Err(Raised(page.outcome.error)) && spec.gets == gets' && spec.waits == waits')
      && (page.outcome.Ok? && (page.outcome.value == [] || |page.outcome.value| < limit) ==>
            spec.result == Ok(records + page.outcome.value) && spec.gets == gets' && spec.waits == waits')
      && (page.outcome.Ok? && page.outcome.value != [] && |page.outcome.value| >= limit ==>
            FetchingState(sent', slept', replies, appToken, year, limit, slept0, spec,
                          records + page.outcome.value, offset + limit, gets', waits',
                          PagesFrom(replies, |sent'|, offset + limit, limit)))
  {
    var page := FetchPageSpec(replies, |sent|);
    PagesFromStep(replies, |sent|, offset, limit, records, gets, waits, spec);
    SentRequestsOfPage(appToken, year, limit, gets, offset, page.attempts);
    AppendAssoc(slept0, waits, page.waits);
  }

  /**
   * One turn of the loop of `fetch_nyc311_data`: `_fetch_page` for the page
   * at `offset`. The page's outcome tells whether the fetch fails here,
   * ends here with the page's rows appended, or goes on at `offset + limit`.
   */
  method FetchNextPage(session: Session, clock: Clock, appToken: Option<string>, year: int, limit: int,
                       ghost slept0: seq<nat>, ghost spec: FetchRun, records: seq<Record>, offset: int,
                       ghost gets: seq<int>, ghost waits: seq<nat>, ghost rest: FetchRun)
    returns (outcome: Result<seq<Record>, Exc>, ghost gets': seq<int>, ghost waits': seq<nat>,
             ghost rest': FetchRun)
    requires ValidLimit(limit)
    requires session.isOpen
    requires FetchingState(session.sent, clock.slept, session.replies, appToken, year, limit,
                           slept0, spec, records, offset, gets, waits, rest)
    modifies session, clock
    ensures |session.sent| > |old(session.sent)|
    ensures session.sent == SentRequests(appToken, year, limit, gets')
    ensures clock.slept == slept0 + waits'
    ensures outcome.Err? ==> spec.result == Err(Raised(outcome.error))
    ensures outcome.Ok? && (outcome.value == [] || |outcome.value| < limit) ==>
      spec.result == Ok(records + outcome.value)
    ensures (outcome.Err? || outcome.value == [] || |outcome.value| < limit) ==>
      spec.gets == gets' && spec.waits == waits'
    ensures outcome.Ok? && outcome.value != [] && |outcome.value| >= limit ==>
      && session.isOpen
      && FetchingState(session.sent, clock.slept, session.replies, appToken, year, limit, slept0, spec,
                       records + outcome.value, offset + limit, gets', waits', rest')
  {
    var params := BuildParams(year, limit, offset);
    var req := Request(BASE_URL, params, BuildHeaders(appToken), REQUEST_TIMEOUT);
    assert req == PageRequest(appToken, year, limit, offset);
    ghost var page := FetchPageSpec(session.replies, |session.sent|);
    NextPageState(session.sent, clock.slept, session.replies, appToken, year, limit,
                  slept0, spec, records, offset, gets, waits, rest);
    outcome := FetchPage(session, clock, req);
    gets', waits' := gets + Repeat(offset, page.attempts), waits + page.waits;
    rest' := PagesFrom(session.replies, |session.sent|, offset + limit, limit);
  }

  /**
   * `fetch_nyc311_data` against a server scripted by `server`. An invalid
   * limit is rejected before any session exists. Otherwise the result, the
   * requests the session sent and the waits are those `FetchSpec` gives, and
   * the session is closed on every way out, a failed page included.
   */
  method FetchNyc311Data(server: seq<Reply>, clock: Clock, appToken: Option<string>,
                         limit: int := DEFAULT_LIMIT, year: int := DEFAULT_YEAR)
    returns (result: Result<seq<Record>, FetchError>, session: Session?)
    modifies clock
    ensures var run := FetchSpec(limit, server);
      && result == run.result
      && clock.slept == old(clock.slept) + run.waits
      && (session == null <==> !ValidLimit(limit))
      && (session != null ==>
            && fresh(session) && !session.isOpen && session.replies == server
            && session.sent == SentRequests(appToken, year, limit, run.gets))
  {
    if limit <= 0 || limit > MAX_LIMIT {
      return Err(InvalidLimit), null;
    }
    var records: seq<Record> := [];
    var offset := 0;
    session := new Session(server);
    ghost var gets: seq<int> := [];
    ghost var waits: seq<nat> := [];
    ghost var spec := FetchSpec(limit, server);
    ghost var slept0 := old(clock.slept);
    ghost var rest := PagesFrom(server, 0, 0, limit);
    ThenNothing(rest);
    while true
      invariant session.isOpen
      invariant FetchingState(session.sent, clock.slept, session.replies, appToken, year, limit,
                              slept0, spec, records, offset, gets, waits, rest)
      decreases |server| - |session.sent|
    {
      var outcome;
      outcome, gets, waits, rest := FetchNextPage(session, clock, appToken, year, limit, slept0, spec,
                                                  records, offset, gets, waits, rest);
      match outcome {
        case Err(e) =>
          session.Close();
          return Err(Raised(e)), session;
        case Ok(rows) =>
          records := records + rows;
          if rows == [] || |rows| < limit {
            session.Close();
            return Ok(records), session;
          }
          offset := offset + limit;
      }
    }
  }
}
