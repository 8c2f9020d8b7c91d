/**
 * The Socrata query `src/nyc311_api.py` sends for one page: the module's
 * constants, the four SoQL parameters, the optional application-token header,
 * and the request they make up together.
 */
module Query {
  import opened Wrappers
  import opened Text

  const DATASET_ID: string := "erm2-nwe9"
  const BASE_URL: string := "https://data.cityofnewyork.us/resource/" + DATASET_ID + ".json"
  /** Rows per request when `fetch_nyc311_data` is given no limit. */
  const DEFAULT_LIMIT: int := 25000
  const MAX_LIMIT: int := 50000
  /** Seconds, passed through to every request. */
  const REQUEST_TIMEOUT: nat := 120
  const MAX_RETRIES: nat := 3
  /** Seconds before the first retry; each later retry waits twice as long. */
  const RETRY_DELAY: nat := 2
  /** The year `fetch_nyc311_data` collects when none is given. */
  const DEFAULT_YEAR: int := 2024

  /** A query-string value: the limit and offset are integers, the rest text. */
  datatype ParamValue = IntParam(n: int) | StrParam(s: string)

  type Params = map<string, ParamValue>

  const WHERE_PREFIX: string := "created_date between '"
  const START_SUFFIX: string := "-01-01T00:00:00' and '"
  const END_SUFFIX: string := "-12-31T23:59:59'"

  /** `f"created_date between '{year}-01-01T00:00:00' and '{year}-12-31T23:59:59'"`. */
  function WhereClause(year: int): string {
    WHERE_PREFIX + IntToString(year) + START_SUFFIX + IntToString(year) + END_SUFFIX
  }

  /**
   * `_build_params`: exactly the four SoQL keys, with the limit and offset as
   * given, ordering by creation date, and the whole calendar year as the filter.
   */
  function BuildParams(year: int, limit: int, offset: int): (p: Params)
    ensures p.Keys == {"$limit", "$offset", "$order", "$where"}
    ensures p["$limit"] == IntParam(limit) && p["$offset"] == IntParam(offset)
    ensures p["$order"] == StrParam("created_date")
    ensures p["$where"] == StrParam(WhereClause(year))
  {
    map["$limit" := IntParam(limit), "$offset" := IntParam(offset),
        "$order" := StrParam("created_date"), "$where" := StrParam(WhereClause(year))]
  }

  /**
   * How a reader of the filter recovers the year: the numeral after the
   * prefix, which must then appear again as the end of the range.
   */
  function YearOfWhere(w: string): Option<int> {
    if |w| < |WHERE_PREFIX| || w[..|WHERE_PREFIX|] != WHERE_PREFIX then None
    else
      var r := w[|WHERE_PREFIX|..];
      var k := if r != [] && r[0] == '-' then 1 + DigitRun(r[1..]) else DigitRun(r);
      var numeral := r[..k];
      if r[k..] == START_SUFFIX + numeral + END_SUFFIX then ParseInt(numeral) else None
  }

  /** The numeral `IntToString` prints ends where the text after it begins with a non-digit. */
  lemma NumeralRun(year: int, rest: string)
    requires rest != [] && !IsDigit(rest[0])
    ensures var r := IntToString(year) + rest;
      (if r != [] && r[0] == '-' then 1 + DigitRun(r[1..]) else DigitRun(r)) == |IntToString(year)|
  {
    var t := IntToString(year);
    var r := t + rest;
    if year < 0 {
      assert r[0] == '-';
      assert r[1..] == NatToString(-year) + rest;
      DigitRunOfNumeral(NatToString(-year), rest);
    } else {
      assert t == NatToString(year) && IsDigit(r[0]);
      DigitRunOfNumeral(t, rest);
    }
  }

  /** The filter `_build_params` writes names its year unambiguously. */
  lemma YearOfWhereClause(year: int)
    ensures YearOfWhere(WhereClause(year)) == Some(year)
  {
    var t := IntToString(year);
    var w := WhereClause(year);
    var rest := START_SUFFIX + t + END_SUFFIX;
    assert w == WHERE_PREFIX + (t + rest);
    assert w[..|WHERE_PREFIX|] == WHERE_PREFIX;
    var r := w[|WHERE_PREFIX|..];
    assert r == t + rest;
    assert rest[0] == '-';
    NumeralRun(year, rest);
    assert r[..|t|] == t && r[|t|..] == rest;
    ParseIntToString(year);
  }

  const TOKEN_HEADER: string := "X-App-Token"

  /** The headers: the token only when one is given and it is not empty (Python truthiness). */
  function BuildHeaders(appToken: Option<string>): (h: map<string, string>)
    ensures h.Keys <= {TOKEN_HEADER}
    ensures TOKEN_HEADER in h ==> appToken.Some? && appToken.value != "" && h[TOKEN_HEADER] == appToken.value
    ensures appToken.Some? && appToken.value != "" ==> TOKEN_HEADER in h
  {
    if appToken.Some? && appToken.value != "" then map[TOKEN_HEADER := appToken.value] else map[]
  }

  /** One GET as `session.get` receives it. */
  datatype Request = Request(url: string, params: Params, headers: map<string, string>, timeout: nat)

  /** The request for the page at `offset`. */
  function PageRequest(appToken: Option<string>, year: int, limit: int, offset: int): Request {
    Request(BASE_URL, BuildParams(year, limit, offset), BuildHeaders(appToken), REQUEST_TIMEOUT)
  }

  /** Requests for different offsets differ; so a log of requests determines the offsets. */
  lemma PageRequestInjective(appToken: Option<string>, year: int, limit: int, a: int, b: int)
    ensures PageRequest(appToken, year, limit, a) == PageRequest(appToken, year, limit, b) ==> a == b
  {
    if PageRequest(appToken, year, limit, a) == PageRequest(appToken, year, limit, b) {
      assert BuildParams(year, limit, a)["$offset"] == BuildParams(year, limit, b)["$offset"];
    }
  }
}
