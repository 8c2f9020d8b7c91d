/**
 * The ordered cleaning pipeline of `src/nyc311_cleaning.py`: seven whole-table
 * stages, each of which copies its input frame and returns a new one, and the
 * driver that runs them in a fixed order.
 *
 * A frame is a sequence of rows plus the set of columns it has; the only
 * column whose presence varies is `response_time_days`, so a `Table` records
 * just that. Every filtering stage is a boolean mask over the rows.
 */
module Cleaning {
  import opened Wrappers
  import opened Seqs
  import opened Text

  /** A point in time as `pd.to_datetime` produces it, counted in whole seconds. */
  type Timestamp = int

  /** `24 * 3600`, the divisor that turns elapsed seconds into days. */
  const SECONDS_PER_DAY: int := 24 * 3600

  /** A record as it arrives from the API: every field text or null. */
  datatype RawRow = RawRow(
    uniqueKey: Option<string>,
    createdDate: Option<string>,
    closedDate: Option<string>,
    complaintType: Option<string>,
    borough: Option<string>,
    channel: Option<string>,         // open_data_channel_type
    others: map<string, string>)     // every other column, carried unchanged

  /** A record once its dates are typed; `responseTimeDays` is meaningful only in a table that has that column. */
  datatype Row = Row(
    uniqueKey: Option<string>,
    createdDate: Option<Timestamp>,
    closedDate: Option<Timestamp>,
    complaintType: Option<string>,
    borough: Option<string>,
    channel: Option<string>,
    responseTimeDays: Option<real>,
    others: map<string, string>)

  /** A frame: its rows in order, and whether it has a `response_time_days` column. */
  datatype Table = Table(rows: seq<Row>, hasResponseTime: bool)

  // ---------------------------------------------------------------------------
  // Stage 1: convert_dates_to_datetime

  /**
   * `pd.to_datetime(cell, errors="coerce")`: null stays null and text the
   * parser rejects becomes null. The parser itself is a parameter.
   */
  function ParseDateCell(cell: Option<string>, parse: string -> Option<Timestamp>): (d: Option<Timestamp>)
    ensures d.Some? ==> cell.Some? && parse(cell.value) == d
    ensures cell.Some? ==> d == parse(cell.value)
  {
    match cell
    case None => None
    case Some(text) => parse(text)
  }

  function ConvertRow(raw: RawRow, parse: string -> Option<Timestamp>): Row {
    Row(raw.uniqueKey, ParseDateCell(raw.createdDate, parse), ParseDateCell(raw.closedDate, parse),
        raw.complaintType, raw.borough, raw.channel, None, raw.others)
  }

  /** Stage 1: both date columns parsed; row count, order and every other column kept. */
  function ConvertDatesToDatetime(raw: seq<RawRow>, parse: string -> Option<Timestamp>): (t: Table)
    ensures !t.hasResponseTime && |t.rows| == |raw|
    ensures forall i :: 0 <= i < |raw| ==>
      var r, x := t.rows[i], raw[i];
      && r.uniqueKey == x.uniqueKey && r.complaintType == x.complaintType && r.borough == x.borough
      && r.channel == x.channel && r.others == x.others
      && r.createdDate == ParseDateCell(x.createdDate, parse)
      && r.closedDate == ParseDateCell(x.closedDate, parse)
      && r.responseTimeDays.None?
  {
    Table(seq(|raw|, i requires 0 <= i < |raw| => ConvertRow(raw[i], parse)), false)
  }

  // ---------------------------------------------------------------------------
  // Stage 2: compute_response_time

  /** `(closed - created).total_seconds() / 86400`, null when either date is null. */
  function ResponseDays(created: Option<Timestamp>, closed: Option<Timestamp>): (d: Option<real>)
    ensures d.Some? <==> created.Some? && closed.Some?
  {
    if created.Some? && closed.Some? then
      Some((closed.value - created.value) as real / SECONDS_PER_DAY as real)
    else None
  }

  /** The response time is positive exactly when both dates exist and closing came after creation. */
  lemma ResponseDaysPositive(created: Option<Timestamp>, closed: Option<Timestamp>)
    ensures var d := ResponseDays(created, closed);
      (d.Some? && d.value > 0.0) <==> (created.Some? && closed.Some? && closed.value > created.value)
    ensures var d := ResponseDays(created, closed);
      d.Some? ==> d.value * SECONDS_PER_DAY as real == (closed.value - created.value) as real
  {
  }

  /** Stage 2: adds `response_time_days` to every row and changes nothing else. */
  function ComputeResponseTime(t: Table): (r: Table)
    ensures r.hasResponseTime && |r.rows| == |t.rows|
    ensures forall i :: 0 <= i < |t.rows| ==>
      r.rows[i] == t.rows[i].(responseTimeDays := ResponseDays(t.rows[i].createdDate, t.rows[i].closedDate))
  {
    Table(seq(|t.rows|, i requires 0 <= i < |t.rows| =>
            t.rows[i].(responseTimeDays := ResponseDays(t.rows[i].createdDate, t.rows[i].closedDate))),
          true)
  }

  // ---------------------------------------------------------------------------
  // Stage 3: filter_invalid_rows

  predicate HasCreatedDate(row: Row) { row.createdDate.Some? }
  predicate HasClosedDate(row: Row) { row.closedDate.Some? }
  predicate HasBorough(row: Row) { row.borough.Some? }

  /** `response_time_days > 0`; a null value fails the comparison, as NaN does. */
  predicate HasPositiveResponseTime(row: Row) {
    row.responseTimeDays.Some? && row.responseTimeDays.value > 0.0
  }

  /** The requirements a row must meet to survive stage 3, with its three toggles. */
  predicate IsValidRow(row: Row, requireCreatedDate: bool, requireClosedDate: bool,
                       requireBorough: bool, hasResponseTime: bool)
  {
    && (requireCreatedDate ==> HasCreatedDate(row))
    && (requireClosedDate ==> HasClosedDate(row))
    && (requireBorough ==> HasBorough(row))
    && (hasResponseTime ==> HasPositiveResponseTime(row))
  }

  /**
   * Stage 3: four masks applied one after the other. The result is the
   * order-preserving subsequence of exactly the rows meeting every active
   * requirement; the positive-response-time test applies whenever the column exists.
   */
  function FilterInvalidRows(t: Table, requireCreatedDate: bool := true, requireClosedDate: bool := true,
                             requireBorough: bool := true): (r: Table)
    ensures r.hasResponseTime == t.hasResponseTime
    ensures r.rows == Filter(t.rows, (row: Row) =>
      IsValidRow(row, requireCreatedDate, requireClosedDate, requireBorough, t.hasResponseTime))
  {
    var afterCreated := if requireCreatedDate then Filter(t.rows, HasCreatedDate) else t.rows;
    var afterClosed := if requireClosedDate then Filter(afterCreated, HasClosedDate) else afterCreated;
    var afterBorough := if requireBorough then Filter(afterClosed, HasBorough) else afterClosed;
    var afterResponse :=
      if t.hasResponseTime then Filter(afterBorough, HasPositiveResponseTime) else afterBorough;
    FilterInvalidRowsAsOneMask(t, requireCreatedDate, requireClosedDate, requireBorough);
    Table(afterResponse, t.hasResponseTime)
  }

  lemma FilterInvalidRowsAsOneMask(t: Table, requireCreatedDate: bool, requireClosedDate: bool,
                                   requireBorough: bool)
    ensures
      var afterCreated := if requireCreatedDate then Filter(t.rows, HasCreatedDate) else t.rows;
      var afterClosed := if requireClosedDate then Filter(afterCreated, HasClosedDate) else afterCreated;
      var afterBorough := if requireBorough then Filter(afterClosed, HasBorough) else afterClosed;
      var afterResponse :=
        if t.hasResponseTime then Filter(afterBorough, HasPositiveResponseTime) else afterBorough;
      afterResponse == Filter(t.rows, (row: Row) =>
        IsValidRow(row, requireCreatedDate, requireClosedDate, requireBorough, t.hasResponseTime))
  {
    var s := t.rows;
    var p1 := When(requireCreatedDate, HasCreatedDate);
    var p12 := Both(p1, When(requireClosedDate, HasClosedDate));
    var p123 := Both(p12, When(requireBorough, HasBorough));
    var p1234 := Both(p123, When(t.hasResponseTime, HasPositiveResponseTime));
    var afterCreated := if requireCreatedDate then Filter(s, HasCreatedDate) else s;
    assert afterCreated == Filter(s, p1) by {
      FilterWhen(s, requireCreatedDate, HasCreatedDate);
    }
    var afterClosed := if requireClosedDate then Filter(afterCreated, HasClosedDate) else afterCreated;
    assert afterClosed == Filter(s, p12) by {
      FilterThenWhen(s, p1, requireClosedDate, HasClosedDate);
    }
    var afterBorough := if requireBorough then Filter(afterClosed, HasBorough) else afterClosed;
    assert afterBorough == Filter(s, p123) by {
      FilterThenWhen(s, p12, requireBorough, HasBorough);
    }
    assert (if t.hasResponseTime then Filter(afterBorough, HasPositiveResponseTime) else afterBorough)
        == Filter(s, p1234) by {
      FilterThenWhen(s, p123, t.hasResponseTime, HasPositiveResponseTime);
    }
    FilterCongruent(s, p1234, (row: Row) =>
      IsValidRow(row, requireCreatedDate, requireClosedDate, requireBorough, t.hasResponseTime));
  }

  /**
   * With the default toggles, after stages 2 and 3 every row has both dates,
   * a borough, and was closed strictly after it was created.
   */
  lemma ValidRowsClosedAfterCreated(t: Table)
    ensures forall row :: row in FilterInvalidRows(ComputeResponseTime(t), true, true, true).rows ==>
      && row.createdDate.Some? && row.closedDate.Some? && row.borough.Some?
      && row.closedDate.value > row.createdDate.value
      && row.responseTimeDays.Some? && row.responseTimeDays.value > 0.0
  {
    var t2 := ComputeResponseTime(t);
    forall row | row in FilterInvalidRows(t2, true, true, true).rows
      ensures row.closedDate.value > row.createdDate.value
    {
      assert row in t2.rows && IsValidRow(row, true, true, true, true);
      var i :| 0 <= i < |t2.rows| && t2.rows[i] == row;
      ResponseDaysPositive(t.rows[i].createdDate, t.rows[i].closedDate);
    }
  }

  // ---------------------------------------------------------------------------
  // Stage 4: standardize_channel_type

  /** The fixed lookup from upper-cased, trimmed channel text to a standard channel. */
  const CHANNEL_MAPPING: map<string, string> :=
    map["PHONE" := "Phone", "ONLINE" := "Web", "UNKNOWN" := "Web", "MOBILE" := "App", "OTHER" := "Web"]

  /** The three values the channel column may hold after stage 4. */
  const STANDARD_CHANNELS: set<string> := {"Phone", "Web", "App"}

  /**
   * One cell of stage 4: `.str.upper().str.strip()`, then `.map(CHANNEL_MAPPING)`,
   * then `.fillna("Web")`. A null cell stays null through the string methods
   * and the lookup, so it becomes "Web" too.
   */
  function StandardChannel(cell: Option<string>): (c: string)
    ensures c in STANDARD_CHANNELS
  {
    match cell
    case None => "Web"
    case Some(text) =>
      var key := Strip(Upper(text));
      if key in CHANNEL_MAPPING then CHANNEL_MAPPING[key] else "Web"
  }

  /** Which raw values give which standard channel: the mapping is total and "Web" is the default. */
  lemma StandardChannelCases(cell: Option<string>)
    ensures StandardChannel(cell) == "Phone" <==> cell.Some? && Strip(Upper(cell.value)) == "PHONE"
    ensures StandardChannel(cell) == "App" <==> cell.Some? && Strip(Upper(cell.value)) == "MOBILE"
    ensures StandardChannel(cell) == "Web" <==>
      cell.None? || Strip(Upper(cell.value)) !in {"PHONE", "MOBILE"}
  {
  }

  /**
   * Stage 4: only the channel column changes, into one of the three standard
   * values; row count, order and every other column stay as they were.
   */
  function StandardizeChannelType(t: Table): (r: Table)
    ensures r.hasResponseTime == t.hasResponseTime && |r.rows| == |t.rows|
    ensures forall i :: 0 <= i < |t.rows| ==>
      r.rows[i] == t.rows[i].(channel := Some(StandardChannel(t.rows[i].channel)))
    ensures forall row :: row in r.rows ==> row.channel.Some? && row.channel.value in STANDARD_CHANNELS
  {
    Table(seq(|t.rows|, i requires 0 <= i < |t.rows| =>
            t.rows[i].(channel := Some(StandardChannel(t.rows[i].channel)))),
          t.hasResponseTime)
  }

  /**
   * Stage 4 must run once: "App" is not a key of the lookup, so a second
   * pass would turn every App row into Web.
   */
  lemma StandardizeChannelNotIdempotent()
    ensures StandardChannel(Some(StandardChannel(Some("mobile")))) == "Web"
  {
    MobileIsApp();
    AppIsNotAKey();
  }

  lemma MobileIsApp()
    ensures StandardChannel(Some("mobile")) == "App"
  {
    var m := Upper("mobile");
    assert m[0] == 'M' && m[1] == 'O' && m[2] == 'B' && m[3] == 'I' && m[4] == 'L' && m[5] == 'E';
    assert m == "MOBILE";
    assert LeadingSpaces(m) == 0 && TrailingSpaces(m) == 6;
    assert Strip(m) == m[0..6] == m;
  }

  lemma AppIsNotAKey()
    ensures StandardChannel(Some("App")) == "Web"
  {
    var a := Upper("App");
    assert a[0] == 'A' && a[1] == 'P' && a[2] == 'P';
    assert a == "APP";
    assert LeadingSpaces(a) == 0 && TrailingSpaces(a) == 3;
    assert Strip(a) == a[0..3] == a;
  }

  // ---------------------------------------------------------------------------
  // Stage 5: remove_duplicates

  /** The default de-duplication key, the `unique_key` column. */
  function UniqueKey(row: Row): Option<string> {
    row.uniqueKey
  }

  /**
   * Stage 5: `drop_duplicates(subset=[key], keep="first")`. The result is an
   * order-preserving subsequence whose keys are pairwise distinct, holds the
   * same keys as the input, and keeps for each key the first row carrying it.
   * Null keys count as equal to each other, as pandas treats NaN.
   */
  function RemoveDuplicates<K(==)>(t: Table, key: Row -> K): (r: Table)
    ensures r.hasResponseTime == t.hasResponseTime
    ensures IsSubsequence(r.rows, t.rows)
    ensures Distinct(Column(r.rows, key))
    ensures forall k :: k in Column(t.rows, key) ==> k in Column(r.rows, key)
    ensures forall k :: k in Column(r.rows, key) ==> k in Column(t.rows, key)
    ensures forall i :: 0 <= i < |t.rows| && key(t.rows[i]) !in Column(t.rows[..i], key) ==>
      t.rows[i] in r.rows
    ensures forall row :: row in r.rows ==>
      exists i :: 0 <= i < |t.rows| && t.rows[i] == row && key(row) !in Column(t.rows[..i], key)
    ensures exists mask ::
              && |mask| == |t.rows| && Select(t.rows, mask) == r.rows
              && forall i :: 0 <= i < |t.rows| ==> (mask[i] <==> key(t.rows[i]) !in Column(t.rows[..i], key))
  {
    DropDuplicatesKeys(t.rows, key);
    SelectMembers(t.rows, FirstOccurrenceMask(t.rows, key));
    Table(DropDuplicates(t.rows, key), t.hasResponseTime)
  }

  /** De-duplicating twice gives what de-duplicating once gives. */
  lemma RemoveDuplicatesIdempotent<K>(t: Table, key: Row -> K)
    ensures RemoveDuplicates(RemoveDuplicates(t, key), key) == RemoveDuplicates(t, key)
  {
    DropDuplicatesOfDistinct(RemoveDuplicates(t, key).rows, key);
  }

  // ---------------------------------------------------------------------------
  // Stage 6: winsorize_response_time

  /** `clip(upper=threshold)` on one cell; a null cell stays null. */
  function ClipCell(v: Option<real>, threshold: real): (c: Option<real>)
    ensures c.Some? <==> v.Some?
    ensures c.Some? ==> c.value <= threshold && c.value <= v.value
    ensures c.Some? ==> c.value == v.value || c.value == threshold
  {
    match v
    case None => None
    case Some(x) => Some(if x > threshold then threshold else x)
  }

  /** `response_time_days > threshold`; false on a null cell. */
  predicate IsAbove(row: Row, threshold: real) {
    row.responseTimeDays.Some? && row.responseTimeDays.value > threshold
  }

  /** The non-null values of `response_time_days`, the sample `quantile` works on. */
  function ResponseTimes(rows: seq<Row>): (ts: seq<real>)
    ensures |ts| <= |rows|
    ensures forall i :: 0 <= i < |rows| && rows[i].responseTimeDays.Some? ==> rows[i].responseTimeDays.value in ts
  {
    if rows == [] then []
    else
      var last := rows[|rows| - 1];
      ResponseTimes(rows[..|rows| - 1])
        + (if last.responseTimeDays.Some? then [last.responseTimeDays.value] else [])
  }

  /**
   * The sample holds every non-null value as often as rows carry it, and
   * nothing else: the multiset `quantile` reads.
   */
  lemma {:induction false} ResponseTimesMultiplicity(rows: seq<Row>)
    ensures forall x ::
              multiset(ResponseTimes(rows))[x] == |Filter(rows, (row: Row) => row.responseTimeDays == Some(x))|
    decreases |rows|
  {
    if rows != [] {
      var init, last := rows[..|rows| - 1], rows[|rows| - 1];
      assert rows == init + [last];
      ResponseTimesMultiplicity(init);
      forall x: real
        ensures multiset(ResponseTimes(rows))[x]
          == |Filter(rows, (row: Row) => row.responseTimeDays == Some(x))|
      {
        FilterSnoc(init, last, (row: Row) => row.responseTimeDays == Some(x));
      }
    }
  }

  /**
   * The clipping step of stage 6. Row count and order are kept; every value
   * ends up at most the threshold; a row changes exactly when its value was
   * above the threshold, and then only its response time changes.
   */
  function CapResponseTime(t: Table, threshold: real): (r: Table)
    ensures r.hasResponseTime == t.hasResponseTime && |r.rows| == |t.rows|
    ensures forall i :: 0 <= i < |t.rows| ==>
      r.rows[i] == t.rows[i].(responseTimeDays := ClipCell(t.rows[i].responseTimeDays, threshold))
    ensures forall row :: row in r.rows && row.responseTimeDays.Some? ==>
      row.responseTimeDays.value <= threshold
    ensures forall i :: 0 <= i < |t.rows| && !IsAbove(t.rows[i], threshold) ==> r.rows[i] == t.rows[i]
    ensures forall i :: 0 <= i < |t.rows| && IsAbove(t.rows[i], threshold) ==>
      r.rows[i].responseTimeDays == Some(threshold) && r.rows[i] != t.rows[i]
  {
    Table(seq(|t.rows|, i requires 0 <= i < |t.rows| =>
            t.rows[i].(responseTimeDays := ClipCell(t.rows[i].responseTimeDays, threshold))),
          t.hasResponseTime)
  }

  /** Clipping again at the same threshold changes nothing and finds nothing to cap. */
  lemma CapResponseTimeIdempotent(t: Table, threshold: real)
    ensures CapResponseTime(CapResponseTime(t, threshold), threshold) == CapResponseTime(t, threshold)
    ensures Filter(CapResponseTime(t, threshold).rows, (row: Row) => IsAbove(row, threshold)) == []
  {
    var r := CapResponseTime(t, threshold);
    assert CapResponseTime(r, threshold).rows == r.rows;
    FilterNone(r.rows, (row: Row) => IsAbove(row, threshold));
  }

  /** The outcome of stage 6: the new frame and what the stage reports. */
  datatype Winsorized = Winsorized(table: Table, threshold: Option<real>, capped: nat)

  /** The `ValueError` pandas' `Series.quantile` raises for a fraction outside [0, 1]. */
  datatype CleanError = PercentileOutOfRange

  /**
   * Stage 6. Without a `response_time_days` column the frame is returned as
   * it is. Otherwise the percentile must lie in 0..100, or `quantile` raises;
   * the threshold is the requested quantile of the non-null values
   * (`quantile` stands for pandas' `Series.quantile`), values above it are
   * clipped to it, and the reported count is the number of values above it.
   */
  function WinsorizeResponseTime(t: Table, quantile: (seq<real>, real) -> real,
                                 percentile: real := 99.0): (w: Result<Winsorized, CleanError>)
    ensures !t.hasResponseTime ==> w == Ok(Winsorized(t, None, 0))
    ensures t.hasResponseTime ==> (w.Err? <==> percentile < 0.0 || percentile > 100.0)
    ensures w.Err? ==> w.error == PercentileOutOfRange
    ensures t.hasResponseTime && w.Ok? ==>
      var threshold := quantile(ResponseTimes(t.rows), percentile / 100.0);
      && w.value.threshold == Some(threshold)
      && w.value.table == CapResponseTime(t, threshold)
      && w.value.capped == |Filter(t.rows, (row: Row) => IsAbove(row, threshold))|
  {
    if !t.hasResponseTime then Ok(Winsorized(t, None, 0))
    else if !(0.0 <= percentile / 100.0 <= 1.0) then Err(PercentileOutOfRange)
    else
      var threshold := quantile(ResponseTimes(t.rows), percentile / 100.0);
      var above := |Filter(t.rows, (row: Row) => IsAbove(row, threshold))|;
      Ok(Winsorized(CapResponseTime(t, threshold), Some(threshold), above))
  }

  // ---------------------------------------------------------------------------
  // Stage 7: select_top_complaint_types

  predicate HasComplaintType(row: Row, c: string) {
    row.complaintType == Some(c)
  }

  /** How many rows carry complaint type `c`. */
  function TypeCount(rows: seq<Row>, c: string): nat {
    |Filter(rows, (row: Row) => HasComplaintType(row, c))|
  }

  function ComplaintTypeOf(row: Row): Option<string> {
    row.complaintType
  }

  /** The count `value_counts` reports: how often `c` occurs in the complaint-type column. */
  lemma {:induction false} TypeCountIsOccurrences(rows: seq<Row>, c: string)
    ensures TypeCount(rows, c) == multiset(Column(rows, ComplaintTypeOf))[Some(c)]
    decreases |rows|
  {
    if rows != [] {
      var n := |rows| - 1;
      var init, last := rows[..n], rows[n];
      assert rows == init + [last];
      TypeCountIsOccurrences(init, c);
      FilterSnoc(init, last, (row: Row) => HasComplaintType(row, c));
      assert Column(rows, ComplaintTypeOf) == Column(init, ComplaintTypeOf) + [last.complaintType];
    }
  }

  function CountsIn(rows: seq<Row>): string -> nat {
    c => TypeCount(rows, c)
  }

  /** The distinct non-null complaint types, in order of first appearance. */
  function ComplaintTypes(rows: seq<Row>): (ts: seq<string>)
    ensures Distinct(ts)
    ensures forall c :: c in ts ==> exists i :: 0 <= i < |rows| && HasComplaintType(rows[i], c)
    ensures forall i :: 0 <= i < |rows| && rows[i].complaintType.Some? ==>
      rows[i].complaintType.value in ts
  {
    if rows == [] then []
    else
      var ts := ComplaintTypes(rows[..|rows| - 1]);
      var last := rows[|rows| - 1];
      if last.complaintType.None? || last.complaintType.value in ts then ts
      else ts + [last.complaintType.value]
  }

  /** Non-increasing in `count` from left to right. */
  predicate SortedByCount(ts: seq<string>, count: string -> nat) {
    forall i, j :: 0 <= i < j < |ts| ==> count(ts[i]) >= count(ts[j])
  }

  /** A ranking with an entry counted at least as often as all of it put in front is still a ranking. */
  lemma SortedByCountCons(x: string, ranked: seq<string>, count: string -> nat)
    requires SortedByCount(ranked, count)
    requires forall y :: y in ranked ==> count(x) >= count(y)
    ensures SortedByCount([x] + ranked, count)
  {
    var r := [x] + ranked;
    forall i, j | 0 <= i < j < |r|
      ensures count(r[i]) >= count(r[j])
    {
      assert r[j] == ranked[j - 1] && r[j] in ranked;
      if i > 0 {
        assert r[i] == ranked[i - 1];
      }
    }
  }

  /** The head of a ranking is counted at least as often as the rest of it. */
  lemma SortedByCountHead(ranked: seq<string>, count: string -> nat)
    requires ranked != [] && SortedByCount(ranked, count)
    ensures SortedByCount(ranked[1..], count)
    ensures forall y :: y in ranked ==> count(ranked[0]) >= count(y)
  {
    forall y | y in ranked
      ensures count(ranked[0]) >= count(y)
    {
      var j :| 0 <= j < |ranked| && ranked[j] == y;
      if j > 0 {
        assert count(ranked[0]) >= count(ranked[j]);
      }
    }
  }

  /** Inserts `c` after every entry counted at least as often, so equal counts keep their order. */
  function InsertByCount(c: string, ranked: seq<string>, count: string -> nat): (r: seq<string>)
    requires SortedByCount(ranked, count)
    ensures SortedByCount(r, count) && |r| == |ranked| + 1
    ensures c in r && forall x :: x in ranked ==> x in r
    ensures forall x :: x in r ==> x == c || x in ranked
    ensures Distinct(ranked) && c !in ranked ==> Distinct(r)
  {
    if ranked == [] then [c]
    else
      SortedByCountHead(ranked, count);
      if count(ranked[0]) >= count(c) then
        var rest := InsertByCount(c, ranked[1..], count);
        SortedByCountCons(ranked[0], rest, count);
        assert ranked == [ranked[0]] + ranked[1..];
        assert Distinct(ranked) ==> Distinct(ranked[1..]) && ranked[0] !in ranked[1..];
        DistinctCons(ranked[0], rest);
        [ranked[0]] + rest
      else
        SortedByCountCons(c, ranked, count);
        DistinctCons(c, ranked);
        [c] + ranked
  }

  /** A stable sort by decreasing count: the order of `value_counts`, ties in order of appearance. */
  function RankByCount(ts: seq<string>, count: string -> nat): (r: seq<string>)
    ensures SortedByCount(r, count) && |r| == |ts|
    ensures forall x :: x in ts ==> x in r
    ensures forall x :: x in r ==> x in ts
    ensures Distinct(ts) ==> Distinct(r)
  {
    if ts == [] then []
    else
      var init := ts[..|ts| - 1];
      InsertByCount(ts[|ts| - 1], RankByCount(init, count), count)
  }

  /** `df["complaint_type"].value_counts().index`: the types, most frequent first. */
  function ValueCounts(rows: seq<Row>): (ranked: seq<string>)
    ensures Distinct(ranked) && SortedByCount(ranked, CountsIn(rows))
    ensures forall c :: c in ranked ==> c in ComplaintTypes(rows)
    ensures forall c :: c in ComplaintTypes(rows) ==> c in ranked
  {
    RankByCount(ComplaintTypes(rows), CountsIn(rows))
  }

  /** Python's `s[:n]`, which `head(n)` is: negative `n` drops the last `-n` entries, `None` keeps all. */
  function Head<T>(s: seq<T>, n: Option<int>): (r: seq<T>)
    ensures |r| <= |s| && r == s[..|r|]
  {
    match n
    case None => s
    case Some(k) =>
      if k >= 0 then s[..if k < |s| then k else |s|]
      else s[..if |s| + k > 0 then |s| + k else 0]
  }

  /**
   * The complaint types stage 7 keeps: with `minCount` given, every type seen
   * at least that often (whatever `nTop` says); otherwise the first `nTop`
   * of the ranking.
   */
  function KeptTypes(rows: seq<Row>, nTop: Option<int>, minCount: Option<int>): (kept: seq<string>)
    ensures forall c :: c in kept ==> c in ValueCounts(rows)
  {
    var ranked := ValueCounts(rows);
    match minCount
    case Some(m) => Filter(ranked, (c: string) => TypeCount(rows, c) >= m)
    case None => Head(ranked, nTop)
  }

  /** A type is seen in the frame exactly when it is counted at least once. */
  lemma ComplaintTypesCounted(rows: seq<Row>, c: string)
    ensures c in ComplaintTypes(rows) ==> TypeCount(rows, c) > 0
    ensures TypeCount(rows, c) > 0 ==> c in ComplaintTypes(rows)
  {
    var f := Filter(rows, (row: Row) => HasComplaintType(row, c));
    if c in ComplaintTypes(rows) {
      var i :| 0 <= i < |rows| && HasComplaintType(rows[i], c);
      assert rows[i] in f;
    }
    if TypeCount(rows, c) > 0 {
      assert f[0] in f;
    }
  }

  /**
   * With a minimum count, the kept types are exactly the types seen at least
   * `m` times, and `nTop` plays no part.
   */
  lemma KeptTypesWithMinCount(rows: seq<Row>, nTop: Option<int>, m: int)
    ensures forall c :: c in KeptTypes(rows, nTop, Some(m)) ==>
      c in ComplaintTypes(rows) && TypeCount(rows, c) >= m
    ensures forall c :: c in ComplaintTypes(rows) && TypeCount(rows, c) >= m ==>
      c in KeptTypes(rows, nTop, Some(m))
    ensures KeptTypes(rows, nTop, Some(m)) == KeptTypes(rows, None, Some(m))
  {
    var ranked := ValueCounts(rows);
    forall c | c in ComplaintTypes(rows) && TypeCount(rows, c) >= m
      ensures c in KeptTypes(rows, nTop, Some(m))
    {
      FilterKeeps(ranked, (c: string) => TypeCount(rows, c) >= m, c);
    }
  }

  /**
   * Without a minimum count, the kept types are the first `nTop` of the
   * ranking: distinct, at most `nTop` of them (all of them when `nTop` is
   * null, all but the last `-nTop` when it is negative), and no dropped type
   * is more frequent than a kept one.
   */
  lemma KeptTypesTopN(rows: seq<Row>, nTop: Option<int>)
    ensures var kept, types := KeptTypes(rows, nTop, None), ComplaintTypes(rows);
      && Distinct(kept)
      && (forall c :: c in kept ==> c in types)
      && (nTop.None? ==> |kept| == |types|)
      && (nTop.Some? && nTop.value >= 0 ==>
            |kept| == (if nTop.value < |types| then nTop.value else |types|))
      && (nTop.Some? && nTop.value < 0 ==>
            |kept| == (if |types| + nTop.value > 0 then |types| + nTop.value else 0))
    ensures var kept, types := KeptTypes(rows, nTop, None), ComplaintTypes(rows);
      forall c, d :: c in kept && d in types && d !in kept ==> TypeCount(rows, d) <= TypeCount(rows, c)
  {
    var ranked := ValueCounts(rows);
    var kept := KeptTypes(rows, nTop, None);
    assert kept == ranked[..|kept|];
    PrefixOfRanking(ranked, |kept|, CountsIn(rows));
  }

  /** A prefix of a ranking is distinct and at least as frequent as anything left out. */
  lemma PrefixOfRanking(ranked: seq<string>, n: nat, count: string -> nat)
    requires n <= |ranked| && Distinct(ranked) && SortedByCount(ranked, count)
    ensures Distinct(ranked[..n])
    ensures forall c, d :: c in ranked[..n] && d in ranked && d !in ranked[..n] ==> count(d) <= count(c)
  {
    var kept := ranked[..n];
    forall i, j | 0 <= i < j < n
      ensures kept[i] != kept[j]
    {
      assert kept[i] == ranked[i] && kept[j] == ranked[j];
    }
    forall c, d | c in kept && d in ranked && d !in kept
      ensures count(d) <= count(c)
    {
      var i :| 0 <= i < n && kept[i] == c;
      var j :| 0 <= j < |ranked| && ranked[j] == d;
      assert forall k :: 0 <= k < n ==> kept[k] == ranked[k] && kept[k] in kept;
      assert n <= j;
      assert ranked[i] == c;
    }
  }

  /** The row filter of stage 7: a row survives when its type is one of the kept ones. */
  predicate HasKeptType(row: Row, kept: seq<string>) {
    row.complaintType.Some? && row.complaintType.value in kept
  }

  /**
   * Stage 7: the order-preserving subsequence of exactly the rows whose
   * complaint type is kept. A row with a null type is always dropped, since
   * `value_counts` leaves nulls out.
   */
  function SelectTopComplaintTypes(t: Table, nTop: Option<int> := Some(10), minCount: Option<int> := None): (r: Table)
    ensures r.hasResponseTime == t.hasResponseTime
    ensures IsSubsequence(r.rows, t.rows)
    ensures forall row :: row in r.rows ==> row in t.rows && HasKeptType(row, KeptTypes(t.rows, nTop, minCount))
    ensures forall i :: 0 <= i < |t.rows| && HasKeptType(t.rows[i], KeptTypes(t.rows, nTop, minCount)) ==>
      t.rows[i] in r.rows
    ensures forall row ::
      multiset(r.rows)[row] == (if HasKeptType(row, KeptTypes(t.rows, nTop, minCount)) then multiset(t.rows)[row] else 0)
  {
    var kept := KeptTypes(t.rows, nTop, minCount);
    FilterMultiplicity(t.rows, (row: Row) => HasKeptType(row, kept));
    Table(Filter(t.rows, (row: Row) => HasKeptType(row, kept)), t.hasResponseTime)
  }

  // ---------------------------------------------------------------------------
  // Driver: clean_nyc311_data

  /** Steps 1 to 5, which always run, with the default toggles and key. */
  function CleanThroughDeduplication(raw: seq<RawRow>, parse: string -> Option<Timestamp>): Table {
    var dated := ConvertDatesToDatetime(raw, parse);
    var timed := ComputeResponseTime(dated);
    var valid := FilterInvalidRows(timed);
    var standard := StandardizeChannelType(valid);
    RemoveDuplicates(standard, UniqueKey)
  }

  /**
   * The whole pipeline: steps 1 to 6 unconditionally and in order, then step
   * 7 only when a top-N count or a minimum count is given; otherwise the
   * frame after step 6 is the result. Step 6 always finds the
   * `response_time_days` column, so the pipeline raises exactly when the
   * percentile lies outside 0..100.
   */
  function CleanNyc311Data(raw: seq<RawRow>, parse: string -> Option<Timestamp>,
                           quantile: (seq<real>, real) -> real, winsorizePercentile: real := 99.0,
                           topComplaintTypes: Option<int> := None,
                           minComplaintCount: Option<int> := None): (r: Result<Table, CleanError>)
    ensures r.Err? <==> winsorizePercentile < 0.0 || winsorizePercentile > 100.0
    ensures var stage6 := WinsorizeResponseTime(CleanThroughDeduplication(raw, parse), quantile, winsorizePercentile);
      r.Ok? ==>
        && stage6.Ok?
        && (topComplaintTypes.None? && minComplaintCount.None? ==> r.value == stage6.value.table)
        && (topComplaintTypes.Some? || minComplaintCount.Some? ==>
              && r.value == SelectTopComplaintTypes(stage6.value.table, topComplaintTypes, minComplaintCount)
              && IsSubsequence(r.value.rows, stage6.value.table.rows))
  {
    var unique := CleanThroughDeduplication(raw, parse);
    match WinsorizeResponseTime(unique, quantile, winsorizePercentile)
    case Err(e) => Err(e)
    case Ok(stage6) =>
      var capped := stage6.table;
      if topComplaintTypes.Some? || minComplaintCount.Some? then
        Ok(SelectTopComplaintTypes(capped, topComplaintTypes, minComplaintCount))
      else Ok(capped)
  }

  /**
   * What a row satisfies once it has passed steps 1 to 5: both dates, closing
   * strictly after creation, a borough, a standard channel, and the response
   * time its dates give.
   */
  predicate IsValidStandardRow(row: Row) {
    && row.createdDate.Some? && row.closedDate.Some?
    && row.closedDate.value > row.createdDate.value
    && row.borough.Some?
    && row.channel.Some? && row.channel.value in STANDARD_CHANNELS
    && row.responseTimeDays == ResponseDays(row.createdDate, row.closedDate)
  }

  /** After stages 2 and 3 every row's response time is the one its own dates give. */
  lemma ValidRowsTimed(t: Table)
    ensures forall row :: row in FilterInvalidRows(ComputeResponseTime(t), true, true, true).rows ==>
      row.responseTimeDays == ResponseDays(row.createdDate, row.closedDate)
  {
    var timed := ComputeResponseTime(t);
    forall row | row in FilterInvalidRows(timed, true, true, true).rows
      ensures row.responseTimeDays == ResponseDays(row.createdDate, row.closedDate)
    {
      var k :| 0 <= k < |timed.rows| && timed.rows[k] == row;
    }
  }

  /** Stage 4 keeps the dates, borough and response time, and makes every channel standard. */
  lemma StandardizedRowsValid(t: Table)
    requires forall row :: row in t.rows ==>
      && row.createdDate.Some? && row.closedDate.Some? && row.borough.Some?
      && row.closedDate.value > row.createdDate.value
      && row.responseTimeDays == ResponseDays(row.createdDate, row.closedDate)
    ensures forall row :: row in StandardizeChannelType(t).rows ==> IsValidStandardRow(row)
  {
    var standard := StandardizeChannelType(t);
    forall j | 0 <= j < |standard.rows|
      ensures IsValidStandardRow(standard.rows[j])
    {
      assert t.rows[j] in t.rows;
    }
  }

  /** Stage 5 only drops rows, so rows valid and standard stay so. */
  lemma DeduplicatedRowsValid(t: Table)
    requires forall row :: row in t.rows ==> IsValidStandardRow(row)
    ensures forall row :: row in RemoveDuplicates(t, UniqueKey).rows ==> IsValidStandardRow(row)
  {
    forall row | row in RemoveDuplicates(t, UniqueKey).rows
      ensures IsValidStandardRow(row)
    {
      var j :| 0 <= j < |t.rows| && t.rows[j] == row;
    }
  }

  /** After step 5 every row is valid and standard, and no two rows share a `unique_key`. */
  lemma CleanThroughDeduplicationInvariants(raw: seq<RawRow>, parse: string -> Option<Timestamp>)
    ensures var unique := CleanThroughDeduplication(raw, parse);
      && unique.hasResponseTime
      && Distinct(Column(unique.rows, UniqueKey))
      && forall row :: row in unique.rows ==> IsValidStandardRow(row)
  {
    var dated := ConvertDatesToDatetime(raw, parse);
    var valid := FilterInvalidRows(ComputeResponseTime(dated), true, true, true);
    var standard := StandardizeChannelType(valid);
    var unique := RemoveDuplicates(standard, UniqueKey);
    ValidRowsClosedAfterCreated(dated);
    ValidRowsTimed(dated);
    StandardizedRowsValid(valid);
    DeduplicatedRowsValid(standard);
  }

  /**
   * What a row of the cleaned frame satisfies: valid and standard as after
   * step 5, except that its response time is clipped at the threshold.
   */
  predicate IsCleanRow(row: Row, threshold: real) {
    && row.createdDate.Some? && row.closedDate.Some?
    && row.closedDate.value > row.createdDate.value
    && row.borough.Some?
    && row.channel.Some? && row.channel.value in STANDARD_CHANNELS
    && row.responseTimeDays.Some? && row.responseTimeDays.value <= threshold
    && row.responseTimeDays == ClipCell(ResponseDays(row.createdDate, row.closedDate), threshold)
  }

  /** Clipping a frame of valid, standard rows yields clean rows with the same keys. */
  lemma CapResponseTimeClean(unique: Table, threshold: real)
    requires forall row :: row in unique.rows ==> IsValidStandardRow(row)
    ensures forall row :: row in CapResponseTime(unique, threshold).rows ==> IsCleanRow(row, threshold)
    ensures Column(CapResponseTime(unique, threshold).rows, UniqueKey) == Column(unique.rows, UniqueKey)
  {
    var capped := CapResponseTime(unique, threshold);
    forall i | 0 <= i < |capped.rows|
      ensures IsCleanRow(capped.rows[i], threshold)
    {
      assert unique.rows[i] in unique.rows;
    }
  }

  /**
   * Every row of the cleaned frame is clean at the threshold step 6 chose,
   * and no two rows share a `unique_key`.
   */
  lemma CleanNyc311DataInvariants(raw: seq<RawRow>, parse: string -> Option<Timestamp>,
                                  quantile: (seq<real>, real) -> real, winsorizePercentile: real,
                                  topComplaintTypes: Option<int>, minComplaintCount: Option<int>)
    ensures var r := CleanNyc311Data(raw, parse, quantile, winsorizePercentile,
                                     topComplaintTypes, minComplaintCount);
      var threshold := quantile(ResponseTimes(CleanThroughDeduplication(raw, parse).rows),
                                winsorizePercentile / 100.0);
      r.Ok? ==>
      && Distinct(Column(r.value.rows, UniqueKey))
      && forall row :: row in r.value.rows ==> IsCleanRow(row, threshold)
  {
    var unique := CleanThroughDeduplication(raw, parse);
    CleanThroughDeduplicationInvariants(raw, parse);
    var threshold := quantile(ResponseTimes(unique.rows), winsorizePercentile / 100.0);
    var capped := CapResponseTime(unique, threshold);
    CapResponseTimeClean(unique, threshold);
    if topComplaintTypes.Some? || minComplaintCount.Some? {
      var kept := KeptTypes(capped.rows, topComplaintTypes, minComplaintCount);
      SelectDistinct(capped.rows, Column(capped.rows, (row: Row) => HasKeptType(row, kept)), UniqueKey);
    }
  }
}
