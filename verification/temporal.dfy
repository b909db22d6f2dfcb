/** The four derived time columns both scripts write onto the event table:
    `days_since_first_ts`, `all_time_days_passed`, `month_per_patient` and
    `all_time_months_passed` (dataframes.py lines 25-42, resources.py lines
    14-28). Durations are in seconds. */
module Temporal {
  import opened Collections
  import opened Events

  /** An event row with its derived columns. */
  datatype Row = Row(
    event: Event,
    daysSinceFirstTs: int,
    allTimeDaysPassed: int,
    monthPerPatient: int,
    allTimeMonthsPassed: int)

  // Column accessors, as the aggregations name them.

  function RowTimestamp(r: Row): int {
    r.event.timestamp
  }

  function RowMonth(r: Row): int {
    r.allTimeMonthsPassed
  }

  function RowMonthPerPatient(r: Row): int {
    r.monthPerPatient
  }

  function RowAge(r: Row): real {
    r.event.age as real
  }

  function RowPatient(r: Row): int {
    r.event.patientId
  }

  function Timestamp(e: Event): int {
    e.timestamp
  }

  function OfPatient(p: int): Event -> bool {
    (e: Event) => e.patientId == p
  }

  ghost predicate HasPatient(es: seq<Event>, p: int) {
    exists e :: e in es && e.patientId == p
  }

  /** The earliest timestamp of patient `p`: `groupby("patient.id")` then
      `df["event.timestamp"].min()` inside the applied lambda. */
  function PatientStart(es: seq<Event>, p: int): (start: int)
    requires HasPatient(es, p)
    ensures forall e :: e in es && e.patientId == p ==> start <= e.timestamp
    ensures exists e :: e in es && e.patientId == p && e.timestamp == start
  {
    var g := Filter(es, OfPatient(p));
    assert |g| > 0 by {
      var e :| e in es && e.patientId == p;
      assert e in g;
    }
    var start := MinOf(g, Timestamp);
    assert forall e :: e in es && e.patientId == p ==> start <= e.timestamp by {
      forall e | e in es && e.patientId == p ensures start <= e.timestamp {
        assert e in g;
        var i :| 0 <= i < |g| && g[i] == e;
      }
    }
    var i :| 0 <= i < |g| && start == Timestamp(g[i]);
    assert g[i] in g;
    start
  }

  /** The earliest timestamp of the whole table. */
  function DatasetStart(es: seq<Event>): (start: int)
    requires |es| > 0
    ensures forall e :: e in es ==> start <= e.timestamp
    ensures exists e :: e in es && e.timestamp == start
  {
    var start := MinOf(es, Timestamp);
    assert forall e :: e in es ==> start <= e.timestamp by {
      forall e | e in es ensures start <= e.timestamp {
        var i :| 0 <= i < |es| && es[i] == e;
      }
    }
    var i :| 0 <= i < |es| && start == Timestamp(es[i]);
    assert es[i] in es;
    start
  }

  /** The derived columns of event `e` of table `es`. */
  function TemporalRow(es: seq<Event>, e: Event): Row
    requires e in es
  {
    var days := e.timestamp - PatientStart(es, e.patientId);  // lines 25-30
    var allDays := e.timestamp - DatasetStart(es);          // lines 32-34
    Row(e, days, allDays, MonthsIn(days), MonthsIn(allDays))  // lines 36-42
  }

  /** The table with the four columns written onto every row; the rows keep
      their events and their order. */
  function WithTemporalColumns(es: seq<Event>): (rows: seq<Row>)
    ensures |rows| == |es|
    ensures forall i :: 0 <= i < |es| ==> rows[i].event == es[i]
  {
    seq(|es|, i requires 0 <= i < |es| => TemporalRow(es, es[i]))
  }

  /** Every row of `t` is a row of `es` with its derived columns: this holds
      of the derived table and of every reordering or filtering of it. */
  ghost predicate DerivedFrom(es: seq<Event>, t: seq<Row>) {
    forall r :: r in t ==> r.event in es && r == TemporalRow(es, r.event)
  }

  /** Every event of `es` has its derived row in `t`. */
  ghost predicate CoversEvents(es: seq<Event>, t: seq<Row>) {
    forall e :: e in es ==> TemporalRow(es, e) in t
  }

  /** The derived table, and every reordering of it, holds exactly the
      derived rows of the events. */
  lemma ReorderedTemporalColumns(es: seq<Event>, t: seq<Row>)
    requires multiset(t) == multiset(WithTemporalColumns(es))
    ensures DerivedFrom(es, t) && CoversEvents(es, t)
  {
    var rows := WithTemporalColumns(es);
    forall r | r in t ensures r.event in es && r == TemporalRow(es, r.event) {
      assert r in multiset(rows);
      var i :| 0 <= i < |rows| && rows[i] == r;
    }
    forall e | e in es ensures TemporalRow(es, e) in t {
      var i :| 0 <= i < |es| && es[i] == e;
      assert rows[i] in multiset(rows);
    }
  }

  // ---------------------------------------------------------------------------
  // Properties of the derived columns
  // ---------------------------------------------------------------------------

  /** Both elapsed times are non-negative, and a patient's clock never runs
      ahead of the dataset's clock, in seconds or in months. */
  lemma TemporalRowBounds(es: seq<Event>, e: Event)
    requires e in es
    ensures 0 <= TemporalRow(es, e).daysSinceFirstTs <= TemporalRow(es, e).allTimeDaysPassed
    ensures 0 <= TemporalRow(es, e).monthPerPatient <= TemporalRow(es, e).allTimeMonthsPassed
  {
    var r := TemporalRow(es, e);
    var f :| f in es && f.patientId == e.patientId && f.timestamp == PatientStart(es, e.patientId);
    assert DatasetStart(es) <= f.timestamp;
    MonthsInMonotone(r.daysSinceFirstTs, r.allTimeDaysPassed);
  }

  /** `days_since_first_ts` is zero exactly on the rows that carry their
      patient's earliest timestamp, and `month_per_patient` is zero there. */
  lemma PatientStartRows(es: seq<Event>, e: Event)
    requires e in es
    ensures TemporalRow(es, e).daysSinceFirstTs == 0 <==>
              forall f :: f in es && f.patientId == e.patientId ==> e.timestamp <= f.timestamp
    ensures TemporalRow(es, e).daysSinceFirstTs == 0 ==> TemporalRow(es, e).monthPerPatient == 0
  {
    var f :| f in es && f.patientId == e.patientId && f.timestamp == PatientStart(es, e.patientId);
  }

  /** Every patient has a row whose patient-relative month is 0, and the
      table has a row whose dataset-relative month is 0. */
  lemma MonthsStartAtZero(es: seq<Event>, e: Event)
    requires e in es
    ensures exists f :: f in es && f.patientId == e.patientId && TemporalRow(es, f).monthPerPatient == 0
    ensures exists f :: f in es && TemporalRow(es, f).allTimeMonthsPassed == 0
  {
    var f :| f in es && f.patientId == e.patientId && f.timestamp == PatientStart(es, e.patientId);
    assert TemporalRow(es, f).monthPerPatient == 0;
    var g :| g in es && g.timestamp == DatasetStart(es);
    assert TemporalRow(es, g).allTimeMonthsPassed == 0;
  }

  /** A later event is never in an earlier month: dataset-relative months
      grow with the timestamp, and so do patient-relative months within one
      patient. */
  lemma TemporalRowMonotone(es: seq<Event>, e: Event, f: Event)
    requires e in es && f in es
    requires e.timestamp <= f.timestamp
    ensures TemporalRow(es, e).allTimeMonthsPassed <= TemporalRow(es, f).allTimeMonthsPassed
    ensures e.patientId == f.patientId ==>
              TemporalRow(es, e).monthPerPatient <= TemporalRow(es, f).monthPerPatient
  {
    TemporalRowBounds(es, e);
    MonthsInMonotone(TemporalRow(es, e).allTimeDaysPassed, TemporalRow(es, f).allTimeDaysPassed);
    if e.patientId == f.patientId {
      MonthsInMonotone(TemporalRow(es, e).daysSinceFirstTs, TemporalRow(es, f).daysSinceFirstTs);
    }
  }

  /** Dropping rows never moves the table's start earlier: measured against a
      table that still holds rows another table dropped, every kept event is
      at least as many months from the start. */
  lemma MoreRowsEarlierStart(es: seq<Event>, kept: seq<Event>, e: Event)
    requires e in kept
    requires forall f :: f in kept ==> f in es
    ensures TemporalRow(kept, e).allTimeMonthsPassed <= TemporalRow(es, e).allTimeMonthsPassed
    ensures TemporalRow(kept, e).monthPerPatient <= TemporalRow(es, e).monthPerPatient
  {
    var k :| k in kept && k.timestamp == DatasetStart(kept);
    var p :| p in kept && p.patientId == e.patientId && p.timestamp == PatientStart(kept, e.patientId);
    TemporalRowBounds(kept, e);
    MonthsInMonotone(TemporalRow(kept, e).allTimeDaysPassed, TemporalRow(es, e).allTimeDaysPassed);
    MonthsInMonotone(TemporalRow(kept, e).daysSinceFirstTs, TemporalRow(es, e).daysSinceFirstTs);
  }
}
