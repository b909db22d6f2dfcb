/** The dashboard's main script: the cleaned event table with its time
    columns, `months_agg` keyed by (month, division) and `patient_agg` keyed
    by patient (dataframes.py). */
module Dataframes {
  import opened Collections
  import opened Events
  import opened Temporal

  // ---------------------------------------------------------------------------
  // Cleaning (lines 16-22)
  // ---------------------------------------------------------------------------

  predicate IsSentinel(d: string) {
    d == NoCancerDiagnosed || d == UnspecifiedTumor
  }

  function NotDiagnosed(d: string): Event -> bool {
    (e: Event) => e.diagnosis != d
  }

  /** The two boolean-mask filters, one per sentinel diagnosis. */
  function Clean(es: seq<Event>): (r: seq<Event>)
    ensures forall e :: e in r <==> e in es && !IsSentinel(e.diagnosis)
  {
    Filter(Filter(es, NotDiagnosed(NoCancerDiagnosed)), NotDiagnosed(UnspecifiedTumor))
  }

  /** Cleaning drops exactly the sentinel rows and keeps the others in their
      original relative order: it distributes over concatenation, and on a
      single row it keeps or drops that row. */
  lemma CleanKeepsOrder(a: seq<Event>, b: seq<Event>)
    ensures Clean(a + b) == Clean(a) + Clean(b)
  {
    FilterAppend(a, b, NotDiagnosed(NoCancerDiagnosed));
    FilterAppend(Filter(a, NotDiagnosed(NoCancerDiagnosed)), Filter(b, NotDiagnosed(NoCancerDiagnosed)),
                 NotDiagnosed(UnspecifiedTumor));
  }

  lemma CleanOneRow(e: Event)
    ensures Clean([e]) == if IsSentinel(e.diagnosis) then [] else [e]
  {
    assert [e][1..] == [];
  }

  /** Cleaning a reordering of a table gives a reordering of the cleaned table. */
  lemma CleanPermutation(a: seq<Event>, b: seq<Event>)
    requires multiset(a) == multiset(b)
    ensures multiset(Clean(a)) == multiset(Clean(b))
  {
    FilterPermutation(a, b, NotDiagnosed(NoCancerDiagnosed));
    FilterPermutation(Filter(a, NotDiagnosed(NoCancerDiagnosed)), Filter(b, NotDiagnosed(NoCancerDiagnosed)),
                      NotDiagnosed(UnspecifiedTumor));
  }

  // ---------------------------------------------------------------------------
  // Re-sort on the dataset month (line 44)
  // ---------------------------------------------------------------------------

  function MonthLe(a: Row, b: Row): bool {
    a.allTimeMonthsPassed <= b.allTimeMonthsPassed
  }

  /** `sort_values(["all_time_months_passed"])` is a single-column sort with
      the default, non-stable algorithm: any reordering sorted by month is a
      possible result, and the order inside one month is unspecified. */
  ghost predicate IsMonthResort(before: seq<Row>, after: seq<Row>) {
    multiset(after) == multiset(before) && SortedBy(after, MonthLe)
  }

  /** One admissible result of the re-sort: the stable one. */
  function ResortByMonth(rows: seq<Row>): (r: seq<Row>)
    ensures IsMonthResort(rows, r)
  {
    assert TotalPreorder(MonthLe);
    InsertionSort(rows, MonthLe)
  }

  // ---------------------------------------------------------------------------
  // months_agg (lines 47-60)
  // ---------------------------------------------------------------------------

  /** One row of `months_agg`: the group key (the index) and the columns. */
  datatype MonthsAggRow = MonthsAggRow(
    month: int,
    division: string,
    activitiesCount: nat,
    averageAge: real,
    firstTs: int,
    lastTs: int,
    monthsPassed: int,
    divisionName: string)

  function MonthDivision(r: Row): (int, string) {
    (r.allTimeMonthsPassed, r.event.division)
  }

  function BucketKey(a: MonthsAggRow): (int, string) {
    (a.month, a.division)
  }

  function ActivitiesCount(a: MonthsAggRow): int {
    a.activitiesCount
  }

  /** The named aggregations of one (month, division) bucket. */
  function AggregateBucket(t: seq<Row>, k: (int, string)): MonthsAggRow
    requires Occurs(t, MonthDivision, k)
  {
    var g := Group(t, MonthDivision, k);
    MonthsAggRow(
      k.0, k.1,
      |g|,                          // activities_count: "count"
      Mean(g, RowAge),              // average_age: "mean"
      MinOf(g, RowTimestamp),       // first_ts: "min"
      MaxOf(g, RowTimestamp),       // last_ts: "max"
      MaxOf(g, RowMonth),           // months_passed: "max"
      g[0].event.division)          // division_name: "first"
  }

  function AggregateBuckets(t: seq<Row>, ks: seq<(int, string)>): (aggs: seq<MonthsAggRow>)
    requires forall k :: k in ks ==> Occurs(t, MonthDivision, k)
    ensures |aggs| == |ks|
    ensures forall i :: 0 <= i < |ks| ==> aggs[i] == AggregateBucket(t, ks[i])
  {
    if ks == [] then [] else [AggregateBucket(t, ks[0])] + AggregateBuckets(t, ks[1..])
  }

  function MonthCountLe(a: MonthsAggRow, b: MonthsAggRow): bool {
    a.month < b.month || (a.month == b.month && a.activitiesCount <= b.activitiesCount)
  }

  /** The buckets in `groupby` order, i.e. ascending (month, division). */
  function MonthBuckets(t: seq<Row>): seq<MonthsAggRow> {
    IntTextOrder();
    AggregateBuckets(t, SortedKeys(t, MonthDivision, IntTextLess))
  }

  /** `months_agg`: one row per bucket, then the (stable, multi-column) sort
      on month and count. */
  function MonthsAgg(t: seq<Row>): (agg: seq<MonthsAggRow>)
    ensures forall i, j :: 0 <= i < j < |agg| ==>
              agg[i].month < agg[j].month ||
              (agg[i].month == agg[j].month && agg[i].activitiesCount <= agg[j].activitiesCount)
  {
    assert TotalPreorder(MonthCountLe);
    InsertionSort(MonthBuckets(t), MonthCountLe)
  }

  lemma MonthsAggFromBuckets(t: seq<Row>, a: MonthsAggRow)
    requires a in MonthsAgg(t)
    ensures Occurs(t, MonthDivision, BucketKey(a))
    ensures a == AggregateBucket(t, BucketKey(a))
  {
    IntTextOrder();
    assert TotalPreorder(MonthCountLe);
    var ks := SortedKeys(t, MonthDivision, IntTextLess);
    assert a in multiset(MonthsAgg(t));
    var i :| 0 <= i < |MonthBuckets(t)| && MonthBuckets(t)[i] == a;
    assert ks[i] in ks;
  }

  /** Every row of `months_agg` describes its own bucket: the month and
      division columns repeat the key, the count is the bucket's size and
      is positive, and `first_ts` <= `last_ts`. */
  lemma MonthsAggRows(t: seq<Row>)
    ensures forall a :: a in MonthsAgg(t) ==>
              && a.monthsPassed == a.month
              && a.divisionName == a.division
              && a.activitiesCount == |Group(t, MonthDivision, BucketKey(a))|
              && a.activitiesCount >= 1
              && a.firstTs <= a.lastTs
  {
    forall a | a in MonthsAgg(t)
      ensures && a.monthsPassed == a.month
              && a.divisionName == a.division
              && a.activitiesCount == |Group(t, MonthDivision, BucketKey(a))|
              && a.activitiesCount >= 1
              && a.firstTs <= a.lastTs
    {
      MonthsAggFromBuckets(t, a);
      var g := Group(t, MonthDivision, BucketKey(a));
      assert g[0] in g;
      var i :| 0 <= i < |g| && a.monthsPassed == RowMonth(g[i]);
      assert g[i] in g;
    }
  }

  lemma MonthCountTotal()
    ensures TotalPreorder(MonthCountLe)
  {
  }

  lemma BucketInBuckets(t: seq<Row>, k: (int, string))
    requires Occurs(t, MonthDivision, k)
    ensures AggregateBucket(t, k) in MonthBuckets(t)
  {
    IntTextOrder();
    var ks := SortedKeys(t, MonthDivision, IntTextLess);
    var i :| 0 <= i < |ks| && ks[i] == k;
    assert MonthBuckets(t)[i] == AggregateBucket(t, k);
  }

  /** The row of every bucket that occurs is in `months_agg`. */
  lemma BucketInMonthsAgg(t: seq<Row>, k: (int, string))
    requires Occurs(t, MonthDivision, k)
    ensures AggregateBucket(t, k) in MonthsAgg(t)
  {
    BucketInBuckets(t, k);
    assert AggregateBucket(t, k) in multiset(MonthsAgg(t));
  }

  /** `months_agg` has exactly one row per (month, division) pair that
      occurs in the table. */
  lemma MonthsAggKeys(t: seq<Row>)
    ensures forall k :: Occurs(t, MonthDivision, k) <==> exists a :: a in MonthsAgg(t) && BucketKey(a) == k
  {
    forall k | Occurs(t, MonthDivision, k) ensures exists a :: a in MonthsAgg(t) && BucketKey(a) == k {
      BucketInMonthsAgg(t, k);
    }
    forall k | exists a :: a in MonthsAgg(t) && BucketKey(a) == k ensures Occurs(t, MonthDivision, k) {
      var a :| a in MonthsAgg(t) && BucketKey(a) == k;
      MonthsAggFromBuckets(t, a);
    }
  }

  lemma MonthsAggKeysUnique(t: seq<Row>)
    ensures DistinctBy(MonthsAgg(t), BucketKey)
  {
    IntTextOrder();
    MonthCountTotal();
    var ks := SortedKeys(t, MonthDivision, IntTextLess);
    var buckets := AggregateBuckets(t, ks);
    StrictlySortedDistinct(ks, IntTextLess);
    assert DistinctBy(buckets, BucketKey);
    SortKeepsDistinct(buckets, MonthCountLe, BucketKey);
  }

  /** Counting conservation: the bucket counts add up to the number of rows. */
  lemma MonthsAggCountsSum(t: seq<Row>)
    ensures SumOf(MonthsAgg(t), ActivitiesCount) == |t|
  {
    IntTextOrder();
    assert TotalPreorder(MonthCountLe);
    var ks := SortedKeys(t, MonthDivision, IntTextLess);
    SortKeepsSum(MonthBuckets(t), MonthCountLe, ActivitiesCount);
    BucketCounts(t, ks);
    StrictlySortedDistinct(ks, IntTextLess);
    forall r | r in t ensures MonthDivision(r) in ks {
      var i :| 0 <= i < |t| && t[i] == r;
    }
    GroupSizesTotal(t, MonthDivision, ks);
  }

  lemma {:induction false} BucketCounts(t: seq<Row>, ks: seq<(int, string)>)
    requires forall k :: k in ks ==> Occurs(t, MonthDivision, k)
    ensures SumOf(AggregateBuckets(t, ks), ActivitiesCount) == GroupSizes(t, MonthDivision, ks)
  {
    if ks != [] {
      BucketCounts(t, ks[1..]);
      assert AggregateBuckets(t, ks)[1..] == AggregateBuckets(t, ks[1..]);
    }
  }

  // ---------------------------------------------------------------------------
  // patient_agg (lines 63-82)
  // ---------------------------------------------------------------------------

  /** One row of `patient_agg` with its two computed columns. */
  datatype PatientAggRow = PatientAggRow(
    patientId: int,
    eventCount: nat,
    firstTs: int,
    lastTs: int,
    age: real,
    cancerType: string,
    startMonth: int,
    endMonth: int,
    treatmentTime: int,
    treatmentTimeMonths: int)

  function PatientOf(a: PatientAggRow): int {
    a.patientId
  }

  /** The named aggregations of one patient (lines 65-73), with
      `treatment_time` and `treatment_time_months` (lines 75-78). "first"
      and "last" are the first and last rows in the table's current order. */
  function AggregatePatient(t: seq<Row>, p: int): PatientAggRow
    requires Occurs(t, RowPatient, p)
  {
    var g := Group(t, RowPatient, p);
    var first := g[0].event.timestamp;
    var last := g[|g| - 1].event.timestamp;
    var start := MinOf(g, RowMonthPerPatient);
    var end := MaxOf(g, RowMonthPerPatient);
    PatientAggRow(p, |g|, first, last, Mean(g, RowAge), g[|g| - 1].event.diagnosis,
                  start, end, last - first, end - start)
  }

  function AggregatePatients(t: seq<Row>, ps: seq<int>): (aggs: seq<PatientAggRow>)
    requires forall p :: p in ps ==> Occurs(t, RowPatient, p)
    ensures |aggs| == |ps|
    ensures forall i :: 0 <= i < |ps| ==> aggs[i] == AggregatePatient(t, ps[i])
  {
    if ps == [] then [] else [AggregatePatient(t, ps[0])] + AggregatePatients(t, ps[1..])
  }

  /** The patients in `groupby` order, ascending id. */
  function PatientGroups(t: seq<Row>): seq<PatientAggRow> {
    IntOrder();
    AggregatePatients(t, SortedKeys(t, RowPatient, IntLess))
  }

  function HasTreatmentTime(a: PatientAggRow): bool {
    a.treatmentTime != 0
  }

  function TreatmentMonthsLe(a: PatientAggRow, b: PatientAggRow): bool {
    a.treatmentTimeMonths <= b.treatmentTimeMonths
  }

  function NotCancerType(d: string): PatientAggRow -> bool {
    (a: PatientAggRow) => a.cancerType != d
  }

  /** Lines 80-81: zero-duration patients dropped, then the single-column
      sort on `treatment_time_months` (its stable outcome; pandas may order
      equal months differently). */
  function PatientAggSorted(t: seq<Row>): (agg: seq<PatientAggRow>)
    ensures SortedBy(agg, TreatmentMonthsLe)
  {
    assert TotalPreorder(TreatmentMonthsLe);
    InsertionSort(Filter(PatientGroups(t), HasTreatmentTime), TreatmentMonthsLe)
  }

  /** `patient_agg` after the `cancer_type` filter of line 82. */
  function PatientAgg(t: seq<Row>): (agg: seq<PatientAggRow>)
    ensures forall i, j :: 0 <= i < j < |agg| ==> agg[i].treatmentTimeMonths <= agg[j].treatmentTimeMonths
  {
    FilterKeepsSorted(PatientAggSorted(t), NotCancerType(UnspecifiedTumor), TreatmentMonthsLe);
    Filter(PatientAggSorted(t), NotCancerType(UnspecifiedTumor))
  }

  lemma TreatmentMonthsTotal()
    ensures TotalPreorder(TreatmentMonthsLe)
  {
  }

  lemma PatientAggFromGroups(t: seq<Row>, a: PatientAggRow)
    requires a in PatientAggSorted(t)
    ensures Occurs(t, RowPatient, a.patientId)
    ensures a == AggregatePatient(t, a.patientId)
    ensures a.treatmentTime != 0
  {
    IntOrder();
    TreatmentMonthsTotal();
    var ps := SortedKeys(t, RowPatient, IntLess);
    var groups := AggregatePatients(t, ps);
    assert a in multiset(InsertionSort(Filter(groups, HasTreatmentTime), TreatmentMonthsLe));
    assert a in Filter(groups, HasTreatmentTime);
    var i :| 0 <= i < |groups| && groups[i] == a;
    assert ps[i] in ps;
  }

  lemma PatientInGroups(t: seq<Row>, p: int)
    requires Occurs(t, RowPatient, p)
    ensures AggregatePatient(t, p) in PatientGroups(t)
  {
    IntOrder();
    var ps := SortedKeys(t, RowPatient, IntLess);
    var i :| 0 <= i < |ps| && ps[i] == p;
    assert PatientGroups(t)[i] == AggregatePatient(t, p);
  }

  lemma PatientInAgg(t: seq<Row>, p: int)
    requires Occurs(t, RowPatient, p)
    requires AggregatePatient(t, p).treatmentTime != 0
    requires AggregatePatient(t, p).cancerType != UnspecifiedTumor
    ensures AggregatePatient(t, p) in PatientAgg(t)
  {
    var a := AggregatePatient(t, p);
    PatientInGroups(t, p);
    assert a in Filter(PatientGroups(t), HasTreatmentTime);
    assert a in multiset(PatientAggSorted(t));
    assert NotCancerType(UnspecifiedTumor)(a);
  }

  /** The rows `patient_agg` keeps: a patient has a row exactly when they
      occur in the table, their "last" timestamp differs from their "first",
      and their last diagnosis is not "Unspecified tumor". */
  lemma PatientAggKeys(t: seq<Row>)
    ensures forall p :: (exists a :: a in PatientAgg(t) && a.patientId == p) <==>
              Occurs(t, RowPatient, p) && AggregatePatient(t, p).treatmentTime != 0 &&
              AggregatePatient(t, p).cancerType != UnspecifiedTumor
  {
    forall p | Occurs(t, RowPatient, p) && AggregatePatient(t, p).treatmentTime != 0 &&
               AggregatePatient(t, p).cancerType != UnspecifiedTumor
      ensures exists a :: a in PatientAgg(t) && a.patientId == p
    {
      PatientInAgg(t, p);
    }
    forall p | exists a :: a in PatientAgg(t) && a.patientId == p
      ensures Occurs(t, RowPatient, p) && AggregatePatient(t, p).treatmentTime != 0 &&
              AggregatePatient(t, p).cancerType != UnspecifiedTumor
    {
      var a :| a in PatientAgg(t) && a.patientId == p;
      PatientAggFromGroups(t, a);
    }
  }

  /** `patient_agg` has one row per kept patient. */
  lemma PatientAggKeysUnique(t: seq<Row>)
    ensures DistinctBy(PatientAgg(t), PatientOf)
  {
    IntOrder();
    TreatmentMonthsTotal();
    var ps := SortedKeys(t, RowPatient, IntLess);
    var groups := AggregatePatients(t, ps);
    StrictlySortedDistinct(ps, IntLess);
    assert DistinctBy(groups, PatientOf);
    FilterKeepsDistinct(groups, HasTreatmentTime, PatientOf);
    SortKeepsDistinct(Filter(groups, HasTreatmentTime), TreatmentMonthsLe, PatientOf);
    FilterKeepsDistinct(PatientAggSorted(t), NotCancerType(UnspecifiedTumor), PatientOf);
  }

  /** A patient's group starts at patient month 0: every row is at month
      >= 0 and the row of the patient's earliest event is at month 0. */
  lemma PatientStartsAtMonthZero(es: seq<Event>, t: seq<Row>, p: int)
    requires DerivedFrom(es, t) && CoversEvents(es, t)
    requires Occurs(t, RowPatient, p)
    ensures AggregatePatient(t, p).startMonth == 0
    ensures AggregatePatient(t, p).endMonth >= 0
  {
    var g := Group(t, RowPatient, p);
    var k := GroupMonthsFromZero(es, t, p);
    MinOfIsFloor(g, RowMonthPerPatient, 0, k);
    PatientMonthColumns(t, p);
  }

  lemma PatientMonthColumns(t: seq<Row>, p: int)
    requires Occurs(t, RowPatient, p)
    ensures AggregatePatient(t, p).startMonth == MinOf(Group(t, RowPatient, p), RowMonthPerPatient)
    ensures AggregatePatient(t, p).endMonth == MaxOf(Group(t, RowPatient, p), RowMonthPerPatient)
  {
  }

  /** Every row of a patient is at patient month >= 0, and row `k` is at 0. */
  lemma GroupMonthsFromZero(es: seq<Event>, t: seq<Row>, p: int) returns (k: nat)
    requires DerivedFrom(es, t) && CoversEvents(es, t)
    requires Occurs(t, RowPatient, p)
    ensures forall i :: 0 <= i < |Group(t, RowPatient, p)| ==> RowMonthPerPatient(Group(t, RowPatient, p)[i]) >= 0
    ensures k < |Group(t, RowPatient, p)| && RowMonthPerPatient(Group(t, RowPatient, p)[k]) == 0
  {
    var g := Group(t, RowPatient, p);
    forall i | 0 <= i < |g| ensures RowMonthPerPatient(g[i]) >= 0 {
      assert g[i] in g;
      TemporalRowBounds(es, g[i].event);
    }
    assert g[0] in g;
    MonthsStartAtZero(es, g[0].event);
    var f :| f in es && f.patientId == p && TemporalRow(es, f).monthPerPatient == 0;
    assert TemporalRow(es, f) in g;
    k :| 0 <= k < |g| && g[k] == TemporalRow(es, f);
  }

  /** `cancer_type` is the diagnosis of one of the patient's events. */
  lemma CancerTypeIsPatients(es: seq<Event>, t: seq<Row>, p: int)
    requires DerivedFrom(es, t)
    requires Occurs(t, RowPatient, p)
    ensures exists e :: e in es && e.patientId == p && e.diagnosis == AggregatePatient(t, p).cancerType
  {
    var g := Group(t, RowPatient, p);
    assert g[|g| - 1] in g;
  }

  /** On a reordering of the time-annotated table of the events `es`, every
      row of `patient_agg`:
      - holds the values of its patient's whole group (dropping the
        zero-duration patients changed nothing in the surviving rows),
      - counts at least one event,
      - starts in patient month 0, so its treatment months equal its end
        month and are non-negative,
      - has a non-zero treatment time, and
      - has a `cancer_type` that is one of the patient's diagnoses. */
  lemma PatientAggRows(es: seq<Event>, t: seq<Row>)
    requires DerivedFrom(es, t) && CoversEvents(es, t)
    ensures forall a :: a in PatientAgg(t) ==>
              && Occurs(t, RowPatient, a.patientId)
              && a == AggregatePatient(t, a.patientId)
              && a.eventCount >= 1
              && a.startMonth == 0
              && a.treatmentTimeMonths == a.endMonth >= 0
              && a.treatmentTime != 0
              && exists e :: e in es && e.patientId == a.patientId && e.diagnosis == a.cancerType
  {
    forall a | a in PatientAgg(t)
      ensures && Occurs(t, RowPatient, a.patientId)
              && a == AggregatePatient(t, a.patientId)
              && a.eventCount >= 1
              && a.startMonth == 0
              && a.treatmentTimeMonths == a.endMonth >= 0
              && a.treatmentTime != 0
              && exists e :: e in es && e.patientId == a.patientId && e.diagnosis == a.cancerType
    {
      PatientAggFromGroups(t, a);
      PatientStartsAtMonthZero(es, t, a.patientId);
      CancerTypeIsPatients(es, t, a.patientId);
    }
  }

  /** Line 82 never removes a row: cleaning already dropped every
      "Unspecified tumor" event, so no patient's last diagnosis is one. */
  lemma CancerTypeFilterIsNoOp(es: seq<Event>, t: seq<Row>)
    requires DerivedFrom(Clean(es), t)
    ensures PatientAgg(t) == PatientAggSorted(t)
    ensures forall a :: a in PatientAgg(t) ==> !IsSentinel(a.cancerType)
  {
    forall a | a in PatientAggSorted(t) ensures !IsSentinel(a.cancerType) {
      PatientAggFromGroups(t, a);
      CancerTypeIsPatients(Clean(es), t, a.patientId);
    }
    FilterKeepsAll(PatientAggSorted(t), NotCancerType(UnspecifiedTumor));
  }

  /** On a table sorted by month, a patient's "first" row is in the
      patient's earliest dataset month and the "last" row in the latest. */
  lemma PatientRowsByMonth(t: seq<Row>, p: int, r: Row)
    requires SortedBy(t, MonthLe)
    requires r in t && RowPatient(r) == p
    ensures |Group(t, RowPatient, p)| > 0
    ensures Group(t, RowPatient, p)[0].allTimeMonthsPassed <= r.allTimeMonthsPassed
    ensures r.allTimeMonthsPassed <= Group(t, RowPatient, p)[|Group(t, RowPatient, p)| - 1].allTimeMonthsPassed
  {
    var g := Group(t, RowPatient, p);
    FilterKeepsSorted(t, HasKey(RowPatient, p), MonthLe);
    assert r in g;
    var j :| 0 <= j < |g| && g[j] == r;
    if 0 < j { assert MonthLe(g[0], g[j]); }
    if j < |g| - 1 { assert MonthLe(g[j], g[|g| - 1]); }
  }

  lemma PatientFirstLast(t: seq<Row>, p: int)
    requires Occurs(t, RowPatient, p)
    ensures var g := Group(t, RowPatient, p);
      && g[0] in t && g[|g| - 1] in t
      && AggregatePatient(t, p).firstTs == g[0].event.timestamp
      && AggregatePatient(t, p).lastTs == g[|g| - 1].event.timestamp
  {
    var g := Group(t, RowPatient, p);
    assert g[0] in g && g[|g| - 1] in g;
  }

  /** "first" and "last" follow the re-sorted order, which is only fixed
      across months: when a patient's events fall in two different dataset
      months, `first_ts` comes strictly before `last_ts`. */
  lemma FirstBeforeLastAcrossMonths(es: seq<Event>, t: seq<Row>, r1: Row, r2: Row)
    requires DerivedFrom(es, t) && SortedBy(t, MonthLe)
    requires r1 in t && r2 in t && RowPatient(r1) == RowPatient(r2)
    requires r1.allTimeMonthsPassed < r2.allTimeMonthsPassed
    ensures Occurs(t, RowPatient, RowPatient(r1))
    ensures AggregatePatient(t, RowPatient(r1)).firstTs < AggregatePatient(t, RowPatient(r1)).lastTs
  {
    var p := RowPatient(r1);
    PatientRowsByMonth(t, p, r1);
    PatientRowsByMonth(t, p, r2);
    var g := Group(t, RowPatient, p);
    PatientFirstLast(t, p);
    var first, last := g[0], g[|g| - 1];
    assert first == TemporalRow(es, first.event) && last == TemporalRow(es, last.event);
    if last.event.timestamp <= first.event.timestamp {
      TemporalRowMonotone(es, last.event, first.event);
      assert false;
    }
  }

  /** Two events of one patient less than a month apart both sit in
      dataset month 0. */
  lemma TwoEventsOneMonth(e1: Event, e2: Event)
    requires e1.patientId == e2.patientId && e1.timestamp < e2.timestamp
    requires e2.timestamp - e1.timestamp < SecondsPerMonth
    ensures WithTemporalColumns([e1, e2]) == [TemporalRow([e1, e2], e1), TemporalRow([e1, e2], e2)]
    ensures TemporalRow([e1, e2], e1).allTimeMonthsPassed == 0
    ensures TemporalRow([e1, e2], e2).allTimeMonthsPassed == 0
  {
    var es := [e1, e2];
    assert es[0] == e1 && es[1] == e2;
    assert DatasetStart(es) == e1.timestamp;
    assert MonthsIn(e2.timestamp - e1.timestamp) == 0;
    var w := WithTemporalColumns(es);
    assert |w| == 2 && w[0] == TemporalRow(es, e1) && w[1] == TemporalRow(es, e2);
  }

  lemma TwoRowsOneGroup(r: Row, s: Row)
    requires RowPatient(r) == RowPatient(s)
    ensures Group([r, s], RowPatient, RowPatient(r)) == [r, s]
  {
    var k := HasKey(RowPatient, RowPatient(r));
    assert [r, s][1..] == [s] && [s][1..] == [];
    assert Filter([s], k) == [s] + Filter([], k);
  }

  /** Inside one dataset month the re-sort may put a patient's later event
      first: for two events of one patient less than a month apart, listing
      the later one first is an admissible result of line 44 ... */
  lemma ReversedWithinMonthIsAdmissible(e1: Event, e2: Event)
    requires e1.patientId == e2.patientId && e1.timestamp < e2.timestamp
    requires e2.timestamp - e1.timestamp < SecondsPerMonth
    ensures IsMonthResort(WithTemporalColumns([e1, e2]), [TemporalRow([e1, e2], e2), TemporalRow([e1, e2], e1)])
  {
    TwoEventsOneMonth(e1, e2);
    SwapWithinMonth(TemporalRow([e1, e2], e1), TemporalRow([e1, e2], e2));
  }

  lemma SwapWithinMonth(r: Row, s: Row)
    requires r.allTimeMonthsPassed == s.allTimeMonthsPassed
    ensures IsMonthResort([r, s], [s, r])
  {
    assert multiset([s, r]) == multiset([r, s]);
  }

  /** ... and then `treatment_time` is negative. */
  lemma ReversedWithinMonthTreatmentTime(e1: Event, e2: Event)
    requires e1.patientId == e2.patientId && e1.timestamp < e2.timestamp
    ensures Occurs([TemporalRow([e1, e2], e2), TemporalRow([e1, e2], e1)], RowPatient, e1.patientId)
    ensures AggregatePatient([TemporalRow([e1, e2], e2), TemporalRow([e1, e2], e1)], e1.patientId).treatmentTime < 0
  {
    var t := [TemporalRow([e1, e2], e2), TemporalRow([e1, e2], e1)];
    assert RowPatient(t[1]) == e1.patientId;
    TwoRowsOneGroup(t[0], t[1]);
    PatientFirstLast(t, e1.patientId);
  }

  // ---------------------------------------------------------------------------
  // The script
  // ---------------------------------------------------------------------------

  /** Lines 13-44: any admissible re-sort of the cleaned, annotated table
      holds exactly the non-sentinel events, one row each, with their derived
      columns, and 0 <= month_per_patient <= all_time_months_passed. */
  lemma CleanedTable(raw: seq<Event>, data: seq<Row>)
    requires IsMonthResort(WithTemporalColumns(Clean(SortByPatientTime(raw))), data)
    ensures forall e :: (exists r :: r in data && r.event == e) <==> e in raw && !IsSentinel(e.diagnosis)
    ensures |data| == |Clean(raw)|
    ensures DerivedFrom(Clean(SortByPatientTime(raw)), data) && CoversEvents(Clean(SortByPatientTime(raw)), data)
    ensures forall r :: r in data ==> 0 <= r.monthPerPatient <= r.allTimeMonthsPassed
  {
    var sorted := SortByPatientTime(raw);
    var events := Clean(sorted);
    CleanPermutation(sorted, raw);
    ReorderedTemporalColumns(events, data);
    assert |data| == |Clean(raw)| by {
      assert |multiset(data)| == |multiset(WithTemporalColumns(events))|;
      assert |multiset(events)| == |multiset(Clean(raw))|;
    }
    forall e ensures (exists r :: r in data && r.event == e) <==> e in raw && !IsSentinel(e.diagnosis) {
      if e in raw && !IsSentinel(e.diagnosis) {
        assert e in multiset(sorted);
        assert TemporalRow(events, e) in data;
      }
      if exists r :: r in data && r.event == e {
        assert e in multiset(sorted);
      }
    }
    forall r | r in data ensures 0 <= r.monthPerPatient <= r.allTimeMonthsPassed {
      TemporalRowBounds(events, r.event);
    }
  }

  /** dataframes.py from the parsed rows on: each step rebinds the table. */
  method DataframesScript(raw: seq<Event>)
    returns (data: seq<Row>, monthsAgg: seq<MonthsAggRow>, patientAgg: seq<PatientAggRow>)
    ensures IsMonthResort(WithTemporalColumns(Clean(SortByPatientTime(raw))), data)
    ensures monthsAgg == MonthsAgg(data) && patientAgg == PatientAgg(data)
    ensures forall e :: (exists r :: r in data && r.event == e) <==> e in raw && !IsSentinel(e.diagnosis)
    ensures |data| == |Clean(raw)|
    ensures SortedBy(data, MonthLe)
    ensures forall r :: r in data ==> 0 <= r.monthPerPatient <= r.allTimeMonthsPassed
    ensures forall k :: Occurs(data, MonthDivision, k) <==> exists a :: a in monthsAgg && BucketKey(a) == k
    ensures DistinctBy(monthsAgg, BucketKey)
    ensures SumOf(monthsAgg, ActivitiesCount) == |data|
    ensures forall a :: a in monthsAgg ==> a.activitiesCount >= 1 && a.firstTs <= a.lastTs
    ensures DistinctBy(patientAgg, PatientOf)
    ensures forall a :: a in patientAgg ==>
              a.eventCount >= 1 && a.startMonth == 0 && a.treatmentTimeMonths == a.endMonth >= 0 &&
              a.treatmentTime != 0 && !IsSentinel(a.cancerType)
  {
    var events := SortByPatientTime(raw);   // line 13
    events := Clean(events);                // lines 16-22
    data := WithTemporalColumns(events);    // lines 25-42
    data := ResortByMonth(data);            // line 44
    monthsAgg := MonthsAgg(data);           // lines 47-60
    patientAgg := PatientAgg(data);         // lines 63-82

    CleanedTable(raw, data);
    MonthsAggKeys(data);
    MonthsAggKeysUnique(data);
    MonthsAggCountsSum(data);
    MonthsAggRows(data);
    PatientAggKeysUnique(data);
    PatientAggRows(events, data);
    CancerTypeFilterIsNoOp(SortByPatientTime(raw), data);
  }
}
