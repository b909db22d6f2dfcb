/** resources.py: the treatment-time table behind the heat map. The event
    table is sorted and time-annotated exactly as in dataframes.py, but no
    diagnosis is dropped first; the rows are then grouped per (diagnosis,
    patient), the "No cancer diagnosed" groups and the zero-duration groups
    are filtered out, and per-diagnosis means are broadcast onto every
    surviving row. */
module Resources {
  import opened Collections
  import opened Events
  import opened Temporal
  import Dataframes

  /** The order of line 12, read on the annotated rows. */
  function RowPatientTimeLe(a: Row, b: Row): bool {
    PatientTimeLe(a.event, b.event)
  }

  /** Annotating the sorted events keeps them sorted. */
  lemma AnnotatedStaysSorted(es: seq<Event>)
    requires SortedBy(es, PatientTimeLe)
    ensures SortedBy(WithTemporalColumns(es), RowPatientTimeLe)
  {
  }

  // ---------------------------------------------------------------------------
  // diagnosis_agg groups (lines 31-41)
  // ---------------------------------------------------------------------------

  function DiagnosisPatient(r: Row): (string, int) {
    (r.event.diagnosis, r.event.patientId)
  }

  /** One row of the grouped table: the two-level key and the named
      aggregations. */
  datatype DiagnosisGroup = DiagnosisGroup(
    diagnosis: string,
    patientId: int,
    firstTs: int,
    lastTs: int,
    eventCount: nat,
    patientAge: real,
    startMonth: int,
    endMonth: int,
    patientDiagnosis: string)

  function GroupKey(a: DiagnosisGroup): (string, int) {
    (a.diagnosis, a.patientId)
  }

  /** The aggregations of one (diagnosis, patient) group; "first" and "last"
      are the first and last rows in table order. */
  function AggregateGroup(t: seq<Row>, k: (string, int)): DiagnosisGroup
    requires Occurs(t, DiagnosisPatient, k)
  {
    var g := Group(t, DiagnosisPatient, k);
    DiagnosisGroup(
      k.0, k.1,
      g[0].event.timestamp,           // first_ts: "first"
      g[|g| - 1].event.timestamp,     // last_ts: "last"
      |g|,                            // event_count: "count"
      Mean(g, RowAge),                // patient_age: "mean"
      MinOf(g, RowMonth),             // start_month: "min"
      MaxOf(g, RowMonth),             // end_month: "max"
      g[|g| - 1].event.diagnosis)     // patient_diagnosis: "last"
  }

  function AggregateGroups(t: seq<Row>, ks: seq<(string, int)>): (aggs: seq<DiagnosisGroup>)
    requires forall k :: k in ks ==> Occurs(t, DiagnosisPatient, k)
    ensures |aggs| == |ks|
    ensures forall i :: 0 <= i < |ks| ==> aggs[i] == AggregateGroup(t, ks[i])
  {
    if ks == [] then [] else [AggregateGroup(t, ks[0])] + AggregateGroups(t, ks[1..])
  }

  /** The groups in `groupby` order: ascending diagnosis, then patient. */
  function DiagnosisGroups(t: seq<Row>): seq<DiagnosisGroup> {
    TextIntOrder();
    AggregateGroups(t, SortedKeys(t, DiagnosisPatient, TextIntLess))
  }

  function IsCase(a: DiagnosisGroup): bool {
    a.patientDiagnosis != NoCancerDiagnosed
  }

  /** Line 43: the groups whose last diagnosis is not "No cancer diagnosed". */
  function Cases(t: seq<Row>): seq<DiagnosisGroup> {
    Filter(DiagnosisGroups(t), IsCase)
  }

  function TreatmentTimeDays(a: DiagnosisGroup): int {
    a.lastTs - a.firstTs
  }

  function HasDuration(a: DiagnosisGroup): bool {
    TreatmentTimeDays(a) != 0
  }

  /** Line 49: the cases whose treatment time is not zero. */
  function LastingCases(t: seq<Row>): seq<DiagnosisGroup> {
    Filter(Cases(t), HasDuration)
  }

  lemma LastingAreCases(t: seq<Row>)
    ensures forall a :: a in LastingCases(t) ==> a in Cases(t)
  {
  }

  // ---------------------------------------------------------------------------
  // Broadcast columns (lines 45-55)
  // ---------------------------------------------------------------------------

  function OfDiagnosis(d: string): DiagnosisGroup -> bool {
    (a: DiagnosisGroup) => a.diagnosis == d
  }

  function PatientAge(a: DiagnosisGroup): real {
    a.patientAge
  }

  function TreatmentMonths(a: DiagnosisGroup): real {
    (a.endMonth - a.startMonth) as real
  }

  function FirstTsValue(a: DiagnosisGroup): real {
    a.firstTs as real
  }

  function LastTsValue(a: DiagnosisGroup): real {
    a.lastTs as real
  }

  function TreatmentDaysValue(a: DiagnosisGroup): real {
    TreatmentTimeDays(a) as real
  }

  /** One row of `diagnosis_agg` as the script leaves it. */
  datatype DiagnosisRow = DiagnosisRow(
    group: DiagnosisGroup,
    averageAge: real,
    treatmentTimeDays: int,
    treatmentTimeMonths: int,
    avgTreatmentTimeDays: real,
    avgTreatmentTimeMonths: real)

  function RowKey(r: DiagnosisRow): (string, int) {
    GroupKey(r.group)
  }

  /** The columns of surviving group `a`. `average_age` was broadcast at line
      45, before line 49 dropped the zero-duration groups, so it averages
      over every case of the diagnosis; `avg_treatment_time_months` (line 55)
      averages over the surviving ones only; `avg_treatment_time_days` (line
      53) is the same scalar on every row. */
  function DiagnosisRowOf(cases: seq<DiagnosisGroup>, lasting: seq<DiagnosisGroup>, a: DiagnosisGroup): DiagnosisRow
    requires a in lasting
    requires forall x :: x in lasting ==> x in cases
  {
    var sameCases := Filter(cases, OfDiagnosis(a.diagnosis));
    var sameLasting := Filter(lasting, OfDiagnosis(a.diagnosis));
    assert a in sameCases && a in sameLasting;
    DiagnosisRow(
      a,
      Mean(sameCases, PatientAge),
      TreatmentTimeDays(a),
      a.endMonth - a.startMonth,
      Mean(lasting, LastTsValue) - Mean(lasting, FirstTsValue),
      Mean(sameLasting, TreatmentMonths))
  }

  function DiagnosisRows(cases: seq<DiagnosisGroup>, lasting: seq<DiagnosisGroup>, todo: seq<DiagnosisGroup>): (rows: seq<DiagnosisRow>)
    requires forall x :: x in todo ==> x in lasting
    requires forall x :: x in lasting ==> x in cases
    ensures |rows| == |todo|
    ensures forall i :: 0 <= i < |todo| ==> rows[i] == DiagnosisRowOf(cases, lasting, todo[i])
  {
    if todo == [] then []
    else [DiagnosisRowOf(cases, lasting, todo[0])] + DiagnosisRows(cases, lasting, todo[1..])
  }

  /** `diagnosis_agg` at the end of the script. */
  function DiagnosisAgg(t: seq<Row>): seq<DiagnosisRow> {
    LastingAreCases(t);
    DiagnosisRows(Cases(t), LastingCases(t), LastingCases(t))
  }

  // ---------------------------------------------------------------------------
  // Properties of the groups
  // ---------------------------------------------------------------------------

  lemma GroupOfKey(t: seq<Row>, a: DiagnosisGroup)
    requires a in DiagnosisGroups(t)
    ensures Occurs(t, DiagnosisPatient, GroupKey(a))
    ensures a == AggregateGroup(t, GroupKey(a))
  {
    TextIntOrder();
    var ks := SortedKeys(t, DiagnosisPatient, TextIntLess);
    var i :| 0 <= i < |DiagnosisGroups(t)| && DiagnosisGroups(t)[i] == a;
    assert ks[i] in ks;
  }

  lemma KeyHasGroup(t: seq<Row>, k: (string, int))
    requires Occurs(t, DiagnosisPatient, k)
    ensures AggregateGroup(t, k) in DiagnosisGroups(t)
  {
    TextIntOrder();
    var ks := SortedKeys(t, DiagnosisPatient, TextIntLess);
    var i :| 0 <= i < |ks| && ks[i] == k;
    assert DiagnosisGroups(t)[i] == AggregateGroup(t, k);
  }

  /** Every group holds at least one event, its `patient_diagnosis` repeats
      the diagnosis level of its key, and `start_month` <= `end_month`. */
  lemma GroupColumns(t: seq<Row>, k: (string, int))
    requires Occurs(t, DiagnosisPatient, k)
    ensures AggregateGroup(t, k).eventCount >= 1
    ensures AggregateGroup(t, k).patientDiagnosis == AggregateGroup(t, k).diagnosis == k.0
    ensures AggregateGroup(t, k).startMonth <= AggregateGroup(t, k).endMonth
  {
    var g := Group(t, DiagnosisPatient, k);
    assert g[|g| - 1] in g;
    var i :| 0 <= i < |g| && MinOf(g, RowMonth) == RowMonth(g[i]);
  }

  /** Because the table is sorted by (patient, timestamp) and the sort is
      stable, "first" and "last" are the earliest and latest timestamps of
      the group. */
  lemma FirstLastAreMinMax(t: seq<Row>, k: (string, int))
    requires SortedBy(t, RowPatientTimeLe)
    requires Occurs(t, DiagnosisPatient, k)
    ensures forall r :: r in t && DiagnosisPatient(r) == k ==>
              AggregateGroup(t, k).firstTs <= r.event.timestamp <= AggregateGroup(t, k).lastTs
    ensures exists r :: r in t && DiagnosisPatient(r) == k && r.event.timestamp == AggregateGroup(t, k).firstTs
    ensures exists r :: r in t && DiagnosisPatient(r) == k && r.event.timestamp == AggregateGroup(t, k).lastTs
  {
    var g := Group(t, DiagnosisPatient, k);
    FilterKeepsSorted(t, HasKey(DiagnosisPatient, k), RowPatientTimeLe);
    forall r | r in t && DiagnosisPatient(r) == k
      ensures g[0].event.timestamp <= r.event.timestamp <= g[|g| - 1].event.timestamp
    {
      assert r in g;
      var j :| 0 <= j < |g| && g[j] == r;
      if 0 < j { assert RowPatientTimeLe(g[0], g[j]); }
      if j < |g| - 1 { assert RowPatientTimeLe(g[j], g[|g| - 1]); }
      assert g[0] in g && g[|g| - 1] in g;
    }
    assert g[0] in g && g[|g| - 1] in g;
  }

  /** Line 43 removes exactly the "No cancer diagnosed" groups: every other
      group, "Unspecified tumor" included, is a case. */
  lemma CasesKeys(t: seq<Row>)
    ensures forall k :: (exists a :: a in Cases(t) && GroupKey(a) == k) <==>
              Occurs(t, DiagnosisPatient, k) && k.0 != NoCancerDiagnosed
  {
    forall k | Occurs(t, DiagnosisPatient, k) && k.0 != NoCancerDiagnosed
      ensures exists a :: a in Cases(t) && GroupKey(a) == k
    {
      KeyHasGroup(t, k);
      GroupColumns(t, k);
      assert AggregateGroup(t, k) in Cases(t);
    }
    forall k | exists a :: a in Cases(t) && GroupKey(a) == k
      ensures Occurs(t, DiagnosisPatient, k) && k.0 != NoCancerDiagnosed
    {
      var a :| a in Cases(t) && GroupKey(a) == k;
      GroupOfKey(t, a);
      GroupColumns(t, k);
    }
  }

  /** The "Unspecified tumor" groups reach the heat map. */
  lemma UnspecifiedTumorKept(t: seq<Row>, p: int)
    requires Occurs(t, DiagnosisPatient, (UnspecifiedTumor, p))
    ensures exists a :: a in Cases(t) && GroupKey(a) == (UnspecifiedTumor, p)
  {
    CasesKeys(t);
  }

  // ---------------------------------------------------------------------------
  // Properties of diagnosis_agg
  // ---------------------------------------------------------------------------

  lemma RowOfAgg(t: seq<Row>, r: DiagnosisRow)
    requires r in DiagnosisAgg(t)
    ensures r.group in LastingCases(t)
    ensures r == DiagnosisRowOf(Cases(t), LastingCases(t), r.group)
  {
    LastingAreCases(t);
    var rows := DiagnosisAgg(t);
    var i :| 0 <= i < |rows| && rows[i] == r;
  }

  lemma GroupInAgg(t: seq<Row>, a: DiagnosisGroup)
    requires a in LastingCases(t)
    ensures DiagnosisRowOf(Cases(t), LastingCases(t), a) in DiagnosisAgg(t)
  {
    LastingAreCases(t);
    var lasting := LastingCases(t);
    var i :| 0 <= i < |lasting| && lasting[i] == a;
    assert DiagnosisAgg(t)[i] == DiagnosisRowOf(Cases(t), lasting, a);
  }

  /** `diagnosis_agg` has a row for a (diagnosis, patient) pair exactly when
      the pair occurs, the diagnosis is not "No cancer diagnosed", and the
      group's treatment time is not zero. */
  lemma DiagnosisAggKeys(t: seq<Row>)
    ensures forall k :: (exists r :: r in DiagnosisAgg(t) && RowKey(r) == k) <==>
              && Occurs(t, DiagnosisPatient, k)
              && k.0 != NoCancerDiagnosed
              && TreatmentTimeDays(AggregateGroup(t, k)) != 0
  {
    forall k | && Occurs(t, DiagnosisPatient, k) && k.0 != NoCancerDiagnosed
               && TreatmentTimeDays(AggregateGroup(t, k)) != 0
      ensures exists r :: r in DiagnosisAgg(t) && RowKey(r) == k
    {
      KeyHasGroup(t, k);
      GroupColumns(t, k);
      var a := AggregateGroup(t, k);
      assert a in Cases(t);
      assert a in LastingCases(t);
      GroupInAgg(t, a);
    }
    forall k | exists r :: r in DiagnosisAgg(t) && RowKey(r) == k
      ensures && Occurs(t, DiagnosisPatient, k) && k.0 != NoCancerDiagnosed
              && TreatmentTimeDays(AggregateGroup(t, k)) != 0
    {
      var r :| r in DiagnosisAgg(t) && RowKey(r) == k;
      RowOfAgg(t, r);
      GroupOfKey(t, r.group);
      GroupColumns(t, k);
    }
  }

  lemma DiagnosisAggKeysUnique(t: seq<Row>)
    ensures DistinctBy(DiagnosisAgg(t), RowKey)
  {
    TextIntOrder();
    var ks := SortedKeys(t, DiagnosisPatient, TextIntLess);
    StrictlySortedDistinct(ks, TextIntLess);
    assert DistinctBy(DiagnosisGroups(t), GroupKey);
    FilterKeepsDistinct(DiagnosisGroups(t), IsCase, GroupKey);
    FilterKeepsDistinct(Cases(t), HasDuration, GroupKey);
    var rows := DiagnosisAgg(t);
    assert forall i :: 0 <= i < |rows| ==> RowKey(rows[i]) == GroupKey(LastingCases(t)[i]);
  }

  /** The facts of one row of `diagnosis_agg`, on the sorted, annotated table
      of the events `es`. */
  lemma AggRowFacts(es: seq<Event>, t: seq<Row>, r: DiagnosisRow)
    requires DerivedFrom(es, t) && SortedBy(t, RowPatientTimeLe)
    requires r in DiagnosisAgg(t)
    ensures Occurs(t, DiagnosisPatient, RowKey(r)) && r.group == AggregateGroup(t, RowKey(r))
    ensures r.group.eventCount >= 1
    ensures r.group.patientDiagnosis == r.group.diagnosis != NoCancerDiagnosed
    ensures r.group.firstTs < r.group.lastTs && r.treatmentTimeDays == r.group.lastTs - r.group.firstTs
    ensures 0 <= r.group.startMonth <= r.group.endMonth
    ensures r.treatmentTimeMonths == r.group.endMonth - r.group.startMonth
  {
    RowOfAgg(t, r);
    var k := RowKey(r);
    GroupOfKey(t, r.group);
    GroupColumns(t, k);
    FirstLastAreMinMax(t, k);
    var g := Group(t, DiagnosisPatient, k);
    var i :| 0 <= i < |g| && r.group.startMonth == RowMonth(g[i]);
    assert g[i] in g;
    TemporalRowBounds(es, g[i].event);
  }

  /** Every row of `diagnosis_agg` is the whole (diagnosis, patient) group:
      it counts at least one event, its diagnosis is never "No cancer
      diagnosed" and equals `patient_diagnosis`, its last timestamp is
      strictly after its first (line 49 only let non-zero durations through,
      and the sort makes last >= first), and its month span is a
      non-negative difference of dataset months. */
  lemma DiagnosisAggRows(es: seq<Event>, t: seq<Row>)
    requires DerivedFrom(es, t) && SortedBy(t, RowPatientTimeLe)
    ensures forall r :: r in DiagnosisAgg(t) ==>
              && Occurs(t, DiagnosisPatient, RowKey(r)) && r.group == AggregateGroup(t, RowKey(r))
              && r.group.eventCount >= 1
              && r.group.patientDiagnosis == r.group.diagnosis != NoCancerDiagnosed
              && r.group.firstTs < r.group.lastTs && r.treatmentTimeDays == r.group.lastTs - r.group.firstTs
              && 0 <= r.group.startMonth <= r.group.endMonth
              && r.treatmentTimeMonths == r.group.endMonth - r.group.startMonth
  {
    forall r | r in DiagnosisAgg(t)
      ensures && Occurs(t, DiagnosisPatient, RowKey(r)) && r.group == AggregateGroup(t, RowKey(r))
              && r.group.eventCount >= 1
              && r.group.patientDiagnosis == r.group.diagnosis != NoCancerDiagnosed
              && r.group.firstTs < r.group.lastTs && r.treatmentTimeDays == r.group.lastTs - r.group.firstTs
              && 0 <= r.group.startMonth <= r.group.endMonth
              && r.treatmentTimeMonths == r.group.endMonth - r.group.startMonth
    {
      AggRowFacts(es, t, r);
    }
  }

  /** Two rows of `diagnosis_agg` share `avg_treatment_time_days`, and two
      rows of one diagnosis share its `average_age` and
      `avg_treatment_time_months`. */
  lemma SameBroadcast(t: seq<Row>, r1: DiagnosisRow, r2: DiagnosisRow)
    requires r1 in DiagnosisAgg(t) && r2 in DiagnosisAgg(t)
    ensures r1.avgTreatmentTimeDays == r2.avgTreatmentTimeDays
    ensures r1.group.diagnosis == r2.group.diagnosis ==>
              r1.averageAge == r2.averageAge && r1.avgTreatmentTimeMonths == r2.avgTreatmentTimeMonths
  {
    RowOfAgg(t, r1);
    RowOfAgg(t, r2);
    LastingAreCases(t);
    RowsOfOneDiagnosis(Cases(t), LastingCases(t), r1.group, r2.group);
  }

  lemma RowsOfOneDiagnosis(cases: seq<DiagnosisGroup>, lasting: seq<DiagnosisGroup>, a: DiagnosisGroup, b: DiagnosisGroup)
    requires a in lasting && b in lasting
    requires forall x :: x in lasting ==> x in cases
    ensures DiagnosisRowOf(cases, lasting, a).avgTreatmentTimeDays == DiagnosisRowOf(cases, lasting, b).avgTreatmentTimeDays
    ensures a.diagnosis == b.diagnosis ==>
              && DiagnosisRowOf(cases, lasting, a).averageAge == DiagnosisRowOf(cases, lasting, b).averageAge
              && DiagnosisRowOf(cases, lasting, a).avgTreatmentTimeMonths == DiagnosisRowOf(cases, lasting, b).avgTreatmentTimeMonths
  {
  }

  /** The per-diagnosis columns are broadcasts: equal on all rows of one
      diagnosis, and `avg_treatment_time_days` equal on all rows. */
  lemma BroadcastsPerDiagnosis(t: seq<Row>)
    ensures forall r1, r2 :: r1 in DiagnosisAgg(t) && r2 in DiagnosisAgg(t) ==>
              && r1.avgTreatmentTimeDays == r2.avgTreatmentTimeDays
              && (r1.group.diagnosis == r2.group.diagnosis ==>
                    r1.averageAge == r2.averageAge && r1.avgTreatmentTimeMonths == r2.avgTreatmentTimeMonths)
  {
    forall r1, r2 | r1 in DiagnosisAgg(t) && r2 in DiagnosisAgg(t)
      ensures && r1.avgTreatmentTimeDays == r2.avgTreatmentTimeDays
              && (r1.group.diagnosis == r2.group.diagnosis ==>
                    r1.averageAge == r2.averageAge && r1.avgTreatmentTimeMonths == r2.avgTreatmentTimeMonths)
    {
      SameBroadcast(t, r1, r2);
    }
  }

  /** A patient's mean age lies within the ages recorded for the table. */
  lemma GroupAgeBounds(t: seq<Row>, a: DiagnosisGroup, lo: real, hi: real)
    requires forall r :: r in t ==> lo <= RowAge(r) <= hi
    requires a in Cases(t)
    ensures lo <= a.patientAge <= hi
  {
    GroupOfKey(t, a);
    var g := Group(t, DiagnosisPatient, GroupKey(a));
    MeanBounds(g, RowAge, lo, hi);
  }

  /** `average_age` is a mean of means, so it stays within the range of the
      recorded ages. */
  lemma AverageAgeBounds(t: seq<Row>, lo: real, hi: real)
    requires forall r :: r in t ==> lo <= RowAge(r) <= hi
    ensures forall r :: r in DiagnosisAgg(t) ==> lo <= r.averageAge <= hi
  {
    forall r | r in DiagnosisAgg(t) ensures lo <= r.averageAge <= hi {
      RowOfAgg(t, r);
      var same := Filter(Cases(t), OfDiagnosis(r.group.diagnosis));
      forall a | a in same ensures lo <= PatientAge(a) <= hi {
        GroupAgeBounds(t, a, lo, hi);
      }
      assert r.group in same;
      MeanBounds(same, PatientAge, lo, hi);
    }
  }

  lemma {:induction false} DurationSum(s: seq<DiagnosisGroup>)
    ensures RealSumOf(s, LastTsValue) - RealSumOf(s, FirstTsValue) == RealSumOf(s, TreatmentDaysValue)
  {
    if s != [] {
      DurationSum(s[1..]);
    }
  }

  /** The difference of the two timestamp means (line 53) is the mean
      treatment time of the surviving groups. */
  lemma MeanDuration(s: seq<DiagnosisGroup>)
    requires |s| > 0
    ensures Mean(s, LastTsValue) - Mean(s, FirstTsValue) == Mean(s, TreatmentDaysValue)
  {
    DurationSum(s);
    var n := |s| as real;
    assert Mean(s, LastTsValue) - Mean(s, FirstTsValue)
        == (RealSumOf(s, LastTsValue) - RealSumOf(s, FirstTsValue)) / n;
  }

  /** Every surviving group lasts at least one second and spans at least
      zero months. */
  lemma LastingDurations(t: seq<Row>, a: DiagnosisGroup)
    requires SortedBy(t, RowPatientTimeLe)
    requires a in LastingCases(t)
    ensures TreatmentDaysValue(a) >= 1.0 && TreatmentMonths(a) >= 0.0
  {
    GroupOfKey(t, a);
    GroupColumns(t, GroupKey(a));
    FirstLastAreMinMax(t, GroupKey(a));
  }

  /** `avg_treatment_time_days` is the mean duration of the surviving groups,
      hence at least one second; `avg_treatment_time_months` is a mean of
      non-negative month spans. */
  lemma AverageTreatmentTimes(t: seq<Row>)
    requires SortedBy(t, RowPatientTimeLe)
    ensures forall r :: r in DiagnosisAgg(t) ==>
              && r.avgTreatmentTimeDays == Mean(LastingCases(t), TreatmentDaysValue)
              && r.avgTreatmentTimeDays >= 1.0
              && r.avgTreatmentTimeMonths >= 0.0
  {
    forall r | r in DiagnosisAgg(t)
      ensures && r.avgTreatmentTimeDays == Mean(LastingCases(t), TreatmentDaysValue)
              && r.avgTreatmentTimeDays >= 1.0
              && r.avgTreatmentTimeMonths >= 0.0
    {
      RowOfAgg(t, r);
      var lasting := LastingCases(t);
      var same := Filter(lasting, OfDiagnosis(r.group.diagnosis));
      forall a | a in lasting ensures TreatmentDaysValue(a) >= 1.0 && TreatmentMonths(a) >= 0.0 {
        LastingDurations(t, a);
      }
      MeanDuration(lasting);
      MeanAtLeast(lasting, TreatmentDaysValue, 1.0);
      assert r.group in same;
      MeanAtLeast(same, TreatmentMonths, 0.0);
    }
  }

  /** The order of lines 45 and 49 matters: a zero-duration case still counts
      in its diagnosis's `average_age`, but not in its
      `avg_treatment_time_months`. With two cases of one diagnosis, one of
      them without duration, the one surviving row averages both ages but
      only its own month span. */
  lemma AverageAgeCountsDroppedCases(dropped: DiagnosisGroup, kept: DiagnosisGroup)
    requires dropped.diagnosis == kept.diagnosis
    requires TreatmentTimeDays(dropped) == 0 && TreatmentTimeDays(kept) != 0
    ensures Filter([dropped, kept], HasDuration) == [kept]
    ensures |DiagnosisRows([dropped, kept], [kept], [kept])| == 1
    ensures DiagnosisRows([dropped, kept], [kept], [kept])[0].averageAge == (dropped.patientAge + kept.patientAge) / 2.0
    ensures DiagnosisRows([dropped, kept], [kept], [kept])[0].avgTreatmentTimeMonths == TreatmentMonths(kept)
  {
    var cases := [dropped, kept];
    assert cases[1..] == [kept];
    assert [kept][1..] == [];
    assert Filter([kept], HasDuration) == [kept] + Filter([], HasDuration);
    var same := OfDiagnosis(kept.diagnosis);
    assert Filter([kept], same) == [kept] + Filter([], same);
    assert Filter(cases, same) == cases;
    assert RealSumOf([kept], PatientAge) == kept.patientAge + RealSumOf([], PatientAge);
    assert RealSumOf(cases, PatientAge) == dropped.patientAge + RealSumOf([kept], PatientAge);
    assert RealSumOf([kept], TreatmentMonths) == TreatmentMonths(kept) + RealSumOf([], TreatmentMonths);
  }

  /** resources.py measures months from the earliest event of any diagnosis,
      the sentinel rows included, while dataframes.py measures them after
      dropping those rows: for every event both tables hold, the resources
      month is never the earlier one. */
  lemma SentinelsSetTheClock(raw: seq<Event>, e: Event)
    requires e in raw && !Dataframes.IsSentinel(e.diagnosis)
    ensures e in SortByPatientTime(raw)
    ensures e in Dataframes.Clean(SortByPatientTime(raw))
    ensures TemporalRow(Dataframes.Clean(SortByPatientTime(raw)), e).allTimeMonthsPassed <=
            TemporalRow(SortByPatientTime(raw), e).allTimeMonthsPassed
    ensures TemporalRow(Dataframes.Clean(SortByPatientTime(raw)), e).monthPerPatient <=
            TemporalRow(SortByPatientTime(raw), e).monthPerPatient
  {
    var sorted := SortByPatientTime(raw);
    assert e in multiset(sorted);
    MoreRowsEarlierStart(sorted, Dataframes.Clean(sorted), e);
  }

  // ---------------------------------------------------------------------------
  // The script
  // ---------------------------------------------------------------------------

  /** Lines 12-28: the sorted table with its derived columns holds every
      parsed row, sorted by (patient, timestamp). */
  lemma AnnotatedTable(raw: seq<Event>)
    ensures |WithTemporalColumns(SortByPatientTime(raw))| == |raw|
    ensures forall e :: e in raw <==> exists r :: r in WithTemporalColumns(SortByPatientTime(raw)) && r.event == e
    ensures SortedBy(WithTemporalColumns(SortByPatientTime(raw)), RowPatientTimeLe)
  {
    var events := SortByPatientTime(raw);
    var data := WithTemporalColumns(events);
    AnnotatedStaysSorted(events);
    forall e ensures e in raw <==> exists r :: r in data && r.event == e {
      AnnotatedEvent(events, raw, e);
    }
  }

  lemma AnnotatedEvent(events: seq<Event>, raw: seq<Event>, e: Event)
    requires multiset(events) == multiset(raw)
    ensures e in raw <==> exists r :: r in WithTemporalColumns(events) && r.event == e
  {
    var data := WithTemporalColumns(events);
    if e in raw {
      assert e in multiset(events);
      var i :| 0 <= i < |events| && events[i] == e;
      assert data[i] in data;
    }
    if exists r :: r in data && r.event == e {
      ReorderedTemporalColumns(events, data);
      assert e in events;
      assert e in multiset(raw);
    }
  }

  /** resources.py from the parsed rows on: each step rebinds the table. */
  method ResourcesScript(raw: seq<Event>) returns (data: seq<Row>, diagnosisAgg: seq<DiagnosisRow>)
    ensures data == WithTemporalColumns(SortByPatientTime(raw)) && diagnosisAgg == DiagnosisAgg(data)
    ensures |data| == |raw|
    ensures forall e :: e in raw <==> exists r :: r in data && r.event == e
    ensures SortedBy(data, RowPatientTimeLe)
    ensures forall r :: r in data ==> 0 <= r.monthPerPatient <= r.allTimeMonthsPassed
    ensures forall k :: (exists r :: r in diagnosisAgg && RowKey(r) == k) <==>
              && Occurs(data, DiagnosisPatient, k)
              && k.0 != NoCancerDiagnosed
              && TreatmentTimeDays(AggregateGroup(data, k)) != 0
    ensures DistinctBy(diagnosisAgg, RowKey)
    ensures forall r1, r2 :: r1 in diagnosisAgg && r2 in diagnosisAgg ==>
              && r1.avgTreatmentTimeDays == r2.avgTreatmentTimeDays
              && (r1.group.diagnosis == r2.group.diagnosis ==>
                    r1.averageAge == r2.averageAge && r1.avgTreatmentTimeMonths == r2.avgTreatmentTimeMonths)
    ensures forall r :: r in diagnosisAgg ==>
              && r.group.eventCount >= 1
              && r.group.patientDiagnosis == r.group.diagnosis != NoCancerDiagnosed
              && r.group.firstTs < r.group.lastTs
              && 0 <= r.group.startMonth <= r.group.endMonth
              && r.treatmentTimeMonths >= 0
              && r.avgTreatmentTimeDays >= 1.0
              && r.avgTreatmentTimeMonths >= 0.0
  {
    var events := SortByPatientTime(raw);   // line 12
    data := WithTemporalColumns(events);    // lines 14-28
    diagnosisAgg := DiagnosisAgg(data);     // lines 31-55

    AnnotatedTable(raw);
    ReorderedTemporalColumns(events, data);
    forall r | r in data ensures 0 <= r.monthPerPatient <= r.allTimeMonthsPassed {
      TemporalRowBounds(events, r.event);
    }
    DiagnosisAggKeys(data);
    DiagnosisAggKeysUnique(data);
    BroadcastsPerDiagnosis(data);
    DiagnosisAggRows(events, data);
    AverageTreatmentTimes(data);
  }
}
