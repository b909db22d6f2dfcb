# Gynaecological-cancer care pathway tables, modelled in Dafny

The dashboard reads one table of hospital events. Each event carries a patient, an event id, a timestamp, a diagnosis, an organisational division and unit, and the patient's age. Two scripts turn this table into the aggregate tables the charts draw:

- **dataframes.py** works as follows:
  - It sorts the events by (patient, timestamp).
  - It drops the two sentinel diagnoses, "No cancer diagnosed" and "Unspecified tumor".
  - It derives four time columns:
    - days since the patient's first event;
    - days since the dataset's first event;
    - the same two durations as whole months.
  - It re-sorts the table on the dataset month.
  - It builds `months_agg`, keyed by (month, division), and `patient_agg`, keyed by patient.
  - From `patient_agg` it drops the zero-duration patients, sorts the rest by treatment months and drops "Unspecified tumor".
- **resources.py** works as follows:
  - It applies the same sort and time columns without the sentinel filter.
  - It groups the rows per (diagnosis, patient).
  - It drops the "No cancer diagnosed" groups, then the zero-duration groups.
  - It broadcasts per-diagnosis means onto every surviving row.

The model has these parts:

- **Rows and time:**
  - A row is an `Event` datatype (`events.dfy`).
  - Timestamps are whole seconds.
  - A month is 2,629,746 s, the average Gregorian month that `np.timedelta64(1, "M")` stands for.
  - Durations become months by division truncated toward zero.
- **Tables:**
  - A table is a `seq` of rows.
  - The generic steps are in `collections.dfy`: boolean-mask filtering, the stable multi-column sort, `groupby` keys in ascending order, and count, sum, min, max and exact mean.
- **Derived columns:** `temporal.dfy` holds the four columns both scripts add.
- **The two scripts:**
  - `dataframes.dfy` and `resources.dfy` model the two scripts stage by stage.
  - Each script's local rebinding of the table becomes one method, `DataframesScript` and `ResourcesScript`.
  - The aggregations are functions.
- **Non-stable sorts:**
  - The single-column sorts at dataframes.py:44 and :81 use pandas' default, non-stable algorithm.
  - The line-44 re-sort is the predicate `IsMonthResort`: any reordering sorted by month.
  - The patient_agg lemmas hold for every table that is a reordering of the annotated events. They therefore hold for every admissible outcome of the re-sort.

How the two scripts differ in what they keep:
- dataframes.py drops both sentinel diagnoses (lines 16-22) before it derives the time columns. resources.py never drops them up front: it removes only the "No cancer diagnosed" groups after aggregation (line 43) and keeps "Unspecified tumor". Its months are therefore measured from a start that may be a sentinel row's timestamp (`SentinelsSetTheClock`).
- In resources.py, `average_age` (line 45) is computed before the zero-duration filter (line 49), so it includes the patients that filter removes. `avg_treatment_time_months` (line 55) is computed after it, so it leaves them out (`AverageAgeCountsDroppedCases`).

## Model

| member | source | states |
|---|---|---|
| Events.MonthsIn | dataframes.py:36-42 | a duration of d seconds gives the whole number of months m with m·2629746 ≤ d < (m+1)·2629746 for d ≥ 0, truncated toward zero for d < 0 |
| Events.MonthsInMonotone | dataframes.py:36-42 | a longer non-negative duration is never in an earlier month |
| Events.MonthsInExamples | resources.py:26-28 | 29 days is month 0, 31 and 60 days are month 1, 61 days is month 2 |
| Events.SortByPatientTime | dataframes.py:13 | the sort is a permutation of the input (same length, same multiset) and is ordered by (patient, timestamp) |
| Events.PatientTimeTotal | resources.py:12 | (patient, timestamp) is a total preorder, so the sort's outcome is ordered |
| Events.StringLessTransitive | dataframes.py:47 | code-point string order, which `groupby` sorts text keys by, is transitive |
| Events.StringLessTotal | dataframes.py:47 | any two different strings are ordered one way or the other |
| Events.TextIntOrder | resources.py:31 | (diagnosis, patient) keys are strictly and totally ordered |
| Events.IntTextOrder | dataframes.py:47 | (month, division) keys are strictly and totally ordered |
| Collections.SortedKeys | dataframes.py:47 | the group keys are strictly ascending and are exactly the keys occurring in the table |
| Collections.InsertionSort | dataframes.py:58-60 | the multi-column sort returns a permutation of its input, of the same length, ordered by the given key |
| Collections.Group | dataframes.py:63 | a group holds exactly the table's rows with that key, and is non-empty exactly when the key occurs |
| Collections.GroupSizesTotal | dataframes.py:49-50 | the sizes of the groups of distinct keys covering every row add up to the number of rows |
| Temporal.PatientStart | dataframes.py:25-30 | the patient's start is at most each of the patient's timestamps and is one of them |
| Temporal.DatasetStart | dataframes.py:32-34 | the dataset's start is at most every timestamp and is one of them |
| Temporal.WithTemporalColumns | dataframes.py:25-42 | writing the columns keeps the number of rows, their events and their order |
| Temporal.ReorderedTemporalColumns | dataframes.py:25-44 | any reordering of the annotated table holds only derived rows of the events, and holds one for every event |
| Temporal.TemporalRowBounds | dataframes.py:25-42 | 0 ≤ days since the patient's start ≤ days since the dataset's start, and likewise 0 ≤ month_per_patient ≤ all_time_months_passed |
| Temporal.PatientStartRows | dataframes.py:25-38 | days_since_first_ts is 0 exactly on the rows holding the patient's earliest timestamp, and month_per_patient is 0 there |
| Temporal.MonthsStartAtZero | dataframes.py:36-42 | every patient has a row at patient month 0 and the table has a row at dataset month 0 |
| Temporal.TemporalRowMonotone | dataframes.py:32-42 | a later event is never in an earlier dataset month, nor, for the same patient, in an earlier patient month |
| Temporal.MoreRowsEarlierStart | resources.py:24 | measured against a table with extra rows, no kept event's dataset or patient month is smaller |
| Dataframes.Clean | dataframes.py:16-22 | a row survives cleaning exactly when it was in the input and its diagnosis is neither sentinel |
| Dataframes.CleanKeepsOrder | dataframes.py:16-22 | cleaning distributes over concatenation, so surviving rows keep their relative order |
| Dataframes.CleanOneRow | dataframes.py:16-22 | one row is dropped exactly when its diagnosis is a sentinel |
| Dataframes.CleanPermutation | dataframes.py:13-22 | cleaning two reorderings of one table gives two reorderings of one cleaned table |
| Dataframes.ResortByMonth | dataframes.py:44 | the stable outcome is an admissible re-sort: a permutation ordered by dataset month |
| Dataframes.MonthsAgg | dataframes.py:58-60 | rows are ascending by month, then by activities_count |
| Dataframes.MonthsAggFromBuckets | dataframes.py:47-56 | every row is the aggregate of a (month, division) pair that occurs in the table |
| Dataframes.MonthsAggRows | dataframes.py:47-56 | months_passed and division_name repeat the key, the count is the bucket's size and at least 1, and first_ts ≤ last_ts |
| Dataframes.BucketInBuckets | dataframes.py:47-56 | every occurring bucket has its aggregate among the grouped rows |
| Dataframes.BucketInMonthsAgg | dataframes.py:47-60 | every occurring bucket has its row in months_agg |
| Dataframes.MonthsAggKeys | dataframes.py:47-56 | months_agg has a row for a (month, division) pair exactly when the pair occurs |
| Dataframes.MonthsAggKeysUnique | dataframes.py:47-60 | no two rows share a (month, division) key |
| Dataframes.MonthsAggCountsSum | dataframes.py:49-50 | the activities_count values add up to the number of rows |
| Dataframes.BucketCounts | dataframes.py:49-50 | the counts of the buckets of given keys add up to the sizes of their groups |
| Dataframes.PatientAggSorted | dataframes.py:80-81 | after the zero-duration filter the rows are ordered by treatment_time_months |
| Dataframes.PatientAgg | dataframes.py:82 | the final table stays ordered by treatment_time_months |
| Dataframes.PatientAggFromGroups | dataframes.py:63-80 | every row is its patient's whole-group aggregate, and its treatment_time is not 0 |
| Dataframes.PatientInGroups | dataframes.py:63-73 | every occurring patient has their aggregate among the groups |
| Dataframes.PatientInAgg | dataframes.py:63-82 | a patient with non-zero treatment time and a last diagnosis other than "Unspecified tumor" has their row in patient_agg |
| Dataframes.PatientAggKeys | dataframes.py:63-82 | patient_agg has a row for a patient exactly when the patient occurs, their treatment time is not 0 and their cancer_type is not "Unspecified tumor" |
| Dataframes.PatientAggKeysUnique | dataframes.py:63-82 | no two rows share a patient |
| Dataframes.PatientStartsAtMonthZero | dataframes.py:71-72 | start_month is 0 and end_month ≥ 0 |
| Dataframes.GroupMonthsFromZero | dataframes.py:36-38 | every row of a patient is at patient month ≥ 0 and one of them is at month 0 |
| Dataframes.CancerTypeIsPatients | dataframes.py:70 | cancer_type is the diagnosis of one of the patient's events |
| Dataframes.PatientAggRows | dataframes.py:63-80 | on any reordering of the annotated events, each row is its patient's whole-group aggregate, with event_count ≥ 1, start_month = 0, treatment_time_months = end_month ≥ 0, treatment_time ≠ 0 and one of the patient's diagnoses as cancer_type |
| Dataframes.CancerTypeFilterIsNoOp | dataframes.py:20-22 | after cleaning no cancer_type is a sentinel, so the filter at line 82 removes nothing |
| Dataframes.PatientRowsByMonth | dataframes.py:44 | on a month-sorted table a patient's first row is in their earliest dataset month and the last row in their latest |
| Dataframes.FirstBeforeLastAcrossMonths | dataframes.py:67-75 | when a patient's events span two dataset months, first_ts < last_ts on every admissible re-sort |
| Dataframes.TwoEventsOneMonth | dataframes.py:32-42 | two events of one patient less than a month apart both fall in dataset month 0 |
| Dataframes.ReversedWithinMonthIsAdmissible | dataframes.py:44 | listing a patient's later event first inside one month is an admissible re-sort |
| Dataframes.ReversedWithinMonthTreatmentTime | dataframes.py:67-75 | on that order treatment_time is negative, so first_ts ≤ last_ts is not guaranteed within one month |
| Dataframes.CleanedTable | dataframes.py:13-44 | any admissible re-sort of the cleaned, annotated table holds exactly the non-sentinel input events, one row per cleaned event, each with its derived columns and 0 ≤ month_per_patient ≤ all_time_months_passed |
| Dataframes.DataframesScript | dataframes.py:13-82 | data is an admissible month re-sort of the annotated, cleaned events (the same rows with the same multiplicities, ordered by month), so it holds exactly the non-sentinel input events, with 0 ≤ month_per_patient ≤ all_time_months_passed; months_agg and patient_agg are the two aggregations of data, so every lemma about them applies; months_agg has a row exactly for each occurring (month, division) pair, with distinct keys, counts that sum to the rows, each ≥ 1 with first_ts ≤ last_ts; patient_agg has unique patients, each with event_count ≥ 1, start_month 0, treatment_time_months = end_month ≥ 0, non-zero treatment_time and a non-sentinel cancer_type |
| Resources.AnnotatedStaysSorted | resources.py:12-28 | adding the time columns keeps the (patient, timestamp) order |
| Resources.AnnotatedTable | resources.py:12-28 | the annotated table has one row per parsed event, holds exactly those events, and is ordered by (patient, timestamp) |
| Resources.AnnotatedEvent | resources.py:12-28 | an event is in the input exactly when some annotated row carries it |
| Resources.GroupOfKey | resources.py:31-41 | every group row is the aggregate of a (diagnosis, patient) pair that occurs |
| Resources.KeyHasGroup | resources.py:31-41 | every occurring (diagnosis, patient) pair has its group row |
| Resources.GroupColumns | resources.py:36-40 | event_count ≥ 1, patient_diagnosis equals the key's diagnosis, start_month ≤ end_month |
| Resources.FirstLastAreMinMax | resources.py:12 | on the sorted table, first_ts is the group's earliest timestamp and last_ts its latest, both attained |
| Resources.CasesKeys | resources.py:43 | a (diagnosis, patient) group survives line 43 exactly when it occurs and its diagnosis is not "No cancer diagnosed" |
| Resources.UnspecifiedTumorKept | resources.py:43 | "Unspecified tumor" groups survive line 43 |
| Resources.DiagnosisRows | resources.py:45-55 | one output row per surviving group, in order, each built from that group |
| Resources.RowOfAgg | resources.py:45-55 | every output row is built from a surviving group |
| Resources.GroupInAgg | resources.py:45-55 | every surviving group yields an output row |
| Resources.DiagnosisAggKeys | resources.py:31-49 | diagnosis_agg has a row for a pair exactly when the pair occurs, its diagnosis is not "No cancer diagnosed" and its treatment time is not 0 |
| Resources.DiagnosisAggKeysUnique | resources.py:31-49 | no two rows share a (diagnosis, patient) key |
| Resources.AggRowFacts | resources.py:31-51 | one row: its group is the whole group, event_count ≥ 1, patient_diagnosis = diagnosis ≠ "No cancer diagnosed", first_ts < last_ts, 0 ≤ start_month ≤ end_month |
| Resources.DiagnosisAggRows | resources.py:31-51 | every row: whole-group aggregate, event_count ≥ 1, patient_diagnosis = diagnosis ≠ "No cancer diagnosed", last_ts strictly after first_ts, 0 ≤ start_month ≤ end_month, treatment_time_months = end − start |
| Resources.SameBroadcast | resources.py:45-55 | two rows share avg_treatment_time_days; rows of one diagnosis share average_age and avg_treatment_time_months |
| Resources.RowsOfOneDiagnosis | resources.py:45-55 | the broadcast columns depend on a group only through its diagnosis |
| Resources.BroadcastsPerDiagnosis | resources.py:45-55 | over the whole table, avg_treatment_time_days is one value, and average_age and avg_treatment_time_months are one value per diagnosis |
| Resources.GroupAgeBounds | resources.py:37 | a patient's mean age lies within the bounds of the recorded ages |
| Resources.AverageAgeBounds | resources.py:37-45 | average_age lies within any bounds of the recorded ages |
| Resources.DurationSum | resources.py:53 | the sum of last timestamps minus the sum of first timestamps is the sum of durations |
| Resources.MeanDuration | resources.py:53 | the mean of last timestamps minus the mean of first timestamps is the mean duration |
| Resources.LastingDurations | resources.py:48-51 | every surviving group lasts at least one second and spans at least zero months |
| Resources.AverageTreatmentTimes | resources.py:53-55 | avg_treatment_time_days is the mean duration of surviving groups and at least one second; avg_treatment_time_months ≥ 0 |
| Resources.AverageAgeCountsDroppedCases | resources.py:45-55 | with a zero-duration case and a lasting case of one diagnosis, the one surviving row's average_age averages both ages, while avg_treatment_time_months is its own month span |
| Resources.SentinelsSetTheClock | resources.py:24 | for every non-sentinel event, its dataset and patient months in resources.py are at least those in dataframes.py, because the sentinel rows still count toward the minimum |
| Resources.ResourcesScript | resources.py:12-55 | data is the annotated, (patient, timestamp)-sorted input, one row per input event, with 0 ≤ month_per_patient ≤ all_time_months_passed; diagnosis_agg is the aggregation of data, so every lemma about it applies; it has a row exactly for each occurring (diagnosis, patient) key other than "No cancer diagnosed" whose duration is non-zero, with distinct keys; average_age and avg_treatment_time_months agree on rows of one diagnosis and avg_treatment_time_days agrees on all rows; every row has event_count ≥ 1, patient_diagnosis = diagnosis ≠ "No cancer diagnosed", first_ts < last_ts, 0 ≤ start_month ≤ end_month, treatment_time_months ≥ 0, avg_treatment_time_days ≥ 1 s and avg_treatment_time_months ≥ 0 |

## Left out

- app.py is not part of this model (Dash layout, components, web server), nor is the heat map built at resources.py:60-67.
- CSV reading and `pd.to_datetime` (dataframes.py:8-11, resources.py:7-10): the model starts from parsed rows with whole-second integer timestamps. Patient ids are integers, since only their equality and order are used.
- Events.MonthsIn: the source divides as floating point and then truncates. The model divides integers exactly, so float rounding right at a month boundary is not modelled.
- Means are exact rationals (`real`). Floating-point rounding, the `.round(1)` at resources.py:45 and 55, and the standard-deviation columns `age_deviation` (line 46) and `treatment_time_deviation` (line 57) are not modelled.
- The index plumbing of `groupby().apply().reset_index().set_index("level_1")` at dataframes.py:25-30 is modelled only by its result: each row's timestamp minus its patient's earliest one.
- Dataframes.ResortByMonth: the script method takes the stable outcome of the line-44 sort. The patient_agg lemmas hold for every admissible order.
- Dataframes.PatientAggSorted: the single-column sort at line 81 is non-stable. The model takes its stable outcome, which only fixes the order among rows with equal treatment months. The ordering it states holds for every outcome.
- Dataframes.PatientAggRows: does not claim first_ts ≤ last_ts, since "first" and "last" follow the re-sorted order, which is free inside one month. FirstBeforeLastAcrossMonths states what does hold.
- The comparisons with the string "0 days" (dataframes.py:80, resources.py:49) are modelled as comparisons of the duration with zero.
- The in-place column writes (dataframes.py:25-42, 75-78; resources.py:14-28, 45-57) are modelled as table-to-table functions, rebound in order by the two script methods.
- The other tables app.py imports from dataframes (`unit_agg`, `division_by_patient_agg`, `diagnosis_agg`, `gyncancer_data_filtered` and the joined month tables) are not defined in dataframes.py and are not modelled.
- Events.Event: every field is always present. Missing values are not modelled. In pandas a blank CSV field becomes NaN, and then:
  - a NaN diagnosis passes the `!=` filters at dataframes.py:16-22 and resources.py:43;
  - `groupby` drops rows whose key is NaN, so a row with no division is in no months_agg bucket (dataframes.py:47), and a row with no diagnosis is in no diagnosis_agg group (resources.py:31). `MonthsAggCountsSum` then no longer holds for the source;
  - `count` and `mean` skip NaN values (dataframes.py:50-51, 66, 69; resources.py:36-37), so `event_count` can be smaller than the group.
- Degenerate inputs: the model returns tables for an empty input and for an input with a single patient. In the source, the `groupby().apply().reset_index(level=1)` chain (dataframes.py:25-30, resources.py:14-22) most likely fails on both. With a single group, `apply` returns one wide row with no second index level to reset. The model does not capture that failure.
