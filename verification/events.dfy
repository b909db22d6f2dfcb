/** One row of the raw clinical event table, after CSV parsing, and the
    scalar rules both scripts share: the two sentinel diagnoses, the
    truncating month conversion, and the orders the tables are sorted by. */
module Events {
  import opened Collections

  /** A parsed event row. `timestamp` is in whole seconds; the patient id is
      modelled as an integer since only its equality and order are used. */
  datatype Event = Event(
    patientId: int,
    eventId: int,
    timestamp: int,
    diagnosis: string,
    division: string,
    unit: string,
    age: int)

  const NoCancerDiagnosed: string := "No cancer diagnosed"
  const UnspecifiedTumor: string := "Unspecified tumor"

  /** `np.timedelta64(1, "M")`: the average Gregorian month, 30.436875 days. */
  const SecondsPerMonth: int := 2629746

  /** `(d / np.timedelta64(1, "M")).astype(int)`: a duration in whole months,
      with the fraction cut off toward zero. */
  function MonthsIn(d: int): (m: int)
    ensures 0 <= d ==> 0 <= m && m * SecondsPerMonth <= d < (m + 1) * SecondsPerMonth
    ensures d < 0 ==> m <= 0 && (m - 1) * SecondsPerMonth < d <= m * SecondsPerMonth
  {
    if d >= 0 then d / SecondsPerMonth else -((-d) / SecondsPerMonth)
  }

  /** Truncation never moves a later duration into an earlier month. */
  lemma MonthsInMonotone(a: int, b: int)
    requires 0 <= a <= b
    ensures MonthsIn(a) <= MonthsIn(b)
  {
  }

  /** The worked values: 29 days is month 0, 31 and 60 days are month 1. */
  lemma MonthsInExamples()
    ensures MonthsIn(29 * 86400) == 0
    ensures MonthsIn(31 * 86400) == 1
    ensures MonthsIn(60 * 86400) == 1
    ensures MonthsIn(61 * 86400) == 2
  {
  }

  // ---------------------------------------------------------------------------
  // Orders
  // ---------------------------------------------------------------------------

  /** `sort_values(["patient.id", "event.timestamp"])`. */
  function PatientTimeLe(a: Event, b: Event): bool {
    a.patientId < b.patientId || (a.patientId == b.patientId && a.timestamp <= b.timestamp)
  }

  lemma PatientTimeTotal()
    ensures TotalPreorder(PatientTimeLe)
  {
  }

  /** The first step of both scripts: a stable multi-column sort, so rows with
      equal patient and timestamp keep their input order. */
  function SortByPatientTime(es: seq<Event>): (r: seq<Event>)
    ensures |r| == |es| && multiset(r) == multiset(es)
    ensures SortedBy(r, PatientTimeLe)
  {
    PatientTimeTotal();
    InsertionSort(es, PatientTimeLe)
  }

  /** Python's `str` order: code point by code point, a proper prefix first. */
  predicate StringLess(a: string, b: string) {
    if |a| == 0 then |b| > 0
    else if |b| == 0 then false
    else a[0] < b[0] || (a[0] == b[0] && StringLess(a[1..], b[1..]))
  }

  lemma {:induction false} StringLessIrreflexive(a: string)
    ensures !StringLess(a, a)
  {
    if |a| > 0 { StringLessIrreflexive(a[1..]); }
  }

  lemma {:induction false} StringLessTransitive(a: string, b: string, c: string)
    requires StringLess(a, b) && StringLess(b, c)
    ensures StringLess(a, c)
  {
    if |a| > 0 && |b| > 0 && |c| > 0 && a[0] == b[0] == c[0] {
      StringLessTransitive(a[1..], b[1..], c[1..]);
    }
  }

  lemma {:induction false} StringLessTotal(a: string, b: string)
    ensures a == b || StringLess(a, b) || StringLess(b, a)
  {
    if |a| > 0 && |b| > 0 && a[0] == b[0] {
      StringLessTotal(a[1..], b[1..]);
      if a[1..] == b[1..] {
        assert a == [a[0]] + a[1..] && b == [b[0]] + b[1..];
      }
    }
  }

  /** The ascending order of two-level group keys whose second level is an
      integer and whose first level is text, as `groupby` sorts them. */
  function TextIntLess(a: (string, int), b: (string, int)): bool {
    StringLess(a.0, b.0) || (a.0 == b.0 && a.1 < b.1)
  }

  /** The ascending order of (integer, text) group keys. */
  function IntTextLess(a: (int, string), b: (int, string)): bool {
    a.0 < b.0 || (a.0 == b.0 && StringLess(a.1, b.1))
  }

  function IntLess(a: int, b: int): bool {
    a < b
  }

  lemma TextIntOrder()
    ensures StrictTotalOrder(TextIntLess)
  {
    forall a: (string, int) ensures !TextIntLess(a, a) {
      StringLessIrreflexive(a.0);
    }
    forall a: (string, int), b: (string, int), c: (string, int) | TextIntLess(a, b) && TextIntLess(b, c)
      ensures TextIntLess(a, c)
    {
      if StringLess(a.0, b.0) && StringLess(b.0, c.0) {
        StringLessTransitive(a.0, b.0, c.0);
      }
    }
    forall a: (string, int), b: (string, int) ensures a == b || TextIntLess(a, b) || TextIntLess(b, a) {
      StringLessTotal(a.0, b.0);
    }
  }

  lemma IntTextOrder()
    ensures StrictTotalOrder(IntTextLess)
  {
    forall a: (int, string) ensures !IntTextLess(a, a) {
      StringLessIrreflexive(a.1);
    }
    forall a: (int, string), b: (int, string), c: (int, string) | IntTextLess(a, b) && IntTextLess(b, c)
      ensures IntTextLess(a, c)
    {
      if a.0 == b.0 == c.0 {
        StringLessTransitive(a.1, b.1, c.1);
      }
    }
    forall a: (int, string), b: (int, string) ensures a == b || IntTextLess(a, b) || IntTextLess(b, a) {
      StringLessTotal(a.1, b.1);
    }
  }

  lemma IntOrder()
    ensures StrictTotalOrder(IntLess)
  {
  }
}
