/**
 * The deadline engine: from the optional submission and issuance instants of
 * a permit project it derives the application-abandonment deadline (180 days
 * after submission, while no permit is issued) or the permit-expiry deadline
 * (365 days after issuance), each with its signed day count, its urgency and
 * overdue flags and the action it asks for; beside it, the filter of the
 * deadlines needing attention and the three-way status of one deadline.
 *
 * Instants are whole milliseconds; the reference instant `now` is a parameter.
 */
module Deadlines {
  import opened Wrappers
  import opened Seqs

  /** Milliseconds since the epoch. */
  type Instant = int

  /** One day in milliseconds: 1000 * 60 * 60 * 24. */
  const DAY: int := 86400000

  const ABANDONMENT_DAYS: int := 180
  const EXPIRY_DAYS: int := 365
  /** An abandonment deadline is urgent within this many days. */
  const ABANDONMENT_WINDOW: int := 30
  /** A permit-expiry deadline is urgent within this many days. */
  const EXPIRY_WINDOW: int := 60

  const CONTACT_OFFICE := "Contact permit office immediately - application may be abandoned"
  const RESPOND_TO_REQUESTS := "Respond to any county requests for information"
  const PERMIT_EXPIRED := "Permit expired - contact office about starting over"
  const REQUEST_EXTENSION := "Request permit extension before expiration"
  const COMPLETE_WORK := "Complete work and schedule final inspection"

  /** The four kinds a deadline record may carry; only the first two are ever produced. */
  datatype DeadlineType = Abandonment | PermitExpiry | Inspection | ResponseDue

  /**
   * The `description` text: a fixed heading followed by the locale rendering of
   * the instant `shown`, which is kept abstract.
   */
  datatype Notice = Notice(heading: string, shown: Instant)

  /** One computed deadline (the `DeadlineCalculation` record). */
  datatype Deadline = Deadline(
    kind: DeadlineType,
    date: Instant,
    daysRemaining: int,
    isUrgent: bool,
    isOverdue: bool,
    description: Notice,
    actionRequired: string)

  /** The three-way classification of one deadline. */
  datatype Status = Urgent | Warning | Normal

  /** `Math.ceil((date - now) / DAY)` on whole milliseconds: the signed number of days left, rounded up. */
  function DaysUntil(date: Instant, now: Instant): (days: int)
    ensures (days - 1) * DAY < date - now <= days * DAY
  {
    -((now - date) / DAY)
  }

  /** The rounding-up day count is the only integer with DaysUntil's bounds. */
  lemma DaysUntilUnique(date: Instant, now: Instant, n: int)
    requires (n - 1) * DAY < date - now <= n * DAY
    ensures DaysUntil(date, now) == n
  {
  }

  /** A later date never has fewer days left. */
  lemma DaysUntilMonotonic(date1: Instant, date2: Instant, now: Instant)
    requires date1 <= date2
    ensures DaysUntil(date1, now) <= DaysUntil(date2, now)
  {
  }

  /** The urgency window of the two kinds the engine produces. */
  function UrgencyWindow(kind: DeadlineType): int
    requires kind == Abandonment || kind == PermitExpiry
  {
    if kind == Abandonment then ABANDONMENT_WINDOW else EXPIRY_WINDOW
  }

  /**
   * The invariant every produced deadline satisfies against `now`: its kind is
   * one the engine produces, its day count is the rounded-up distance from
   * `now` to its date, it is overdue exactly when that count is negative, and
   * urgent exactly when the count is within its kind's window.
   */
  predicate WellFormed(d: Deadline, now: Instant) {
    (d.kind == Abandonment || d.kind == PermitExpiry) &&
    (d.daysRemaining - 1) * DAY < d.date - now <= d.daysRemaining * DAY &&
    (d.isOverdue <==> d.daysRemaining < 0) &&
    (d.isUrgent <==> d.daysRemaining <= UrgencyWindow(d.kind))
  }

  /** The abandonment record built for a submission at `submittedAt`. */
  function AbandonmentDeadline(submittedAt: Instant, now: Instant): (d: Deadline)
    ensures d.kind == Abandonment && d.date == submittedAt + ABANDONMENT_DAYS * DAY
    ensures WellFormed(d, now)
    ensures d.actionRequired == (if d.isOverdue then CONTACT_OFFICE else RESPOND_TO_REQUESTS)
  {
    var date := submittedAt + ABANDONMENT_DAYS * DAY;
    var days := DaysUntil(date, now);
    Deadline(Abandonment, date, days, days <= ABANDONMENT_WINDOW, days < 0,
             Notice("Application abandonment deadline: ", date),
             if days < 0 then CONTACT_OFFICE else RESPOND_TO_REQUESTS)
  }

  /** The expiry record built for a permit issued at `permitIssuedAt`. */
  function ExpiryDeadline(permitIssuedAt: Instant, now: Instant): (d: Deadline)
    ensures d.kind == PermitExpiry && d.date == permitIssuedAt + EXPIRY_DAYS * DAY
    ensures WellFormed(d, now)
    ensures d.actionRequired == (if d.isOverdue then PERMIT_EXPIRED
                                 else if d.isUrgent then REQUEST_EXTENSION
                                 else COMPLETE_WORK)
  {
    var date := permitIssuedAt + EXPIRY_DAYS * DAY;
    var days := DaysUntil(date, now);
    Deadline(PermitExpiry, date, days, days <= EXPIRY_WINDOW, days < 0,
             Notice("Building permit expires: ", date),
             if days < 0 then PERMIT_EXPIRED
             else if days <= EXPIRY_WINDOW then REQUEST_EXTENSION
             else COMPLETE_WORK)
  }

  /**
   * What `calculateDeadlines` returns: the abandonment deadline while the
   * application is submitted but no permit is issued, then the expiry deadline
   * once a permit is issued.
   */
  function Calculated(submittedAt: Option<Instant>, permitIssuedAt: Option<Instant>, now: Instant): seq<Deadline> {
    (if submittedAt.Some? && permitIssuedAt.None? then [AbandonmentDeadline(submittedAt.value, now)] else [])
    + (if permitIssuedAt.Some? then [ExpiryDeadline(permitIssuedAt.value, now)] else [])
  }

  predicate SortedByDate(s: seq<Deadline>) {
    forall i, j :: 0 <= i < j < |s| ==> s[i].date <= s[j].date
  }

  /** An element no later than every element of a sorted list may go in front of it. */
  lemma PrependSorted(x: Deadline, t: seq<Deadline>)
    requires SortedByDate(t)
    requires forall y :: y in t ==> x.date <= y.date
    ensures SortedByDate([x] + t)
  {
    assert forall j :: 0 <= j < |t| ==> ([x] + t)[j + 1] == t[j];
  }

  /** Puts `d` into the date-sorted `s`, before the first element not earlier than it. */
  function InsertByDate(d: Deadline, s: seq<Deadline>): (r: seq<Deadline>)
    requires SortedByDate(s)
    ensures SortedByDate(r)
    ensures forall x :: x in r <==> x in s || x == d
    ensures multiset(r) == multiset(s) + multiset{d}
  {
    if s == [] || d.date <= s[0].date then [d] + s
    else
      var rest := InsertByDate(d, s[1..]);
      assert s == [s[0]] + s[1..];
      ConsInserted(s[0], d, s[1..], rest);
      [s[0]] + rest
  }

  /** The recursive step of InsertByDate: the head of the sorted input goes back in front of the insertion into its tail. */
  lemma ConsInserted(x: Deadline, d: Deadline, t: seq<Deadline>, rest: seq<Deadline>)
    requires SortedByDate([x] + t) && x.date < d.date && SortedByDate(rest)
    requires forall y :: y in rest <==> y in t || y == d
    requires multiset(rest) == multiset(t) + multiset{d}
    ensures SortedByDate([x] + rest)
    ensures forall y :: y in [x] + rest <==> y in [x] + t || y == d
    ensures multiset([x] + rest) == multiset([x] + t) + multiset{d}
  {
    forall y | y in rest ensures x.date <= y.date {
      if y in t {
        var i :| 0 <= i < |t| && t[i] == y;
        assert ([x] + t)[0] == x && ([x] + t)[i + 1] == y;
      }
    }
    PrependSorted(x, rest);
  }

  /** `sort((a, b) => a.date - b.date)`: the deadlines ordered by date, earlier input first on ties. */
  function SortByDate(s: seq<Deadline>): (r: seq<Deadline>)
    ensures SortedByDate(r)
    ensures multiset(r) == multiset(s)
  {
    if s == [] then []
    else
      assert s == [s[0]] + s[1..];
      InsertByDate(s[0], SortByDate(s[1..]))
  }

  /** Sorting an already sorted sequence leaves it as it is. */
  lemma {:induction false} SortSortedUnchanged(s: seq<Deadline>)
    requires SortedByDate(s)
    ensures SortByDate(s) == s
  {
    if s != [] {
      SortSortedUnchanged(s[1..]);
      assert s == [s[0]] + s[1..];
    }
  }

  function HasDate(date: Instant): Deadline -> bool {
    (d: Deadline) => d.date == date
  }

  /** Inserting keeps the relative order of the elements sharing any one date, `d` coming first among its own. */
  lemma {:induction false} InsertByDateStable(d: Deadline, s: seq<Deadline>, date: Instant)
    requires SortedByDate(s)
    ensures Filter(InsertByDate(d, s), HasDate(date))
            == (if d.date == date then [d] else []) + Filter(s, HasDate(date))
  {
    var p := HasDate(date);
    if s == [] || d.date <= s[0].date {
      assert InsertByDate(d, s) == [d] + s;
      FilterCons(d, s, p);
    } else {
      var rest := InsertByDate(d, s[1..]);
      assert InsertByDate(d, s) == [s[0]] + rest;
      assert s == [s[0]] + s[1..];
      InsertByDateStable(d, s[1..], date);
      FilterConsShift(s[0], rest, s[1..], p, if d.date == date then [d] else []);
    }
  }

  /** The sort is stable: the deadlines sharing any one date keep their input order. */
  lemma {:induction false} SortByDateStable(s: seq<Deadline>, date: Instant)
    ensures Filter(SortByDate(s), HasDate(date)) == Filter(s, HasDate(date))
  {
    if s != [] {
      SortByDateStable(s[1..], date);
      InsertByDateStable(s[0], SortByDate(s[1..]), date);
    }
  }

  /**
   * `calculateDeadlines(submittedAt, permitIssuedAt, lastActionAt)` read at
   * the instant `now`. `lastActionAt` is accepted and not used.
   */
  method CalculateDeadlines(submittedAt: Option<Instant>, permitIssuedAt: Option<Instant>,
                            lastActionAt: Option<Instant>, now: Instant)
    returns (deadlines: seq<Deadline>)
    ensures deadlines == Calculated(submittedAt, permitIssuedAt, now)
    ensures SortedByDate(deadlines)
    ensures forall i :: 0 <= i < |deadlines| ==> WellFormed(deadlines[i], now)
  {
    deadlines := [];

    if submittedAt.Some? && permitIssuedAt.None? {
      deadlines := deadlines + [AbandonmentDeadline(submittedAt.value, now)];
    }

    if permitIssuedAt.Some? {
      deadlines := deadlines + [ExpiryDeadline(permitIssuedAt.value, now)];
    }
    CalculatedWellFormed(submittedAt, permitIssuedAt, now);

    SortSortedUnchanged(deadlines);
    deadlines := SortByDate(deadlines);
  }

  /** Every produced deadline is well formed, and the (at most one element) result is in date order. */
  lemma CalculatedWellFormed(submittedAt: Option<Instant>, permitIssuedAt: Option<Instant>, now: Instant)
    ensures var ds := Calculated(submittedAt, permitIssuedAt, now);
      SortedByDate(ds) && forall i :: 0 <= i < |ds| ==> WellFormed(ds[i], now)
  {
  }

  predicate HasKind(ds: seq<Deadline>, kind: DeadlineType) {
    exists i :: 0 <= i < |ds| && ds[i].kind == kind
  }

  /** An abandonment deadline appears exactly when the application is submitted and no permit is issued. */
  lemma CalculatedAbandonmentIff(submittedAt: Option<Instant>, permitIssuedAt: Option<Instant>, now: Instant)
    ensures HasKind(Calculated(submittedAt, permitIssuedAt, now), Abandonment)
            <==> submittedAt.Some? && permitIssuedAt.None?
  {
    var ds := Calculated(submittedAt, permitIssuedAt, now);
    if submittedAt.Some? && permitIssuedAt.None? {
      assert ds[0].kind == Abandonment;
    }
  }

  /** An expiry deadline appears exactly when a permit is issued, whatever the submission. */
  lemma CalculatedExpiryIff(submittedAt: Option<Instant>, permitIssuedAt: Option<Instant>, now: Instant)
    ensures HasKind(Calculated(submittedAt, permitIssuedAt, now), PermitExpiry) <==> permitIssuedAt.Some?
  {
    var ds := Calculated(submittedAt, permitIssuedAt, now);
    if permitIssuedAt.Some? {
      assert ds[0].kind == PermitExpiry;
    }
  }

  /**
   * The two rules exclude each other: at most one deadline, none without
   * inputs, never an inspection or response deadline, and the one produced
   * is dated 180 days after submission or 365 days after issuance.
   */
  lemma CalculatedShape(submittedAt: Option<Instant>, permitIssuedAt: Option<Instant>, now: Instant)
    ensures var ds := Calculated(submittedAt, permitIssuedAt, now);
      |ds| <= 1 &&
      (submittedAt.None? && permitIssuedAt.None? ==> ds == []) &&
      (submittedAt.Some? && permitIssuedAt.None? ==>
         |ds| == 1 && ds[0].date == submittedAt.value + ABANDONMENT_DAYS * DAY) &&
      (permitIssuedAt.Some? ==>
         |ds| == 1 && ds[0].kind == PermitExpiry && ds[0].date == permitIssuedAt.value + EXPIRY_DAYS * DAY) &&
      !HasKind(ds, Inspection) && !HasKind(ds, ResponseDue)
  {
  }

  /** A deadline is overdue exactly when its date is at least one full day before `now`. */
  lemma OverdueMeansFullDayPast(d: Deadline, now: Instant)
    requires WellFormed(d, now)
    ensures d.isOverdue <==> d.date + DAY <= now
  {
  }

  /** A date less than one full day in the past still has 0 days left and is not overdue. */
  lemma DayOfGrace(d: Deadline, now: Instant)
    requires WellFormed(d, now)
    requires now - DAY < d.date <= now
    ensures d.daysRemaining == 0 && !d.isOverdue && d.isUrgent
  {
  }

  /** Every overdue deadline is also urgent. */
  lemma OverdueIsUrgent(d: Deadline, now: Instant)
    requires WellFormed(d, now)
    ensures d.isOverdue ==> d.isUrgent
  {
  }

  /** The condition `getUrgentDeadlines` keeps a deadline on. */
  predicate NeedsAttention(d: Deadline) {
    d.isUrgent || d.isOverdue
  }

  /** `getUrgentDeadlines`: the deadlines that are urgent or overdue, in their input order. */
  function UrgentDeadlines(ds: seq<Deadline>): (r: seq<Deadline>)
    ensures forall d :: d in r <==> d in ds && (d.isUrgent || d.isOverdue)
    ensures IsSubsequence(r, ds)
    ensures forall d :: multiset(r)[d] == if NeedsAttention(d) then multiset(ds)[d] else 0
  {
    var r := Filter(ds, NeedsAttention);
    FilterMultiplicity(ds, NeedsAttention);
    assert forall d :: d in r ==> d in ds && NeedsAttention(d) by {
      forall d | d in r ensures d in ds && NeedsAttention(d) {
        var i :| 0 <= i < |r| && r[i] == d;
      }
    }
    assert forall d :: d in ds && NeedsAttention(d) ==> d in r by {
      forall d | d in ds && NeedsAttention(d) ensures d in r {
        var i :| 0 <= i < |ds| && ds[i] == d;
      }
    }
    r
  }

  /** Filtering the urgent deadlines again changes nothing. */
  lemma UrgentDeadlinesIdempotent(ds: seq<Deadline>)
    ensures UrgentDeadlines(UrgentDeadlines(ds)) == UrgentDeadlines(ds)
  {
    FilterIdempotent(ds, NeedsAttention);
  }

  /** Over well-formed deadlines the filter keeps exactly the urgent ones. */
  lemma UrgentDeadlinesOfWellFormed(ds: seq<Deadline>, now: Instant)
    requires forall i :: 0 <= i < |ds| ==> WellFormed(ds[i], now)
    ensures forall d :: d in UrgentDeadlines(ds) <==> d in ds && d.isUrgent
  {
  }

  /** `getDeadlineStatus`: overdue is urgent, otherwise urgent is a warning, otherwise normal. */
  function DeadlineStatus(d: Deadline): (s: Status)
    ensures s == Urgent <==> d.isOverdue
    ensures s == Normal <==> !NeedsAttention(d)
  {
    if d.isOverdue then Urgent
    else if d.isUrgent then Warning
    else Normal
  }

  /** For a well-formed deadline the status is read off its day count and its kind's window. */
  lemma StatusByDays(d: Deadline, now: Instant)
    requires WellFormed(d, now)
    ensures DeadlineStatus(d) == Urgent <==> d.daysRemaining < 0
    ensures DeadlineStatus(d) == Warning <==> 0 <= d.daysRemaining <= UrgencyWindow(d.kind)
    ensures DeadlineStatus(d) == Normal <==> UrgencyWindow(d.kind) < d.daysRemaining
  {
  }

  /** A deadline of a list is normal exactly when the urgent filter drops it. */
  lemma NormalIffNotUrgentListed(ds: seq<Deadline>, d: Deadline)
    requires d in ds
    ensures DeadlineStatus(d) == Normal <==> d !in UrgentDeadlines(ds)
  {
  }

  /** The action a produced deadline asks for follows its status. */
  lemma ActionFollowsStatus(submittedAt: Option<Instant>, permitIssuedAt: Option<Instant>, now: Instant, d: Deadline)
    requires d in Calculated(submittedAt, permitIssuedAt, now)
    ensures d.kind == Abandonment ==>
              d.actionRequired == (if DeadlineStatus(d) == Urgent then CONTACT_OFFICE else RESPOND_TO_REQUESTS)
    ensures d.kind == PermitExpiry ==>
              d.actionRequired == (match DeadlineStatus(d)
                                   case Urgent => PERMIT_EXPIRED
                                   case Warning => REQUEST_EXTENSION
                                   case Normal => COMPLETE_WORK)
  {
  }

  /** 2024-01-01T00:00:00Z. */
  const JAN_1_2024: Instant := 1704067200000
  /** 2025-01-01T00:00:00Z. */
  const JAN_1_2025: Instant := 1735689600000

  /** Submitted 2025-01-01 and read the same day: abandonment on 2025-06-30, 180 days left, calm. */
  lemma ScenarioFreshSubmission()
    ensures var ds := Calculated(Some(JAN_1_2025), None, JAN_1_2025);
      |ds| == 1 && ds[0].kind == Abandonment && ds[0].date == JAN_1_2025 + 180 * DAY &&
      ds[0].daysRemaining == 180 && !ds[0].isUrgent && !ds[0].isOverdue &&
      DeadlineStatus(ds[0]) == Normal
  {
  }

  /** Issued 2024-01-01 and read 2024-12-20: expiry on 2024-12-31, 11 days left, ask for an extension. */
  lemma ScenarioExpiringPermit()
    ensures var ds := Calculated(None, Some(JAN_1_2024), JAN_1_2024 + 354 * DAY);
      |ds| == 1 && ds[0].kind == PermitExpiry && ds[0].date == JAN_1_2024 + 365 * DAY &&
      ds[0].daysRemaining == 11 && ds[0].isUrgent && !ds[0].isOverdue &&
      ds[0].actionRequired == REQUEST_EXTENSION && DeadlineStatus(ds[0]) == Warning
  {
  }

  /** Submitted 2024-01-01 and read 2024-12-01: abandoned since 2024-06-29, 155 days overdue. */
  lemma ScenarioAbandonedApplication()
    ensures var ds := Calculated(Some(JAN_1_2024), None, JAN_1_2024 + 335 * DAY);
      |ds| == 1 && ds[0].kind == Abandonment && ds[0].date == JAN_1_2024 + 180 * DAY &&
      ds[0].daysRemaining == -155 && ds[0].isUrgent && ds[0].isOverdue &&
      ds[0].actionRequired == CONTACT_OFFICE && DeadlineStatus(ds[0]) == Urgent
  {
  }

  /** Of the three scenarios together, the urgent filter keeps the expiring permit and the abandoned application, in that order. */
  lemma ScenarioUrgentFilter()
    ensures var submitted := Calculated(Some(JAN_1_2025), None, JAN_1_2025);
            var expiring := Calculated(None, Some(JAN_1_2024), JAN_1_2024 + 354 * DAY);
            var abandoned := Calculated(Some(JAN_1_2024), None, JAN_1_2024 + 335 * DAY);
            UrgentDeadlines(submitted + expiring + abandoned) == expiring + abandoned
  {
    var submitted := Calculated(Some(JAN_1_2025), None, JAN_1_2025);
    var expiring := Calculated(None, Some(JAN_1_2024), JAN_1_2024 + 354 * DAY);
    var abandoned := Calculated(Some(JAN_1_2024), None, JAN_1_2024 + 335 * DAY);
    ScenarioFreshSubmission();
    ScenarioExpiringPermit();
    ScenarioAbandonedApplication();
    FilterAppend(submitted + expiring, abandoned, NeedsAttention);
    FilterAppend(submitted, expiring, NeedsAttention);
    FilterKeepsAll(expiring, NeedsAttention);
    FilterKeepsAll(abandoned, NeedsAttention);
    assert Filter(submitted, NeedsAttention) == [];
  }
}
