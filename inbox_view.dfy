/** The client's `filteredEmails` view: the tab filter, the case-insensitive
    search, the day window and the newest-first sort, applied to the record
    list in that order. The clock reading `now` is a parameter. */
module InboxView {
  import opened Mail
  import opened Text

  /** The view settings the pipeline reads: the active tab, the search box
      text and the selected time range ("1d", "7d", "14d" or "30d"). */
  datatype ViewFilter = ViewFilter(activeTab: string, searchQuery: string, timeRange: string)

  /** Milliseconds in a day, `1000 * 60 * 60 * 24`. */
  const DayMs: nat := 86_400_000

  function Abs(x: int): nat {
    if x < 0 then -x else x
  }

  /** `Math.ceil(a / d)` on non-negative integers. */
  function CeilDiv(a: nat, d: nat): (q: nat)
    requires d > 0
    ensures q * d >= a
    ensures q == 0 || (q - 1) * d < a
  {
    (a + d - 1) / d
  }

  /** Whole days, rounded up, between the record's time and `now`, in either direction. */
  function DiffDays(now: int, timestamp: int): nat {
    CeilDiv(Abs(now - timestamp), DayMs)
  }

  /** The window length in days that a time range selects; any other text selects none. */
  function WindowDays(timeRange: string): Option<nat> {
    if timeRange == "1d" then Some(1)
    else if timeRange == "7d" then Some(7)
    else if timeRange == "14d" then Some(14)
    else if timeRange == "30d" then Some(30)
    else None
  }

  predicate PassesTab(e: Email, pinnedIds: set<string>, activeTab: string) {
    activeTab != "Pinned" || e.id in pinnedIds
  }

  /** An empty query is falsy and lets every record through; otherwise the
      lower-cased query must occur in one of the four lower-cased fields. */
  predicate PassesSearch(e: Email, query: string) {
    query == "" ||
    var q := Lower(query);
    Includes(Lower(e.subject), q) || Includes(Lower(e.sender.name), q) ||
    Includes(Lower(e.sender.email), q) || Includes(Lower(e.body), q)
  }

  predicate PassesWindow(e: Email, timeRange: string, now: int) {
    match WindowDays(timeRange)
    case None => true
    case Some(n) => DiffDays(now, e.timestamp) <= n
  }

  predicate Keep(e: Email, pinnedIds: set<string>, f: ViewFilter, now: int) {
    && PassesTab(e, pinnedIds, f.activeTab)
    && PassesSearch(e, f.searchQuery)
    && PassesWindow(e, f.timeRange, now)
  }

  /** The `filter` stage: the records to show, in list order. */
  function Select(emails: seq<Email>, pinnedIds: set<string>, f: ViewFilter, now: int): (r: seq<Email>)
    ensures forall e :: e in r <==> e in emails && Keep(e, pinnedIds, f, now)
    ensures multiset(r) <= multiset(emails)
  {
    if emails == [] then []
    else
      assert emails == [emails[0]] + emails[1..];
      var rest := Select(emails[1..], pinnedIds, f, now);
      if Keep(emails[0], pinnedIds, f, now) then [emails[0]] + rest else rest
  }

  /** The filter keeps the records it keeps in list order, one copy for each
      copy in the list: it distributes over concatenation. */
  lemma {:induction false} SelectAppend(a: seq<Email>, b: seq<Email>, pinnedIds: set<string>, f: ViewFilter, now: int)
    ensures Select(a + b, pinnedIds, f, now) == Select(a, pinnedIds, f, now) + Select(b, pinnedIds, f, now)
  {
    if a == [] {
      assert a + b == b;
    } else {
      assert (a + b)[0] == a[0];
      assert (a + b)[1..] == a[1..] + b;
      SelectAppend(a[1..], b, pinnedIds, f, now);
    }
  }

  /** One record is kept exactly when it passes every stage. */
  lemma SelectSingle(e: Email, pinnedIds: set<string>, f: ViewFilter, now: int)
    ensures Select([e], pinnedIds, f, now) == if Keep(e, pinnedIds, f, now) then [e] else []
  {
  }

  /** `filteredEmails`. */
  function FilteredEmails(emails: seq<Email>, pinnedIds: set<string>, f: ViewFilter, now: int): (r: seq<Email>)
    ensures NewestFirst(r)
    ensures multiset(r) == multiset(Select(emails, pinnedIds, f, now))
  {
    SortNewestFirst(Select(emails, pinnedIds, f, now))
  }

  // ---------------------------------------------------------------------
  // What the view promises

  /** A record is shown if and only if it is in the list and passes each stage,
      where the search stage means: the query is empty or the lower-cased query
      is a substring of the lower-cased subject, sender name, sender address or body. */
  lemma ViewMembership(emails: seq<Email>, pinnedIds: set<string>, f: ViewFilter, now: int, e: Email)
    ensures e in FilteredEmails(emails, pinnedIds, f, now) <==>
      && e in emails
      && (f.activeTab != "Pinned" || e.id in pinnedIds)
      && (f.searchQuery == ""
          || HasSubstring(Lower(e.subject), Lower(f.searchQuery))
          || HasSubstring(Lower(e.sender.name), Lower(f.searchQuery))
          || HasSubstring(Lower(e.sender.email), Lower(f.searchQuery))
          || HasSubstring(Lower(e.body), Lower(f.searchQuery)))
      && PassesWindow(e, f.timeRange, now)
  {
    var q := Lower(f.searchQuery);
    IncludesIff(Lower(e.subject), q);
    IncludesIff(Lower(e.sender.name), q);
    IncludesIff(Lower(e.sender.email), q);
    IncludesIff(Lower(e.body), q);
    var sel := Select(emails, pinnedIds, f, now);
    var view := FilteredEmails(emails, pinnedIds, f, now);
    assert e in view <==> e in multiset(view);
    assert e in sel <==> e in multiset(sel);
    assert e in sel <==> e in emails && Keep(e, pinnedIds, f, now);
  }

  /** The day window: a record is excluded exactly when it lies more than the
      window's number of whole days away from `now`, in the past or the future. */
  lemma {:induction false} WindowIsDistance(e: Email, timeRange: string, now: int, n: nat)
    requires WindowDays(timeRange) == Some(n)
    ensures PassesWindow(e, timeRange, now) <==> Abs(now - e.timestamp) <= n * DayMs
  {
    var a := Abs(now - e.timestamp);
    var q := DiffDays(now, e.timestamp);
    if q <= n {
      assert q * DayMs <= n * DayMs by { MulMono(q, n, DayMs); }
    } else {
      assert (q - 1) * DayMs < a;
      assert n * DayMs <= (q - 1) * DayMs by { MulMono(n, q - 1, DayMs); }
    }
  }

  lemma MulMono(a: nat, b: nat, c: nat)
    requires a <= b
    ensures a * c <= b * c
  {
  }

  /** A time range other than the four windows lets every record through. */
  lemma OtherRangesKeepAll(e: Email, timeRange: string, now: int)
    requires timeRange !in {"1d", "7d", "14d", "30d"}
    ensures PassesWindow(e, timeRange, now)
  {
  }

  /** The view is a reordering of a sub-list of the records: nothing is
      added, duplicated or altered. */
  lemma ViewIsReorderedSublist(emails: seq<Email>, pinnedIds: set<string>, f: ViewFilter, now: int)
    ensures multiset(FilteredEmails(emails, pinnedIds, f, now)) <= multiset(emails)
    ensures forall e :: e in FilteredEmails(emails, pinnedIds, f, now) ==> e in emails
  {
    var r := FilteredEmails(emails, pinnedIds, f, now);
    forall e | e in r ensures e in emails {
      assert e in multiset(r);
    }
  }

  /** Records with the same timestamp appear in the view in list order. */
  lemma ViewIsStable(emails: seq<Email>, pinnedIds: set<string>, f: ViewFilter, now: int, t: int)
    ensures WithTimestamp(FilteredEmails(emails, pinnedIds, f, now), t)
         == WithTimestamp(Select(emails, pinnedIds, f, now), t)
  {
    SortIsStable(Select(emails, pinnedIds, f, now), t);
  }

  /** With an empty query the search stage is a no-op: the view is the
      tab- and window-filtered list, sorted. */
  lemma {:induction false} EmptyQueryIsNoOp(emails: seq<Email>, pinnedIds: set<string>, f: ViewFilter, now: int)
    requires f.searchQuery == ""
    ensures Select(emails, pinnedIds, f, now)
         == TabAndWindow(emails, pinnedIds, f.activeTab, f.timeRange, now)
  {
    if emails != [] {
      EmptyQueryIsNoOp(emails[1..], pinnedIds, f, now);
    }
  }

  function TabAndWindow(emails: seq<Email>, pinnedIds: set<string>, activeTab: string, timeRange: string, now: int): seq<Email> {
    if emails == [] then []
    else
      var rest := TabAndWindow(emails[1..], pinnedIds, activeTab, timeRange, now);
      if PassesTab(emails[0], pinnedIds, activeTab) && PassesWindow(emails[0], timeRange, now)
      then [emails[0]] + rest else rest
  }
}
