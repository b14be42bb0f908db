/** The figures the attendance page computes from the attendance records:
    the overall summary (records, present, absent, rate) and the per-day
    groups, newest day first. */
module AttendanceStats {
  import opened Schema
  import opened Ordering

  /** Whether `a` is counted: every record when `presentOnly` is false,
      only the present ones otherwise. */
  function Counted(a: Attendance, presentOnly: bool): nat {
    if !presentOnly || a.isPresent then 1 else 0
  }

  /** Number of records, or of present records, that fall on day `d`. */
  function CountOn(rs: seq<Attendance>, d: Day, presentOnly: bool): (n: nat)
    ensures n <= |rs|
  {
    if rs == [] then 0
    else CountOn(rs[..|rs| - 1], d, presentOnly) + if rs[|rs| - 1].date == d then Counted(rs[|rs| - 1], presentOnly) else 0
  }

  /** `records.filter(record => record.isPresent).length`. */
  function PresentCount(rs: seq<Attendance>): (n: nat)
    ensures n <= |rs|
  {
    if rs == [] then 0
    else PresentCount(rs[..|rs| - 1]) + if rs[|rs| - 1].isPresent then 1 else 0
  }

  /** The absent records, counted on their own. */
  function AbsentCount(rs: seq<Attendance>): (n: nat)
    ensures n <= |rs|
  {
    if rs == [] then 0
    else AbsentCount(rs[..|rs| - 1]) + if rs[|rs| - 1].isPresent then 0 else 1
  }

  /** The page's `absentCount = totalRecords - presentCount` is the number
      of absent records. */
  lemma {:induction false} AbsentIsTotalMinusPresent(rs: seq<Attendance>)
    ensures AbsentCount(rs) == |rs| - PresentCount(rs)
  {
    if rs != [] {
      AbsentIsTotalMinusPresent(rs[..|rs| - 1]);
    }
  }

  /** Percentage of `part` in `whole`, 0 when there is nothing to count. */
  function Rate(part: nat, whole: nat): (r: real)
    ensures whole == 0 ==> r == 0.0
    ensures part <= whole ==> 0.0 <= r <= 100.0
    ensures whole > 0 ==> (r == 100.0 <==> part == whole)
    ensures whole > 0 ==> (r == 0.0 <==> part == 0)
  {
    if whole > 0 then (part as real / whole as real) * 100.0 else 0.0
  }

  datatype Summary = Summary(total: nat, present: nat, absent: int, rate: real)

  /** The four cards at the top of the page. */
  function Summarize(rs: seq<Attendance>): (s: Summary)
    ensures s.total == |rs| && s.present == PresentCount(rs)
    ensures s.absent == AbsentCount(rs) && s.present + s.absent == s.total
    ensures 0.0 <= s.rate <= 100.0
    ensures s.total == 0 ==> s.rate == 0.0
    ensures s.total > 0 ==> (s.rate == 100.0 <==> s.absent == 0)
    ensures s.rate == Rate(s.present, s.total)
  {
    AbsentIsTotalMinusPresent(rs);
    var total := |rs|;
    var present := PresentCount(rs);
    Summary(total, present, total - present, Rate(present, total))
  }

  // ---------------------------------------------------------------------
  // Grouping by day
  // ---------------------------------------------------------------------

  /** The days of the records, each once, in order of first appearance:
      the key order of the object the page's `reduce` builds. */
  function Dates(rs: seq<Attendance>): (ds: seq<Day>)
  {
    if rs == [] then []
    else
      var prev := Dates(rs[..|rs| - 1]);
      if rs[|rs| - 1].date in prev then prev else prev + [rs[|rs| - 1].date]
  }

  lemma {:induction false} DatesAreTheRecordsDays(rs: seq<Attendance>)
    ensures forall d :: d in Dates(rs) <==> exists i | 0 <= i < |rs| :: rs[i].date == d
    ensures forall i, j | 0 <= i < j < |Dates(rs)| :: Dates(rs)[i] != Dates(rs)[j]
  {
    if rs != [] {
      var init := rs[..|rs| - 1];
      DatesAreTheRecordsDays(init);
      forall d ensures d in Dates(rs) <==> exists i | 0 <= i < |rs| :: rs[i].date == d {
        if d in Dates(rs) && d != rs[|rs| - 1].date {
          var i :| 0 <= i < |init| && init[i].date == d;
          assert rs[i].date == d;
        }
        if exists i | 0 <= i < |rs| :: rs[i].date == d {
          var i :| 0 <= i < |rs| && rs[i].date == d;
          if i < |init| { assert init[i].date == d; }
        }
      }
    }
  }

  lemma {:induction false} RecordDayHasGroup(rs: seq<Attendance>, i: nat)
    requires i < |rs|
    ensures rs[i].date in Dates(rs)
  {
    if i < |rs| - 1 {
      RecordDayHasGroup(rs[..|rs| - 1], i);
    }
  }

  /** A day with a group has at least one record. */
  lemma {:induction false} GroupsAreNonEmpty(rs: seq<Attendance>, d: Day)
    ensures d in Dates(rs) ==> CountOn(rs, d, false) >= 1
    ensures d !in Dates(rs) ==> CountOn(rs, d, false) == 0 && CountOn(rs, d, true) == 0
  {
    if rs != [] {
      GroupsAreNonEmpty(rs[..|rs| - 1], d);
    }
  }

  lemma {:induction false} PresentWithinGroup(rs: seq<Attendance>, d: Day)
    ensures CountOn(rs, d, true) <= CountOn(rs, d, false)
  {
    if rs != [] {
      PresentWithinGroup(rs[..|rs| - 1], d);
    }
  }

  /** Counting one more record of the sequence changes only its day's
      counts, and adds its day to the days if it is new. */
  lemma CountOnExtends(rs: seq<Attendance>, i: nat)
    requires i < |rs|
    ensures Dates(rs[..i + 1]) == if rs[i].date in Dates(rs[..i]) then Dates(rs[..i]) else Dates(rs[..i]) + [rs[i].date]
    ensures forall d, presentOnly :: CountOn(rs[..i + 1], d, presentOnly)
              == CountOn(rs[..i], d, presentOnly) + if rs[i].date == d then Counted(rs[i], presentOnly) else 0
  {
    assert rs[..i + 1][..i] == rs[..i];
  }

  datatype DayStats = DayStats(total: nat, present: nat)

  /** The page's `reduce`: one pass over the records, creating a group the
      first time a day is seen and counting the record into it. */
  method GroupByDate(rs: seq<Attendance>) returns (order: seq<Day>, stats: map<Day, DayStats>)
    ensures order == Dates(rs)
    ensures forall d :: d in stats <==> d in order
    ensures forall d | d in stats :: stats[d] == DayStats(CountOn(rs, d, false), CountOn(rs, d, true))
  {
    order, stats := [], map[];
    var i := 0;
    while i < |rs|
      invariant 0 <= i <= |rs|
      invariant order == Dates(rs[..i])
      invariant forall d :: d in stats <==> d in order
      invariant forall d | d in stats :: stats[d] == DayStats(CountOn(rs[..i], d, false), CountOn(rs[..i], d, true))
    {
      var record := rs[i];
      CountOnExtends(rs, i);
      var day := DayStats(0, 0);
      if record.date in stats {
        day := stats[record.date];
      } else {
        GroupsAreNonEmpty(rs[..i], record.date);
        order := order + [record.date];
      }
      day := day.(total := day.total + 1);
      if record.isPresent {
        day := day.(present := day.present + 1);
      }
      stats := stats[record.date := day];
      assert order == Dates(rs[..i + 1]);
      forall d | d in stats
        ensures stats[d] == DayStats(CountOn(rs[..i + 1], d, false), CountOn(rs[..i + 1], d, true))
      {
      }
      i := i + 1;
    }
    assert rs[..i] == rs;
  }

  /** One row of the per-day table. */
  datatype DateEntry = DateEntry(date: Day, total: nat, present: nat, rate: real)

  function EntryDate(e: DateEntry): Day { e.date }

  /** The entry of day `d`: its record count, its present count and their
      percentage. */
  function EntryOn(rs: seq<Attendance>, d: Day): (e: DateEntry)
    ensures e.date == d && e.total == CountOn(rs, d, false) && e.present == CountOn(rs, d, true)
    ensures e.present <= e.total && 0.0 <= e.rate <= 100.0
    ensures d in Dates(rs) ==> e.total >= 1
  {
    GroupsAreNonEmpty(rs, d);
    PresentWithinGroup(rs, d);
    var total := CountOn(rs, d, false);
    var present := CountOn(rs, d, true);
    DateEntry(d, total, present, Rate(present, total))
  }

  /** The `map` callback: a group's counts and its percentage. */
  function DayEntry(date: Day, s: DayStats): (e: DateEntry)
    requires s.total >= 1
    ensures e.date == date && e.total == s.total && e.present == s.present
    ensures e.rate == Rate(s.present, s.total)
  {
    DateEntry(date, s.total, s.present, (s.present as real / s.total as real) * 100.0)
  }

  function DayEntries(order: seq<Day>, stats: map<Day, DayStats>): (r: seq<DateEntry>)
    requires forall i | 0 <= i < |order| :: order[i] in stats && stats[order[i]].total >= 1
    ensures |r| == |order|
    ensures forall i | 0 <= i < |order| :: r[i] == DayEntry(order[i], stats[order[i]])
  {
    if order == [] then []
    else [DayEntry(order[0], stats[order[0]])] + DayEntries(order[1..], stats)
  }

  /** `Object.entries(...).map(...).sort(...)`: one entry per day, newest
      day first. */
  method AttendanceByDate(rs: seq<Attendance>) returns (entries: seq<DateEntry>)
    ensures SortedBy(entries, EntryDate, Descending)
    ensures |entries| == |Dates(rs)|
    ensures forall i | 0 <= i < |entries| :: entries[i].date in Dates(rs) && entries[i] == EntryOn(rs, entries[i].date)
    ensures forall i | 0 <= i < |rs| :: EntryOn(rs, rs[i].date) in entries
  {
    var order, stats := GroupByDate(rs);
    forall i | 0 <= i < |order| ensures stats[order[i]].total >= 1 {
      GroupsAreNonEmpty(rs, order[i]);
    }
    var unsorted := DayEntries(order, stats);
    assert forall i | 0 <= i < |order| :: unsorted[i] == EntryOn(rs, order[i]);
    entries := SortBy(unsorted, EntryDate, Descending);
    EntriesAreDays(rs, order, unsorted, entries);
    DaysHaveEntries(rs, order, unsorted, entries);
  }

  /** Each sorted entry is the entry of one of the days. */
  lemma {:induction false} EntriesAreDays(rs: seq<Attendance>, order: seq<Day>, unsorted: seq<DateEntry>, entries: seq<DateEntry>)
    requires order == Dates(rs) && |unsorted| == |order|
    requires forall i | 0 <= i < |order| :: unsorted[i] == EntryOn(rs, order[i])
    requires multiset(entries) == multiset(unsorted)
    ensures forall i | 0 <= i < |entries| :: entries[i].date in Dates(rs) && entries[i] == EntryOn(rs, entries[i].date)
  {
    forall i | 0 <= i < |entries| ensures entries[i].date in Dates(rs) && entries[i] == EntryOn(rs, entries[i].date) {
      assert entries[i] in multiset(unsorted);
      var j :| 0 <= j < |unsorted| && unsorted[j] == entries[i];
      assert entries[i].date == order[j];
    }
  }

  /** Every record's day has its entry among the sorted entries. */
  lemma {:induction false} DaysHaveEntries(rs: seq<Attendance>, order: seq<Day>, unsorted: seq<DateEntry>, entries: seq<DateEntry>)
    requires order == Dates(rs) && |unsorted| == |order|
    requires forall i | 0 <= i < |order| :: unsorted[i] == EntryOn(rs, order[i])
    requires multiset(entries) == multiset(unsorted)
    ensures forall i | 0 <= i < |rs| :: EntryOn(rs, rs[i].date) in entries
  {
    forall i | 0 <= i < |rs| ensures EntryOn(rs, rs[i].date) in entries {
      RecordDayHasGroup(rs, i);
      var j :| 0 <= j < |order| && order[j] == rs[i].date;
      assert unsorted[j] in multiset(entries);
    }
  }

  // ---------------------------------------------------------------------
  // The groups partition the records
  // ---------------------------------------------------------------------

  /** Sum of the counts of the days `ds`. */
  function SumOn(rs: seq<Attendance>, ds: seq<Day>, presentOnly: bool): nat {
    if ds == [] then 0 else SumOn(rs, ds[..|ds| - 1], presentOnly) + CountOn(rs, ds[|ds| - 1], presentOnly)
  }

  /** How many of `ds` equal `d`. */
  function Occurrences(ds: seq<Day>, d: Day): nat {
    if ds == [] then 0 else Occurrences(ds[..|ds| - 1], d) + if ds[|ds| - 1] == d then 1 else 0
  }

  lemma {:induction false} SumOnSnoc(rs: seq<Attendance>, a: Attendance, ds: seq<Day>, presentOnly: bool)
    ensures SumOn(rs + [a], ds, presentOnly) == SumOn(rs, ds, presentOnly) + Occurrences(ds, a.date) * Counted(a, presentOnly)
  {
    assert (rs + [a])[..|rs + [a]| - 1] == rs;
    if ds != [] {
      SumOnSnoc(rs, a, ds[..|ds| - 1], presentOnly);
    }
  }

  lemma {:induction false} OccurrencesOfDistinct(ds: seq<Day>, d: Day)
    requires forall i, j | 0 <= i < j < |ds| :: ds[i] != ds[j]
    ensures Occurrences(ds, d) == if d in ds then 1 else 0
  {
    if ds != [] {
      var init := ds[..|ds| - 1];
      assert ds == init + [ds[|ds| - 1]];
      OccurrencesOfDistinct(init, d);
    }
  }

  lemma {:induction false} SumOnAppend(rs: seq<Attendance>, ds: seq<Day>, d: Day, presentOnly: bool)
    ensures SumOn(rs, ds + [d], presentOnly) == SumOn(rs, ds, presentOnly) + CountOn(rs, d, presentOnly)
  {
    assert (ds + [d])[..|ds + [d]| - 1] == ds;
  }

  /** Every record lies in exactly one group: the groups' totals add up to
      the number of records and their present counts to the present count. */
  lemma {:induction false} GroupsPartitionRecords(rs: seq<Attendance>)
    ensures SumOn(rs, Dates(rs), false) == |rs|
    ensures SumOn(rs, Dates(rs), true) == PresentCount(rs)
  {
    if rs != [] {
      var init := rs[..|rs| - 1];
      var a := rs[|rs| - 1];
      assert rs == init + [a];
      GroupsPartitionRecords(init);
      DatesAreTheRecordsDays(init);
      OccurrencesOfDistinct(Dates(init), a.date);
      SumOnSnoc(init, a, Dates(init), false);
      SumOnSnoc(init, a, Dates(init), true);
      if a.date !in Dates(init) {
        GroupsAreNonEmpty(init, a.date);
        SumOnAppend(rs, Dates(init), a.date, false);
        SumOnAppend(rs, Dates(init), a.date, true);
      }
    }
  }
}
