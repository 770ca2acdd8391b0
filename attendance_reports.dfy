/** The admin attendance breakdowns (GET /reports-analytics/college,
    /department, /course and /subject in routes/adminRoutes.js). Each is one
    aggregation pipeline: join every attendance record through `$lookup`s,
    drop the records a `$lookup` finds nothing for (`$unwind`), group by the
    last joined document, count the records and the `present`/`absent` ones,
    average a 0/1 presence indicator, and sort by that average, highest
    first. The four routes differ only in how far the join goes. */
module AttendanceReports {
  import opened Common
  import opened Models

  // ------------------------------------------------------------------ joins

  /** The collections the pipelines join with. */
  datatype Catalog = Catalog(
    users: seq<User>,
    courses: seq<Course>,
    departments: seq<Department>,
    colleges: seq<College>,
    subjects: seq<Subject>)

  /** Which document a breakdown groups by. */
  datatype Level = ByCollege | ByDepartment | ByCourse | BySubject

  /** The `_id` and `name` of the document a record is grouped under. */
  datatype GroupKey = GroupKey(id: Id, name: string)

  // A `$lookup` on `_id` followed by `$unwind` yields, since `_id` is unique,
  // the one matching document (`FirstMatch` on the id), or nothing, and the
  // record is then dropped.

  /** record -> student -> the student's course. A student without a course
      joins nothing (no course has a null `_id`). */
  function CourseOfRecord(c: Catalog, r: Attendance): Option<Course> {
    match FirstMatch(c.users, (u: User) => u.id == r.student)
    case None => None
    case Some(u) =>
      match u.course
      case None => None
      case Some(courseId) => FirstMatch(c.courses, (x: Course) => x.id == courseId)
  }

  /** ... -> the course's department. */
  function DepartmentOfRecord(c: Catalog, r: Attendance): Option<Department> {
    match CourseOfRecord(c, r)
    case None => None
    case Some(course) => FirstMatch(c.departments, (x: Department) => x.id == course.department)
  }

  /** ... -> the department's college. */
  function CollegeOfRecord(c: Catalog, r: Attendance): Option<College> {
    match DepartmentOfRecord(c, r)
    case None => None
    case Some(d) => FirstMatch(c.colleges, (x: College) => x.id == d.college)
  }

  /** The group a record falls in at `level`, or nothing when a lookup on
      the way finds nothing. */
  function GroupKeyOf(c: Catalog, r: Attendance, level: Level): Option<GroupKey> {
    match level
    case BySubject =>
      (match FirstMatch(c.subjects, (x: Subject) => x.id == r.subject)
       case Some(s) => Some(GroupKey(s.id, s.name))
       case None => None)
    case ByCourse =>
      (match CourseOfRecord(c, r)
       case Some(x) => Some(GroupKey(x.id, x.name))
       case None => None)
    case ByDepartment =>
      (match DepartmentOfRecord(c, r)
       case Some(x) => Some(GroupKey(x.id, x.name))
       case None => None)
    case ByCollege =>
      (match CollegeOfRecord(c, r)
       case Some(x) => Some(GroupKey(x.id, x.name))
       case None => None)
  }

  /** A record after the joins: its group and its status. */
  datatype Entry = Entry(key: GroupKey, status: AttendanceStatus)

  /** The stream that reaches `$group`, in the collection's order. */
  function Entries(c: Catalog, records: seq<Attendance>, level: Level): seq<Entry>
    decreases |records|
  {
    if records == [] then []
    else
      var head := match GroupKeyOf(c, records[0], level)
                  case Some(k) => [Entry(k, records[0].status)]
                  case None => [];
      head + Entries(c, records[1..], level)
  }

  /** How many records survive every join at `level`. */
  function Matched(c: Catalog, records: seq<Attendance>, level: Level): nat
    decreases |records|
  {
    if records == [] then 0
    else (if GroupKeyOf(c, records[0], level).Some? then 1 else 0) + Matched(c, records[1..], level)
  }

  lemma {:induction false} EntriesAreMatched(c: Catalog, records: seq<Attendance>, level: Level)
    ensures |Entries(c, records, level)| == Matched(c, records, level)
    decreases |records|
  {
    if records != [] {
      EntriesAreMatched(c, records[1..], level);
    }
  }

  /** A longer join chain can only drop more records: every record counted by
      college is counted by department, and every one counted by department
      is counted by course. */
  lemma {:induction false} DeeperJoinsDropMore(c: Catalog, records: seq<Attendance>)
    ensures Matched(c, records, ByCollege) <= Matched(c, records, ByDepartment)
    ensures Matched(c, records, ByDepartment) <= Matched(c, records, ByCourse)
    decreases |records|
  {
    if records != [] {
      DeeperJoinsDropMore(c, records[1..]);
    }
  }

  // -------------------------------------------------------------- grouping

  /** One output document of `$group`. */
  datatype Tally = Tally(
    id: Id,
    name: string,
    totalAttendance: nat,
    presentCount: nat,
    absentCount: nat,
    averageAttendance: real)

  /** `{ $cond: [{ $eq: ["$status", s] }, 1, 0] }`. */
  function Indicator(status: AttendanceStatus, s: AttendanceStatus): nat {
    if status == s then 1 else 0
  }

  /** A group with its counts; `averageAttendance` is the mean of the presence
      indicator over the group's records. */
  function MakeTally(id: Id, name: string, total: nat, present: nat, absent: nat): Tally {
    Tally(id, name, total, present, absent, if total == 0 then 0.0 else present as real / total as real)
  }

  /** A group opened by its first record (which gives `$first` its name). */
  function Opened(e: Entry): Tally {
    MakeTally(e.key.id, e.key.name, 1, Indicator(e.status, Present), Indicator(e.status, Absent))
  }

  /** A group after one more record. */
  function Bumped(t: Tally, status: AttendanceStatus): Tally {
    MakeTally(t.id, t.name, t.totalAttendance + 1,
              t.presentCount + Indicator(status, Present), t.absentCount + Indicator(status, Absent))
  }

  /** Feeds one record to the groups. */
  function AddEntry(ts: seq<Tally>, e: Entry): seq<Tally>
    decreases |ts|
  {
    if ts == [] then [Opened(e)]
    else if ts[0].id == e.key.id then [Bumped(ts[0], e.status)] + ts[1..]
    else [ts[0]] + AddEntry(ts[1..], e)
  }

  /** `$group` over the stream, records taken in order. */
  function Tallies(es: seq<Entry>): seq<Tally>
    decreases |es|
  {
    if es == [] then [] else AddEntry(Tallies(es[..|es| - 1]), es[|es| - 1])
  }

  /** The group with the given id, if there is one. */
  function Find(ts: seq<Tally>, id: Id): (r: Option<Tally>)
    ensures r.Some? ==> r.value in ts && r.value.id == id
    ensures r.None? ==> forall t :: t in ts ==> t.id != id
    decreases |ts|
  {
    if ts == [] then None
    else if ts[0].id == id then Some(ts[0])
    else Find(ts[1..], id)
  }

  ghost predicate DistinctIds(ts: seq<Tally>) {
    forall i, j :: 0 <= i < j < |ts| ==> ts[i].id != ts[j].id
  }

  function SumTotals(ts: seq<Tally>): nat
    decreases |ts|
  {
    if ts == [] then 0 else ts[0].totalAttendance + SumTotals(ts[1..])
  }

  // ----------------------------------------------- reference by counting

  /** How many records of the stream fall in group `id`. */
  function CountIn(es: seq<Entry>, id: Id): nat
    decreases |es|
  {
    if es == [] then 0
    else CountIn(es[..|es| - 1], id) + (if es[|es| - 1].key.id == id then 1 else 0)
  }

  /** How many of them have status `s`. */
  function CountStatusIn(es: seq<Entry>, id: Id, s: AttendanceStatus): nat
    decreases |es|
  {
    if es == [] then 0
    else CountStatusIn(es[..|es| - 1], id, s)
         + (if es[|es| - 1].key.id == id && es[|es| - 1].status == s then 1 else 0)
  }

  /** The name carried by the first record of group `id`. */
  function FirstName(es: seq<Entry>, id: Id): string
    requires CountIn(es, id) > 0
    decreases |es|
  {
    if CountIn(es[..|es| - 1], id) > 0 then FirstName(es[..|es| - 1], id)
    else es[|es| - 1].key.name
  }

  /** Every record of a group is either present or absent. */
  lemma {:induction false} CountsSplit(es: seq<Entry>, id: Id)
    ensures CountStatusIn(es, id, Present) + CountStatusIn(es, id, Absent) == CountIn(es, id)
    decreases |es|
  {
    if es != [] {
      CountsSplit(es[..|es| - 1], id);
    }
  }

  /** What group `id` should report, computed from the stream by counting. */
  function GroupOf(es: seq<Entry>, id: Id): (g: Option<Tally>)
    ensures g.Some? <==> exists k :: 0 <= k < |es| && es[k].key.id == id
    ensures g.Some? ==>
      && g.value.id == id
      && g.value.totalAttendance > 0
      && g.value.presentCount + g.value.absentCount == g.value.totalAttendance
      && g.value.averageAttendance == g.value.presentCount as real / g.value.totalAttendance as real
      && 0.0 <= g.value.averageAttendance <= 1.0
  {
    CountPositive(es, id);
    if CountIn(es, id) == 0 then None
    else
      CountsSplit(es, id);
      var total := CountIn(es, id);
      var present := CountStatusIn(es, id, Present);
      AverageInUnitRange(present, total);
      Some(MakeTally(id, FirstName(es, id), total, present, CountStatusIn(es, id, Absent)))
  }

  lemma {:induction false} CountPositive(es: seq<Entry>, id: Id)
    ensures CountIn(es, id) > 0 <==> exists k :: 0 <= k < |es| && es[k].key.id == id
    decreases |es|
  {
    if es != [] {
      var init := es[..|es| - 1];
      CountPositive(init, id);
      if CountIn(init, id) > 0 {
        var k :| 0 <= k < |init| && init[k].key.id == id;
        assert es[k].key.id == id;
      }
      if exists k :: 0 <= k < |es| && es[k].key.id == id {
        var k :| 0 <= k < |es| && es[k].key.id == id;
        if k < |init| {
          assert init[k].key.id == id;
        }
      }
    }
  }

  lemma AverageInUnitRange(present: nat, total: nat)
    requires 0 < total && present <= total
    ensures 0.0 <= present as real / total as real <= 1.0
  {
    var avg := present as real / total as real;
    assert avg * total as real == present as real;
  }

  // ------------------------------------------------ the fold meets the count

  /** Feeding a record changes only its own group: it is opened or bumped. */
  lemma {:induction false} FindAfterAdd(ts: seq<Tally>, e: Entry, id: Id)
    ensures Find(AddEntry(ts, e), id) ==
      if id != e.key.id then Find(ts, id)
      else match Find(ts, id)
           case None => Some(Opened(e))
           case Some(t) => Some(Bumped(t, e.status))
    decreases |ts|
  {
    if ts != [] && ts[0].id != e.key.id {
      FindAfterAdd(ts[1..], e, id);
    }
  }

  /** Every group after feeding a record is an old group or the record's own. */
  lemma {:induction false} AddEntryMembers(ts: seq<Tally>, e: Entry)
    ensures forall t :: t in AddEntry(ts, e) ==> t in ts || t.id == e.key.id
    decreases |ts|
  {
    if ts != [] && ts[0].id != e.key.id {
      AddEntryMembers(ts[1..], e);
    }
  }

  lemma {:induction false} AddEntryDistinct(ts: seq<Tally>, e: Entry)
    requires DistinctIds(ts)
    ensures DistinctIds(AddEntry(ts, e))
    decreases |ts|
  {
    if ts != [] && ts[0].id != e.key.id {
      var rest := AddEntry(ts[1..], e);
      AddEntryDistinct(ts[1..], e);
      AddEntryMembers(ts[1..], e);
      forall k | 0 <= k < |rest| ensures rest[k].id != ts[0].id {
        assert rest[k] in rest;
        if rest[k] in ts[1..] {
          var m :| 0 <= m < |ts[1..]| && ts[1..][m] == rest[k];
          assert ts[m + 1] == rest[k];
        }
      }
      var r := AddEntry(ts, e);
      assert r == [ts[0]] + rest;
      forall a, b | 0 <= a < b < |r| ensures r[a].id != r[b].id {
        if a == 0 {
          assert r[b] == rest[b - 1];
        } else {
          assert r[a] == rest[a - 1] && r[b] == rest[b - 1];
        }
      }
    } else if ts != [] {
      var r := AddEntry(ts, e);
      forall a, b | 0 <= a < b < |r| ensures r[a].id != r[b].id {
        assert r[b] == ts[b];
        if a > 0 {
          assert r[a] == ts[a];
        }
      }
    }
  }

  lemma {:induction false} SumAfterAdd(ts: seq<Tally>, e: Entry)
    ensures SumTotals(AddEntry(ts, e)) == SumTotals(ts) + 1
    decreases |ts|
  {
    if ts == [] {
    } else if ts[0].id == e.key.id {
      assert AddEntry(ts, e)[1..] == ts[1..];
    } else {
      SumAfterAdd(ts[1..], e);
      assert AddEntry(ts, e)[1..] == AddEntry(ts[1..], e);
    }
  }

  /** One more record changes the counted group of its own id only: it is
      opened by the record, or has that record added. */
  lemma GroupOfStep(es: seq<Entry>, id: Id)
    requires es != []
    ensures var init, last := es[..|es| - 1], es[|es| - 1];
      GroupOf(es, id) ==
        if id != last.key.id then GroupOf(init, id)
        else match GroupOf(init, id)
             case None => Some(Opened(last))
             case Some(t) => Some(Bumped(t, last.status))
  {
    CountsSplit(es[..|es| - 1], id);
  }

  /** The grouping fold builds, for every id, exactly the group the counts
      describe, never two groups with one id, and one count per record. */
  lemma {:induction false} TalliesMatchCounts(es: seq<Entry>)
    ensures DistinctIds(Tallies(es))
    ensures SumTotals(Tallies(es)) == |es|
    ensures forall id :: Find(Tallies(es), id) == GroupOf(es, id)
    decreases |es|
  {
    if es != [] {
      var init, last := es[..|es| - 1], es[|es| - 1];
      TalliesMatchCounts(init);
      AddEntryDistinct(Tallies(init), last);
      SumAfterAdd(Tallies(init), last);
      forall id ensures Find(Tallies(es), id) == GroupOf(es, id) {
        FindAfterAdd(Tallies(init), last, id);
        GroupOfStep(es, id);
      }
    }
  }

  /** With distinct ids a group is found by its own id. */
  lemma {:induction false} FindMember(ts: seq<Tally>, t: Tally)
    requires DistinctIds(ts) && t in ts
    ensures Find(ts, t.id) == Some(t)
    decreases |ts|
  {
    if ts[0] != t {
      var k :| 0 <= k < |ts| && ts[k] == t;
      assert ts[0].id != t.id;
      assert ts[1..][k - 1] == t;
      FindMember(ts[1..], t);
    }
  }

  // ---------------------------------------------------------------- sorting

  /** `$sort: { averageAttendance: -1 }`. MongoDB does not fix the order of
      groups with equal averages, so only the descending order is stated;
      `InsertByAverage` below is one admissible order. */
  ghost predicate Descending(ts: seq<Tally>) {
    forall i, j :: 0 <= i < j < |ts| ==> ts[i].averageAttendance >= ts[j].averageAttendance
  }

  function InsertByAverage(t: Tally, ts: seq<Tally>): seq<Tally>
    decreases |ts|
  {
    if ts == [] then [t]
    else if t.averageAttendance >= ts[0].averageAttendance then [t] + ts
    else [ts[0]] + InsertByAverage(t, ts[1..])
  }

  function SortByAverage(ts: seq<Tally>): seq<Tally>
    decreases |ts|
  {
    if ts == [] then [] else InsertByAverage(ts[0], SortByAverage(ts[1..]))
  }

  lemma {:induction false} InsertKeepsGroups(t: Tally, ts: seq<Tally>)
    ensures multiset(InsertByAverage(t, ts)) == multiset(ts) + multiset{t}
    ensures SumTotals(InsertByAverage(t, ts)) == SumTotals(ts) + t.totalAttendance
    decreases |ts|
  {
    if ts != [] && t.averageAttendance < ts[0].averageAttendance {
      InsertKeepsGroups(t, ts[1..]);
      assert ts == [ts[0]] + ts[1..];
      assert InsertByAverage(t, ts)[1..] == InsertByAverage(t, ts[1..]);
    } else if ts != [] {
      assert InsertByAverage(t, ts)[1..] == ts;
    }
  }

  /** Inserting keeps a common upper bound on the averages. */
  lemma InsertBounded(t: Tally, ts: seq<Tally>, bound: real)
    requires t.averageAttendance <= bound
    requires forall u :: u in ts ==> u.averageAttendance <= bound
    ensures forall u :: u in InsertByAverage(t, ts) ==> u.averageAttendance <= bound
  {
    InsertKeepsGroups(t, ts);
    forall u | u in InsertByAverage(t, ts) ensures u.averageAttendance <= bound {
      assert u in multiset(InsertByAverage(t, ts));
    }
  }

  lemma {:induction false} InsertKeepsDescending(t: Tally, ts: seq<Tally>)
    requires Descending(ts)
    ensures Descending(InsertByAverage(t, ts))
    decreases |ts|
  {
    if ts != [] && t.averageAttendance < ts[0].averageAttendance {
      var rest := InsertByAverage(t, ts[1..]);
      InsertKeepsDescending(t, ts[1..]);
      forall u | u in ts[1..] ensures u.averageAttendance <= ts[0].averageAttendance {
        var m :| 0 <= m < |ts[1..]| && ts[1..][m] == u;
        assert ts[m + 1] == u;
      }
      InsertBounded(t, ts[1..], ts[0].averageAttendance);
      var r := InsertByAverage(t, ts);
      assert r == [ts[0]] + rest;
      forall a, b | 0 <= a < b < |r| ensures r[a].averageAttendance >= r[b].averageAttendance {
        assert r[b] == rest[b - 1];
        if a > 0 {
          assert r[a] == rest[a - 1];
        } else {
          assert rest[b - 1] in rest;
        }
      }
    }
  }

  /** A group whose id no other group has can head a list of distinct groups. */
  lemma ConsDistinct(x: Tally, rest: seq<Tally>)
    requires DistinctIds(rest)
    requires forall u :: u in rest ==> u.id != x.id
    ensures DistinctIds([x] + rest)
  {
    var r := [x] + rest;
    forall a, b | 0 <= a < b < |r| ensures r[a].id != r[b].id {
      assert r[b] == rest[b - 1];
      if a > 0 {
        assert r[a] == rest[a - 1];
      } else {
        assert rest[b - 1] in rest;
      }
    }
  }

  /** In a list of distinct groups the head's id occurs nowhere in the tail. */
  lemma HeadAvoidsTail(ts: seq<Tally>)
    requires ts != [] && DistinctIds(ts)
    ensures DistinctIds(ts[1..])
    ensures forall u :: u in ts[1..] ==> u.id != ts[0].id
  {
    forall u | u in ts[1..] ensures u.id != ts[0].id {
      var m :| 0 <= m < |ts[1..]| && ts[1..][m] == u;
      assert ts[m + 1] == u;
    }
  }

  /** Inserting adds the inserted group and nothing else. */
  lemma InsertMembers(t: Tally, ts: seq<Tally>)
    ensures forall u :: u in InsertByAverage(t, ts) ==> u == t || u in ts
  {
    InsertKeepsGroups(t, ts);
    forall u | u in InsertByAverage(t, ts) ensures u == t || u in ts {
      assert u in multiset(InsertByAverage(t, ts));
    }
  }

  lemma {:induction false} InsertKeepsDistinct(t: Tally, ts: seq<Tally>)
    requires DistinctIds(ts)
    requires forall u :: u in ts ==> u.id != t.id
    ensures DistinctIds(InsertByAverage(t, ts))
    decreases |ts|
  {
    if ts == [] {
    } else if t.averageAttendance < ts[0].averageAttendance {
      HeadAvoidsTail(ts);
      InsertKeepsDistinct(t, ts[1..]);
      InsertMembers(t, ts[1..]);
      ConsDistinct(ts[0], InsertByAverage(t, ts[1..]));
    } else {
      ConsDistinct(t, ts);
    }
  }

  /** Sorting orders the groups by average, highest first, and neither adds
      nor loses a group. */
  lemma {:induction false} SortKeepsGroups(ts: seq<Tally>)
    ensures Descending(SortByAverage(ts))
    ensures multiset(SortByAverage(ts)) == multiset(ts)
    ensures SumTotals(SortByAverage(ts)) == SumTotals(ts)
    decreases |ts|
  {
    if ts != [] {
      var rest := SortByAverage(ts[1..]);
      SortKeepsGroups(ts[1..]);
      InsertKeepsGroups(ts[0], rest);
      InsertKeepsDescending(ts[0], rest);
      assert ts == [ts[0]] + ts[1..];
    }
  }

  /** Sorting never merges two groups into one id. */
  lemma {:induction false} SortKeepsDistinct(ts: seq<Tally>)
    requires DistinctIds(ts)
    ensures DistinctIds(SortByAverage(ts))
    decreases |ts|
  {
    if ts != [] {
      var rest := SortByAverage(ts[1..]);
      HeadAvoidsTail(ts);
      SortKeepsDistinct(ts[1..]);
      SortKeepsGroups(ts[1..]);
      forall u | u in rest ensures u.id != ts[0].id {
        assert u in multiset(rest);
      }
      InsertKeepsDistinct(ts[0], rest);
    }
  }

  // ------------------------------------------------------------ breakdowns

  /** The output of a breakdown route. */
  function Breakdown(c: Catalog, records: seq<Attendance>, level: Level): seq<Tally> {
    SortByAverage(Tallies(Entries(c, records, level)))
  }

  /** What every breakdown reports: one group per id that some surviving
      record reaches, each group exactly as the counts over its records
      describe it (so present + absent = total and the average lies in
      [0, 1]), groups in descending order of average, and the totals adding
      up to the number of records every lookup matched. */
  lemma BreakdownSpec(c: Catalog, records: seq<Attendance>, level: Level)
    ensures var es := Entries(c, records, level);
      var b := Breakdown(c, records, level);
      && Descending(b)
      && DistinctIds(b)
      && (forall t :: t in b ==> GroupOf(es, t.id) == Some(t))
      && (forall id :: GroupOf(es, id).Some? ==> GroupOf(es, id).value in b)
      && SumTotals(b) == Matched(c, records, level)
  {
    var es := Entries(c, records, level);
    var ts := Tallies(es);
    var b := Breakdown(c, records, level);
    TalliesMatchCounts(es);
    SortKeepsGroups(ts);
    SortKeepsDistinct(ts);
    EntriesAreMatched(c, records, level);
    forall t | t in b ensures GroupOf(es, t.id) == Some(t) {
      assert t in multiset(b);
      FindMember(ts, t);
    }
    forall id | GroupOf(es, id).Some? ensures GroupOf(es, id).value in b {
      assert Find(ts, id).value in multiset(ts);
    }
  }
}
