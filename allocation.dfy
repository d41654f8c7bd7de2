/** The duty allocator: exam dates are taken in sheet order; on each date
    the least-loaded eligible teachers are picked, ties broken by a
    shuffle, and each pick is marked in the schedule and counted. */
module Allocation {
  import opened DayOff
  import opened Selection

  /** One row of the Dates sheet: the date in canonical form and the
      "Required Invigilators" count. */
  datatype ExamDate = ExamDate(date: Date, required: int)

  /** random.shuffle: the order the list of eligible teachers takes for
      the k-th exam date. */
  type Shuffler = (nat, seq<string>) -> seq<string>

  /** Every outcome of a shuffle is a permutation of its input. */
  ghost predicate IsShuffler(shuffle: Shuffler)
  {
    forall k: nat, s: seq<string> :: multiset(shuffle(k, s)) == multiset(s)
  }

  /** The allocator's state: `duty_count`, and the (name, date) cells that
      hold a check mark. Marks are kept per name because the source marks
      every row whose name equals the picked teacher. */
  datatype Tally = Tally(loads: map<string, nat>, marked: set<(string, Date)>)

  /** The loop over the picked teachers: mark each one on the date and
      add one to their count. */
  function Credit(t: Tally, picked: seq<string>, date: Date): (r: Tally)
    ensures t.marked <= r.marked
    ensures forall x :: Load(t.loads, x) <= Load(r.loads, x)
  {
    if picked == [] then t
    else
      var n := |picked| - 1;
      var before := Credit(t, picked[..n], date);
      Tally(before.loads[picked[n] := Load(before.loads, picked[n]) + 1], before.marked + {(picked[n], date)})
  }

  /** Crediting raises each count by how often the teacher was picked and
      marks exactly the picked teachers on that date; nothing else moves. */
  lemma {:induction false} CreditEffect(t: Tally, picked: seq<string>, date: Date)
    ensures forall x :: Load(Credit(t, picked, date).loads, x) == Load(t.loads, x) + multiset(picked)[x]
    ensures forall x, d :: (x, d) in Credit(t, picked, date).marked <==> (x, d) in t.marked || (d == date && x in picked)
  {
    if picked != [] {
      var n := |picked| - 1;
      CreditEffect(t, picked[..n], date);
      assert picked == picked[..n] + [picked[n]];
    }
  }

  /** One turn of the loop over the picked teachers. */
  lemma CreditStep(t: Tally, picked: seq<string>, x: string, date: Date)
    ensures var c := Credit(t, picked, date);
            Credit(t, picked + [x], date) == Tally(c.loads[x := Load(c.loads, x) + 1], c.marked + {(x, date)})
  {
    assert (picked + [x])[..|picked|] == picked;
  }

  /** The loop over `selected_teachers`: marks each one on the date and
      adds one to their count. */
  method CreditPicked(loads: map<string, nat>, marked: set<(string, Date)>, picked: seq<string>, date: Date)
    returns (loads': map<string, nat>, marked': set<(string, Date)>)
    ensures Tally(loads', marked') == Credit(Tally(loads, marked), picked, date)
  {
    loads', marked' := loads, marked;
    for t := 0 to |picked|
      invariant Tally(loads', marked') == Credit(Tally(loads, marked), picked[..t], date)
    {
      CreditStep(Tally(loads, marked), picked[..t], picked[t], date);
      assert picked[..t + 1] == picked[..t] + [picked[t]];
      marked' := marked' + {(picked[t], date)};
      loads' := loads'[picked[t] := Load(loads', picked[t]) + 1];
    }
    assert picked[..|picked|] == picked;
  }

  /** `selected_teachers` for the k-th exam date, given the counts so far. */
  function Chosen(names: seq<string>, offdays: map<string, set<Date>>, exempt: set<string>,
                  loads: map<string, nat>, k: nat, e: ExamDate, shuffle: Shuffler): (picked: seq<string>)
    ensures SortedByLoad(picked, loads)
  {
    Pick(shuffle(k, Eligible(names, offdays, exempt, e.date)), loads, e.required)
  }

  /** The state after the given exam dates, taken in order. */
  function Allocate(names: seq<string>, offdays: map<string, set<Date>>, exempt: set<string>,
                    dates: seq<ExamDate>, shuffle: Shuffler): Tally
  {
    if dates == [] then Tally(map[], {})
    else
      var k := |dates| - 1;
      var before := Allocate(names, offdays, exempt, dates[..k], shuffle);
      Credit(before, Chosen(names, offdays, exempt, before.loads, k, dates[k], shuffle), dates[k].date)
  }

  /** One turn of the loop over the exam dates. */
  lemma AllocateStep(names: seq<string>, offdays: map<string, set<Date>>, exempt: set<string>,
                     dates: seq<ExamDate>, k: nat, shuffle: Shuffler)
    requires k < |dates|
    ensures var before := Allocate(names, offdays, exempt, dates[..k], shuffle);
            Allocate(names, offdays, exempt, dates[..k + 1], shuffle) ==
              Credit(before, Chosen(names, offdays, exempt, before.loads, k, dates[k], shuffle), dates[k].date)
  {
    assert dates[..k + 1][..k] == dates[..k];
  }

  /** The "Formatted Date" column. */
  function DatesOf(dates: seq<ExamDate>): (ds: seq<Date>)
    ensures |ds| == |dates| && forall k :: 0 <= k < |dates| ==> ds[k] == dates[k].date
  {
    seq(|dates|, k requires 0 <= k < |dates| => dates[k].date)
  }

  /** On one exam date: for a non-negative requirement min(required,
      |eligible|) teachers are picked, all of them eligible, and none left
      out has fewer duties than one picked. */
  lemma DateSelection(names: seq<string>, offdays: map<string, set<Date>>, exempt: set<string>,
                      dates: seq<ExamDate>, shuffle: Shuffler)
    requires IsShuffler(shuffle) && |dates| > 0
    ensures var k := |dates| - 1;
            var before := Allocate(names, offdays, exempt, dates[..k], shuffle);
            var eligible := Eligible(names, offdays, exempt, dates[k].date);
            var picked := Chosen(names, offdays, exempt, before.loads, k, dates[k], shuffle);
            && (dates[k].required >= 0 ==>
                  |picked| == if dates[k].required < |eligible| then dates[k].required else |eligible|)
            && multiset(picked) <= multiset(eligible)
            && forall x, y :: x in picked && y in multiset(eligible) - multiset(picked) ==>
                 Load(before.loads, x) <= Load(before.loads, y)
  {
    var k := |dates| - 1;
    var before := Allocate(names, offdays, exempt, dates[..k], shuffle);
    var eligible := Eligible(names, offdays, exempt, dates[k].date);
    var shuffled := shuffle(k, eligible);
    PickCount(eligible, shuffled, before.loads, dates[k].required);
    PickFromEligible(eligible, shuffled, before.loads, dates[k].required);
    PickLeastLoaded(eligible, shuffled, before.loads, dates[k].required);
  }

  /** On one exam date: each picked teacher's count rises by one (names
      being distinct), every other count stays, and only that date's
      column gains marks, exactly those of the picked teachers. */
  lemma DateUpdate(names: seq<string>, offdays: map<string, set<Date>>, exempt: set<string>,
                   dates: seq<ExamDate>, shuffle: Shuffler)
    requires IsShuffler(shuffle) && |dates| > 0 && Distinct(names)
    ensures var k := |dates| - 1;
            var before := Allocate(names, offdays, exempt, dates[..k], shuffle);
            var after := Allocate(names, offdays, exempt, dates, shuffle);
            var picked := Chosen(names, offdays, exempt, before.loads, k, dates[k], shuffle);
            && (forall x :: Load(after.loads, x) == Load(before.loads, x) + if x in picked then 1 else 0)
            && (forall x, d :: (x, d) in after.marked <==> (x, d) in before.marked || (d == dates[k].date && x in picked))
  {
    var k := |dates| - 1;
    var before := Allocate(names, offdays, exempt, dates[..k], shuffle);
    var eligible := Eligible(names, offdays, exempt, dates[k].date);
    var picked := Chosen(names, offdays, exempt, before.loads, k, dates[k], shuffle);
    PickFromEligible(eligible, shuffle(k, eligible), before.loads, dates[k].required);
    DistinctOnce(names);
    CreditEffect(before, picked, dates[k].date);
    forall x ensures multiset(picked)[x] == if x in picked then 1 else 0 {
      assert multiset(picked)[x] <= multiset(eligible)[x] <= multiset(names)[x];
    }
  }

  /** Every teacher picked on a date is listed and available that date. */
  lemma ChosenAvailable(names: seq<string>, offdays: map<string, set<Date>>, exempt: set<string>,
                        loads: map<string, nat>, k: nat, e: ExamDate, shuffle: Shuffler, x: string)
    requires IsShuffler(shuffle) && x in Chosen(names, offdays, exempt, loads, k, e, shuffle)
    ensures x in names && Available(offdays, exempt, e.date, x)
  {
    var eligible := Eligible(names, offdays, exempt, e.date);
    PickFromEligible(eligible, shuffle(k, eligible), loads, e.required);
    assert x in multiset(Chosen(names, offdays, exempt, loads, k, e, shuffle));
    assert x in eligible;
  }

  /** A mark only ever goes to a listed, non-exempt teacher on one of the
      exam dates that is not among their days off. */
  lemma {:induction false} MarksRespectAvailability(names: seq<string>, offdays: map<string, set<Date>>, exempt: set<string>,
                                                   dates: seq<ExamDate>, shuffle: Shuffler)
    requires IsShuffler(shuffle)
    ensures forall x, d :: (x, d) in Allocate(names, offdays, exempt, dates, shuffle).marked ==>
              x in names && Available(offdays, exempt, d, x) && d in DatesOf(dates)
  {
    if dates != [] {
      var k := |dates| - 1;
      MarksRespectAvailability(names, offdays, exempt, dates[..k], shuffle);
      var before := Allocate(names, offdays, exempt, dates[..k], shuffle);
      var picked := Chosen(names, offdays, exempt, before.loads, k, dates[k], shuffle);
      var after := Credit(before, picked, dates[k].date);
      assert Allocate(names, offdays, exempt, dates, shuffle) == after;
      CreditEffect(before, picked, dates[k].date);
      assert DatesOf(dates) == DatesOf(dates[..k]) + [dates[k].date];
      forall x, d | (x, d) in after.marked
        ensures x in names && Available(offdays, exempt, d, x) && d in DatesOf(dates)
      {
        if (x, d) !in before.marked {
          ChosenAvailable(names, offdays, exempt, before.loads, k, dates[k], shuffle, x);
        }
      }
    }
  }

  /** Only listed, non-exempt teachers ever get a duty: an exempt
      teacher's count stays zero. */
  lemma {:induction false} IdleUnlessAvailable(names: seq<string>, offdays: map<string, set<Date>>, exempt: set<string>,
                                              dates: seq<ExamDate>, shuffle: Shuffler, x: string)
    requires IsShuffler(shuffle)
    requires x in exempt || x !in names
    ensures Load(Allocate(names, offdays, exempt, dates, shuffle).loads, x) == 0
  {
    if dates != [] {
      var k := |dates| - 1;
      IdleUnlessAvailable(names, offdays, exempt, dates[..k], shuffle, x);
      DateSelection(names, offdays, exempt, dates, shuffle);
      var before := Allocate(names, offdays, exempt, dates[..k], shuffle);
      var picked := Chosen(names, offdays, exempt, before.loads, k, dates[k], shuffle);
      CreditEffect(before, picked, dates[k].date);
      assert multiset(Eligible(names, offdays, exempt, dates[k].date))[x] == 0;
    }
  }

  /** With every teacher available on every date and no name repeated,
      counts never differ by more than one: least-loaded picking keeps the
      load balanced whatever the shuffles and the requirements. */
  lemma {:induction false} Balanced(names: seq<string>, offdays: map<string, set<Date>>, exempt: set<string>,
                                    dates: seq<ExamDate>, shuffle: Shuffler)
    requires IsShuffler(shuffle) && Distinct(names)
    requires forall x, k :: x in names && 0 <= k < |dates| ==> Available(offdays, exempt, dates[k].date, x)
    ensures var loads := Allocate(names, offdays, exempt, dates, shuffle).loads;
            forall x, y :: x in names && y in names ==> Load(loads, x) <= Load(loads, y) + 1
  {
    if dates != [] {
      var k := |dates| - 1;
      Balanced(names, offdays, exempt, dates[..k], shuffle);
      var before := Allocate(names, offdays, exempt, dates[..k], shuffle);
      var after := Allocate(names, offdays, exempt, dates, shuffle);
      var eligible := Eligible(names, offdays, exempt, dates[k].date);
      var picked := Chosen(names, offdays, exempt, before.loads, k, dates[k], shuffle);
      DateSelection(names, offdays, exempt, dates, shuffle);
      DateUpdate(names, offdays, exempt, dates, shuffle);
      DistinctOnce(names);
      forall x, y | x in names && y in names
        ensures Load(after.loads, x) <= Load(after.loads, y) + 1
      {
        if x in picked && y !in picked {
          assert multiset(eligible)[y] == multiset(names)[y];
          assert y in multiset(eligible) - multiset(picked);
        }
      }
    }
  }

  /** The date columns of `schedule`: one per distinct exam date, in order
      of first appearance, since assigning to an existing column reuses it. */
  function Columns(dates: seq<ExamDate>): (cols: seq<Date>)
    ensures Distinct(cols)
    ensures forall d :: d in cols <==> d in DatesOf(dates)
  {
    if dates == [] then []
    else
      var k := |dates| - 1;
      var cols := Columns(dates[..k]);
      assert DatesOf(dates) == DatesOf(dates[..k]) + [dates[k].date];
      if dates[k].date in cols then cols else cols + [dates[k].date]
  }

  /** Distinct exam dates give one column each, in sheet order. */
  lemma {:induction false} ColumnsOfDistinct(dates: seq<ExamDate>)
    requires Distinct(DatesOf(dates))
    ensures Columns(dates) == DatesOf(dates)
  {
    if dates != [] {
      var k := |dates| - 1;
      assert DatesOf(dates) == DatesOf(dates[..k]) + [dates[k].date];
      assert Distinct(DatesOf(dates[..k]));
      ColumnsOfDistinct(dates[..k]);
    }
  }

  /** The output table: teacher rows in sheet order, date columns, and
      "Total Duties". */
  datatype Schedule = Schedule(names: seq<string>, columns: seq<Date>, cells: seq<seq<bool>>, totals: seq<nat>)

  /** The cells of one teacher's row. */
  function Row(x: string, columns: seq<Date>, marked: set<(string, Date)>): (row: seq<bool>)
    ensures |row| == |columns| && forall j :: 0 <= j < |columns| ==> row[j] == ((x, columns[j]) in marked)
  {
    seq(|columns|, j requires 0 <= j < |columns| => (x, columns[j]) in marked)
  }

  /** The number of check marks in a row. */
  function CountMarks(row: seq<bool>): (n: nat)
    ensures n == multiset(row)[true]
  {
    if row == [] then 0
    else
      assert row == row[..|row| - 1] + [row[|row| - 1]];
      CountMarks(row[..|row| - 1]) + if row[|row| - 1] then 1 else 0
  }

  lemma {:induction false} CountMarksNone(row: seq<bool>)
    requires forall j :: 0 <= j < |row| ==> !row[j]
    ensures CountMarks(row) == 0
  {
    if row != [] {
      CountMarksNone(row[..|row| - 1]);
    }
  }

  /** The schedule as written out: a row per teacher, a cell per column,
      and each row's total. */
  function Tabulate(names: seq<string>, columns: seq<Date>, marked: set<(string, Date)>): (s: Schedule)
    ensures s.names == names && s.columns == columns && |s.cells| == |names| && |s.totals| == |names|
    ensures forall i :: 0 <= i < |names| ==> s.cells[i] == Row(names[i], columns, marked)
    ensures forall i :: 0 <= i < |names| ==> s.totals[i] == CountMarks(s.cells[i])
  {
    var cells := seq(|names|, i requires 0 <= i < |names| => Row(names[i], columns, marked));
    Schedule(names, columns, cells, seq(|names|, i requires 0 <= i < |names| => CountMarks(cells[i])))
  }

  /** With distinct names and dates, the check marks in a teacher's row
      over the dates so far number exactly their `duty_count`. */
  lemma {:induction false} LoadsCountMarks(names: seq<string>, offdays: map<string, set<Date>>, exempt: set<string>,
                                           dates: seq<ExamDate>, shuffle: Shuffler, x: string)
    requires IsShuffler(shuffle) && Distinct(names) && Distinct(DatesOf(dates))
    ensures var t := Allocate(names, offdays, exempt, dates, shuffle);
            Load(t.loads, x) == CountMarks(Row(x, DatesOf(dates), t.marked))
  {
    if dates != [] {
      var k := |dates| - 1;
      var d := dates[k].date;
      var pre := DatesOf(dates[..k]);
      assert DatesOf(dates) == pre + [d];
      assert Distinct(pre);
      LoadsCountMarks(names, offdays, exempt, dates[..k], shuffle, x);
      var before := Allocate(names, offdays, exempt, dates[..k], shuffle);
      var after := Allocate(names, offdays, exempt, dates, shuffle);
      DateUpdate(names, offdays, exempt, dates, shuffle);
      MarksRespectAvailability(names, offdays, exempt, dates[..k], shuffle);
      assert d !in pre;
      var row := Row(x, DatesOf(dates), after.marked);
      assert row[..k] == Row(x, pre, before.marked);
      assert (x, d) !in before.marked;
    }
  }

  /** The allocation the program computes from its two sheets. */
  function Plan(rows: seq<TeacherRow>, dates: seq<ExamDate>, parse: DateParser, shuffle: Shuffler): Tally
  {
    Allocate(Names(rows), OffdayMap(rows, parse), ExemptSet(rows, parse), dates, shuffle)
  }

  /** assign_duties from line 99 on: classify the Day Off cells, allocate
      the dates in order, and total each row. */
  method AssignDuties(rows: seq<TeacherRow>, dates: seq<ExamDate>, parse: DateParser, shuffle: Shuffler)
    returns (schedule: Schedule, dutyCount: map<string, nat>)
    requires IsShuffler(shuffle)
    ensures dutyCount == Plan(rows, dates, parse, shuffle).loads
    ensures schedule == Tabulate(Names(rows), Columns(dates), Plan(rows, dates, parse, shuffle).marked)
    ensures forall i, j :: 0 <= i < |rows| && 0 <= j < |schedule.columns| && schedule.cells[i][j] ==>
              !Classify(rows[i].dayOff, parse).exempt
    ensures forall i :: 0 <= i < |rows| && Classify(rows[i].dayOff, parse).exempt ==> schedule.totals[i] == 0
    ensures forall i, j :: 0 <= i < |rows| && IsLastRow(rows, i) && 0 <= j < |schedule.columns| ==>
              (schedule.columns[j] in Classify(rows[i].dayOff, parse).offdays ==> !schedule.cells[i][j])
    ensures Distinct(Names(rows)) && Distinct(DatesOf(dates)) ==>
              forall i :: 0 <= i < |rows| ==> schedule.totals[i] == Load(dutyCount, rows[i].name)
  {
    var offdays, exempt := BuildAvailability(rows, parse);
    var names := Names(rows);
    dutyCount := map[];
    var marked: set<(string, Date)> := {};
    for k := 0 to |dates|
      invariant Tally(dutyCount, marked) == Allocate(names, offdays, exempt, dates[..k], shuffle)
    {
      AllocateStep(names, offdays, exempt, dates, k, shuffle);
      var date := dates[k].date;
      var available := Eligible(names, offdays, exempt, date);
      available := shuffle(k, available);
      available := SortByLoad(available, dutyCount);
      var selected := available[..SliceEnd(dates[k].required, |available|)];
      dutyCount, marked := CreditPicked(dutyCount, marked, selected, date);
    }
    assert dates[..|dates|] == dates;
    schedule := Tabulate(names, Columns(dates), marked);
    ExemptRowsIdle(rows, dates, parse, shuffle);
    DaysOffUnmarked(rows, dates, parse, shuffle);
    if Distinct(names) && Distinct(DatesOf(dates)) {
      TotalsMatchLoads(rows, dates, parse, shuffle);
    }
  }

  /** An exempt teacher's row holds no mark and totals zero. */
  lemma ExemptRowsIdle(rows: seq<TeacherRow>, dates: seq<ExamDate>, parse: DateParser, shuffle: Shuffler)
    requires IsShuffler(shuffle)
    ensures var s := Tabulate(Names(rows), Columns(dates), Plan(rows, dates, parse, shuffle).marked);
            && (forall i, j :: 0 <= i < |rows| && 0 <= j < |s.columns| && s.cells[i][j] ==>
                  !Classify(rows[i].dayOff, parse).exempt)
            && (forall i :: 0 <= i < |rows| && Classify(rows[i].dayOff, parse).exempt ==> s.totals[i] == 0)
  {
    var names := Names(rows);
    var exempt := ExemptSet(rows, parse);
    var marked := Plan(rows, dates, parse, shuffle).marked;
    var s := Tabulate(names, Columns(dates), marked);
    MarksRespectAvailability(names, OffdayMap(rows, parse), exempt, dates, shuffle);
    forall i | 0 <= i < |rows| && Classify(rows[i].dayOff, parse).exempt
      ensures forall j :: 0 <= j < |s.columns| ==> !s.cells[i][j]
      ensures s.totals[i] == 0
    {
      assert rows[i].name in exempt;
      forall j | 0 <= j < |s.columns| ensures !s.cells[i][j] {
        assert s.cells[i][j] == ((rows[i].name, s.columns[j]) in marked);
      }
      CountMarksNone(s.cells[i]);
    }
  }

  /** No mark falls on a day off of a teacher's last row: that row's
      entry is the one the `offdays` dictionary keeps. */
  lemma DaysOffUnmarked(rows: seq<TeacherRow>, dates: seq<ExamDate>, parse: DateParser, shuffle: Shuffler)
    requires IsShuffler(shuffle)
    ensures var s := Tabulate(Names(rows), Columns(dates), Plan(rows, dates, parse, shuffle).marked);
            forall i, j :: 0 <= i < |rows| && IsLastRow(rows, i) && 0 <= j < |s.columns| ==>
              (s.columns[j] in Classify(rows[i].dayOff, parse).offdays ==> !s.cells[i][j])
  {
    var names := Names(rows);
    var offdays := OffdayMap(rows, parse);
    var exempt := ExemptSet(rows, parse);
    var s := Tabulate(names, Columns(dates), Plan(rows, dates, parse, shuffle).marked);
    MarksRespectAvailability(names, offdays, exempt, dates, shuffle);
    forall i, j | 0 <= i < |rows| && IsLastRow(rows, i) && 0 <= j < |s.columns| &&
                  s.columns[j] in Classify(rows[i].dayOff, parse).offdays
      ensures !s.cells[i][j]
    {
      OffdayMapLastRow(rows, parse, i);
    }
  }

  /** With distinct names and dates, "Total Duties" equals `duty_count`. */
  lemma TotalsMatchLoads(rows: seq<TeacherRow>, dates: seq<ExamDate>, parse: DateParser, shuffle: Shuffler)
    requires IsShuffler(shuffle) && Distinct(Names(rows)) && Distinct(DatesOf(dates))
    ensures var t := Plan(rows, dates, parse, shuffle);
            var s := Tabulate(Names(rows), Columns(dates), t.marked);
            forall i :: 0 <= i < |rows| ==> s.totals[i] == Load(t.loads, rows[i].name)
  {
    var names := Names(rows);
    var t := Plan(rows, dates, parse, shuffle);
    var s := Tabulate(names, Columns(dates), t.marked);
    ColumnsOfDistinct(dates);
    forall i | 0 <= i < |rows| ensures s.totals[i] == Load(t.loads, rows[i].name) {
      LoadsCountMarks(names, OffdayMap(rows, parse), ExemptSet(rows, parse), dates, shuffle, rows[i].name);
    }
  }
}
