/** Reading the "Day Off" column of the Teachers sheet: each teacher is
    either exempt from invigilation, free of exclusions, or excluded on a
    set of dates; the loop over the rows fills the `offdays` dictionary
    and the `exempt_teachers` set. */
module DayOff {
  import opened Text

  /** A calendar date in the canonical YYYY-MM-DD text form, the key
      that exam dates and day-off dates are compared by. */
  type Date = string

  datatype Option<T> = None | Some(value: T)

  /** pandas.to_datetime(text, dayfirst=True).strftime("%Y-%m-%d"):
      the canonical date, or None where the library raises. */
  type DateParser = string -> Option<Date>

  /** One row of the Teachers sheet, "Day Off" already turned into text. */
  datatype TeacherRow = TeacherRow(name: string, dayOff: string)

  /** The "Name of Teacher" column. */
  function Names(rows: seq<TeacherRow>): (names: seq<string>)
    ensures |names| == |rows| && forall i :: 0 <= i < |rows| ==> names[i] == rows[i].name
  {
    seq(|rows|, i requires 0 <= i < |rows| => rows[i].name)
  }

  /** The tokens the lowered, stripped cell is compared with; the upper-case
      "NA" is in the source's list too (see ExemptIffToken). */
  const ExemptTokens: seq<string> := ["na", "leave", "off", "exempt", "NA"]

  /** What one Day Off cell says about its teacher. */
  datatype DayOffStatus = DayOffStatus(exempt: bool, offdays: set<Date>)

  /** The stripped, non-blank pieces, in order. */
  function NonBlank(pieces: seq<string>): (items: seq<string>)
    ensures |items| <= |pieces|
    ensures forall i :: 0 <= i < |items| ==> items[i] != []
    ensures forall x :: x in items <==> exists j :: 0 <= j < |pieces| && x == Trim(pieces[j]) && x != []
  {
    if pieces == [] then []
    else
      var head := Trim(pieces[0]);
      var rest := NonBlank(pieces[1..]);
      assert forall j :: 1 <= j < |pieces| ==> pieces[j] == pieces[1..][j - 1];
      if head == [] then rest else [head] + rest
  }

  /** The items of a comma-separated Day Off list: each piece stripped,
      blank pieces dropped. */
  function Items(raw: string): (items: seq<string>)
    ensures forall i :: 0 <= i < |items| ==> items[i] != [] && ',' !in items[i]
  {
    var pieces := Split(raw, ',');
    TrimKeepsOut(pieces, ',');
    var items := NonBlank(pieces);
    assert forall i :: 0 <= i < |items| ==> items[i] in items;
    items
  }

  /** The set built from parsing every item; None when some item fails to
      parse, which the source catches as an exception. */
  function ParseDates(items: seq<string>, parse: DateParser): (r: Option<set<Date>>)
    ensures r.Some? <==> forall i :: 0 <= i < |items| ==> parse(items[i]).Some?
    ensures r.Some? ==> forall d :: d in r.value <==> exists i :: 0 <= i < |items| && parse(items[i]) == Some(d)
  {
    if forall i | 0 <= i < |items| :: parse(items[i]).Some? then
      Some(set i | 0 <= i < |items| && parse(items[i]).Some? :: parse(items[i]).value)
    else
      None
  }

  /** Classifies one Day Off cell. */
  function Classify(cell: string, parse: DateParser): (status: DayOffStatus)
    ensures status.exempt ==> status.offdays == {}
  {
    var raw := Trim(cell);
    if Lower(raw) in ExemptTokens then DayOffStatus(true, {})
    else if raw == [] || Lower(raw) == "nan" then DayOffStatus(false, {})
    else
      match ParseDates(Items(raw), parse)
      case Some(dates) => DayOffStatus(false, dates)
      case None => DayOffStatus(false, {})
  }

  /** Lowered text never equals the upper-case token "NA". */
  lemma LowerIsNotUpperNA(s: string)
    ensures Lower(s) != "NA"
  {
    var l := Lower(s);
    if |l| == 2 {
      assert !IsUpper(l[0]);
      assert l[0] != "NA"[0];
    }
  }

  /** A teacher is exempt exactly when the stripped, lowered cell is one
      of na, leave, off, exempt (the "NA" entry can never match), and an
      exempt teacher has no day-off dates. */
  lemma ExemptIffToken(cell: string, parse: DateParser)
    ensures Classify(cell, parse).exempt <==> Lower(Trim(cell)) in {"na", "leave", "off", "exempt"}
    ensures Classify(cell, parse).exempt ==> Classify(cell, parse).offdays == {}
  {
    LowerIsNotUpperNA(Trim(cell));
  }

  /** An empty cell, or one reading "nan" (how pandas renders a missing
      cell as text), leaves the teacher assignable with no exclusions. */
  lemma BlankMeansNoExclusions(cell: string, parse: DateParser)
    requires Trim(cell) == [] || Lower(Trim(cell)) == "nan"
    ensures Classify(cell, parse) == DayOffStatus(false, {})
  {
  }

  /** Any other cell is a date list: the teacher is not exempt, and the
      day-off dates are the parses of its items when every item parses,
      and none at all when some item fails. */
  lemma DateListClassification(cell: string, parse: DateParser, d: Date)
    requires Trim(cell) != [] && Lower(Trim(cell)) !in ExemptTokens && Lower(Trim(cell)) != "nan"
    ensures !Classify(cell, parse).exempt
    ensures d in Classify(cell, parse).offdays <==>
              (forall item :: item in Items(Trim(cell)) ==> parse(item).Some?) &&
              (exists item :: item in Items(Trim(cell)) && parse(item) == Some(d))
  {
    var items := Items(Trim(cell));
    var parsed := ParseDates(items, parse);
    assert Classify(cell, parse) == DayOffStatus(false, if parsed.Some? then parsed.value else {});
    if d in Classify(cell, parse).offdays {
      var i :| 0 <= i < |items| && parse(items[i]) == Some(d);
      assert items[i] in items;
    }
    if forall item :: item in items ==> parse(item).Some? {
      assert forall i :: 0 <= i < |items| ==> items[i] in items;
    }
  }

  /** The `offdays` dictionary after the loop over the rows: one entry per
      name, the last row with that name deciding its value. */
  function OffdayMap(rows: seq<TeacherRow>, parse: DateParser): (m: map<string, set<Date>>)
    ensures forall x :: x in m <==> exists i :: 0 <= i < |rows| && rows[i].name == x
  {
    if rows == [] then map[]
    else
      var last := rows[|rows| - 1];
      var m := OffdayMap(rows[..|rows| - 1], parse)[last.name := Classify(last.dayOff, parse).offdays];
      assert forall i :: 0 <= i < |rows| - 1 ==> rows[..|rows| - 1][i] == rows[i];
      m
  }

  /** No later row carries the same name as row i. */
  predicate IsLastRow(rows: seq<TeacherRow>, i: nat)
  {
    forall j :: i < j < |rows| ==> rows[j].name != rows[i].name
  }

  /** Last write wins: the entry for a name is the classification of the
      last row carrying that name. */
  lemma {:induction false} OffdayMapLastRow(rows: seq<TeacherRow>, parse: DateParser, i: nat)
    requires i < |rows| && IsLastRow(rows, i)
    ensures rows[i].name in OffdayMap(rows, parse)
    ensures OffdayMap(rows, parse)[rows[i].name] == Classify(rows[i].dayOff, parse).offdays
  {
    var n := |rows| - 1;
    var before := OffdayMap(rows[..n], parse);
    var m := OffdayMap(rows, parse);
    assert m == before[rows[n].name := Classify(rows[n].dayOff, parse).offdays];
    if i < n {
      var x := rows[i].name;
      assert rows[n].name != x;
      assert rows[..n][i] == rows[i];
      assert IsLastRow(rows[..n], i) by {
        forall j | i < j < n ensures rows[..n][j].name != rows[..n][i].name {
          assert rows[..n][j] == rows[j];
        }
      }
      OffdayMapLastRow(rows[..n], parse, i);
      assert m[x] == before[x];
    } else {
      assert rows[i] == rows[n];
    }
  }

  /** The `exempt_teachers` set after the loop: a name is in it when any
      row with that name is exempt (names are only ever added). */
  function ExemptSet(rows: seq<TeacherRow>, parse: DateParser): (e: set<string>)
    ensures forall x :: x in e <==>
              exists i :: 0 <= i < |rows| && rows[i].name == x && Classify(rows[i].dayOff, parse).exempt
  {
    if rows == [] then {}
    else
      var last := rows[|rows| - 1];
      var e := ExemptSet(rows[..|rows| - 1], parse) + (if Classify(last.dayOff, parse).exempt then {last.name} else {});
      assert forall i :: 0 <= i < |rows| - 1 ==> rows[..|rows| - 1][i] == rows[i];
      e
  }

  /** The loop over the Teachers sheet that fills `offdays` and
      `exempt_teachers`. */
  method BuildAvailability(rows: seq<TeacherRow>, parse: DateParser)
    returns (offdays: map<string, set<Date>>, exempt: set<string>)
    ensures offdays == OffdayMap(rows, parse)
    ensures exempt == ExemptSet(rows, parse)
  {
    offdays := map[];
    exempt := {};
    for i := 0 to |rows|
      invariant offdays == OffdayMap(rows[..i], parse)
      invariant exempt == ExemptSet(rows[..i], parse)
    {
      assert rows[..i + 1][..i] == rows[..i];
      var status := Classify(rows[i].dayOff, parse);
      if status.exempt {
        exempt := exempt + {rows[i].name};
        offdays := offdays[rows[i].name := {}];
      } else {
        offdays := offdays[rows[i].name := status.offdays];
      }
    }
    assert rows[..|rows|] == rows;
  }
}
