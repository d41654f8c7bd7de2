# Exam invigilation duty allocator, modelled in Dafny

The program reads two sheets from a workbook. The Teachers sheet gives each
teacher's name and a "Day Off" cell. The Dates sheet gives each exam date and
the number of invigilators it needs. `assign_duties` then builds a schedule,
with one row per teacher, one column per exam date, a check mark for every
duty and a "Total Duties" column.

The allocation works in two stages:

1. **Day Off cells.** Each cell is read once.
   - A cell reading na, leave, off or exempt makes the teacher exempt from
     all duties.
   - An empty cell, or one reading "nan", imposes no exclusions.
   - Any other cell is a comma-separated list of dates, each of which
     becomes a day off. If any item fails to parse, the whole cell imposes
     no exclusions.
2. **Exam dates, in sheet order.** For each date:
   - The eligible teachers are the non-exempt ones without that day off,
     listed in sheet order.
   - That list is shuffled, then stably sorted by the number of duties each
     teacher already has.
   - The first `required` teachers are picked. Each is marked on the date
     and has their count raised by one.

The model is split into four modules:

- `Text`: `str.strip`, `str.lower` and `str.split`.
- `DayOff`: classifying a Day Off cell, and the loop that fills `offdays`
  and `exempt_teachers`.
- `Selection`: the eligible list, the sort by load and the slice.
- `Allocation`: the loop over the dates, the schedule columns and totals,
  and the whole of `assign_duties`.

The three loops of the source are imperative methods, each with a loop
invariant that ties the running state to a specification function:

- `BuildAvailability`: the loop over the teacher rows, against `OffdayMap`
  and `ExemptSet`.
- `AssignDuties`: the loop over the exam dates, against `Allocate`.
- `CreditPicked`: the loop over the picked teachers, against `Credit`.

The properties are proved as lemmas about those functions.

Things the program does not control are parameters:

- The shuffle is a function of the date's position and the list. All the
  model assumes is that every outcome is a permutation (`IsShuffler`), so
  every property holds for every shuffle.
- Date parsing (`pandas.to_datetime(..., dayfirst=True)` followed by
  `strftime`) is a function from text to an optional canonical date. None
  stands for the library raising.

Several behaviours of the code are modelled as they are written:

- The list of exempt tokens also contains the upper-case "NA". Because the
  cell is lowered first, that entry can never match (`LowerIsNotUpperNA`).
  Exemption is therefore exactly the four lower-case tokens.
- An empty cell or "nan" leaves the teacher assignable. It is not
  exemption.
- A requirement larger than the number of eligible teachers picks all of
  them and leaves the shortfall unfilled.
- A negative requirement follows Python slicing: `a[:-n]` drops `n`
  teachers from the end of the sorted list (`PickCount`).
- A name occurring on several rows:
  - The last row decides its day-off dates, because later assignments to
    the dictionary overwrite earlier ones.
  - Any exempt row makes the name exempt.
  - The name is eligible once per row.
  - A mark goes to every row carrying the name.
  - For these reasons, "Total Duties" equals the duty count only when
    names (and dates) are distinct (`TotalsMatchLoads`).
- An exam date repeated in the Dates sheet reuses one schedule column.

## Model

| member | source | states |
|---|---|---|
| Text.TrimSpec | examduty.py:104 | `strip()` returns the slice of the text left after removing only whitespace at both ends; the result is empty exactly when the text is all whitespace, and otherwise neither starts nor ends with whitespace |
| Text.TrimIdempotent | examduty.py:104 | a general property of `strip()`: stripping twice is stripping once |
| Text.Trim | examduty.py:104 | `strip()` with no argument: the text between the leading and the trailing run of whitespace, with whitespace as in `str.isspace`; TrimSpec states what it returns |
| Text.Lower | examduty.py:106 | lowering keeps the length and leaves no upper-case letter |
| Text.LowerMatches | examduty.py:106-109 | a text lowers to a given text without capitals exactly when it has the same length and each character is the given one or its capital, so the token tests at lines 106 and 109 ignore case |
| Text.Split | examduty.py:115 | splitting on a comma gives at least one piece and no piece contains a comma |
| Text.JoinSplit | examduty.py:115 | joining the pieces of a split with the separator gives back the text |
| Text.SplitJoin | examduty.py:115 | conversely, pieces free of the separator are exactly what splitting their join returns |
| DayOff.LowerIsNotUpperNA | examduty.py:106 | no lowered text equals "NA", so that entry of the token list never matches |
| DayOff.ExemptIffToken | examduty.py:104-108 | a teacher is exempt exactly when the stripped, lowered cell is na, leave, off or exempt, and an exempt teacher gets no day-off dates |
| DayOff.BlankMeansNoExclusions | examduty.py:109-110 | an empty cell or "nan" gives a non-exempt teacher with no day-off dates |
| DayOff.NonBlank | examduty.py:114-115 | as a set, the items kept are exactly the stripped pieces that are non-empty, which is all the set built at line 113 observes |
| DayOff.Items | examduty.py:115 | the items of a Day Off list: the comma-separated pieces, stripped, blank ones dropped; none is empty or holds a comma |
| DayOff.ParseDates | examduty.py:112-118 | parsing succeeds exactly when every item parses, and the dates are then exactly the parses of the items |
| DayOff.Classify | examduty.py:104-118 | what one Day Off cell says about its teacher, one branch per case of lines 106-118; an exempt result carries no day-off dates |
| DayOff.DateListClassification | examduty.py:111-118 | any other cell gives a non-exempt teacher whose day-off dates are the parses of its items when all of them parse, and none when any fails |
| DayOff.OffdayMap | examduty.py:99-118 | the `offdays` dictionary has exactly one key per name in the sheet |
| DayOff.OffdayMapLastRow | examduty.py:102-118 | a name's entry in `offdays` is the classification of the last row with that name |
| DayOff.ExemptSet | examduty.py:100-108 | a name is in `exempt_teachers` exactly when some row with that name classifies as exempt |
| DayOff.BuildAvailability | examduty.py:99-118 | the loop over the rows ends with `offdays` and `exempt_teachers` equal to OffdayMap and ExemptSet |
| Selection.Eligible | examduty.py:126-129 | the eligible list holds each name as often as it is listed when it is non-exempt and not off on the date, and otherwise not at all |
| Selection.SortByLoad | examduty.py:132 | the sorted list is ordered by duty count and is a permutation of its input |
| Selection.SortStable | examduty.py:131-132 | the sort is stable: teachers of equal load keep their shuffled order |
| Selection.SliceEnd | examduty.py:134 | the slice never keeps more teachers than the list holds |
| Selection.Pick | examduty.py:132-134 | `selected_teachers` from the shuffled list: sorted by load and cut by the slice; no longer than the list and still ordered by load |
| Selection.PickCount | examduty.py:134 | min(required, eligible) teachers are picked for a non-negative requirement; a negative one drops that many from the end |
| Selection.PickFromEligible | examduty.py:126-134 | the picked teachers form a sub-multiset of the eligible list |
| Selection.PickLeastLoaded | examduty.py:131-134 | no eligible teacher left out has fewer duties than a picked one, whatever the shuffle |
| Selection.PickTieBreak | examduty.py:131-134 | among teachers of one load, those picked are the first of that load in the shuffled order |
| Allocation.Credit | examduty.py:136-138 | the state after the loop over the picked teachers; it never removes a mark or lowers a count, and CreditEffect states the exact change |
| Allocation.CreditEffect | examduty.py:136-138 | the loop over picked teachers raises each count by how often the teacher was picked and adds marks for exactly the picked teachers on that date |
| Allocation.CreditPicked | examduty.py:136-138 | the loop over `selected_teachers` ends in the state that Credit specifies |
| Allocation.Chosen | examduty.py:126-134 | `selected_teachers` for the k-th exam date given the counts so far: eligible, shuffled, sorted, sliced; ordered by those counts |
| Allocation.Allocate | examduty.py:122-138 | the counts and marks after the given exam dates in order; DateSelection, DateUpdate, MarksRespectAvailability and Balanced state its properties |
| Allocation.DateSelection | examduty.py:122-138 | on every exam date the requirement is met up to the number eligible, all picks are eligible, and the least loaded are chosen |
| Allocation.DateUpdate | examduty.py:122-138 | with distinct names, a date raises each picked teacher's count by one, leaves every other count unchanged, and adds marks only in its own column |
| Allocation.ChosenAvailable | examduty.py:126-134 | every teacher picked on a date is listed, non-exempt and not off that date |
| Allocation.MarksRespectAvailability | examduty.py:122-138 | every mark is for a listed, non-exempt teacher on an exam date that is not among their days off |
| Allocation.IdleUnlessAvailable | examduty.py:126-138 | an exempt or unlisted teacher's duty count stays zero |
| Allocation.Balanced | examduty.py:126-138 | with distinct names and every teacher available on every date, counts never differ by more than one |
| Allocation.Columns | examduty.py:95-97 | the date columns are distinct and are exactly the exam dates |
| Allocation.ColumnsOfDistinct | examduty.py:95-97 | distinct exam dates give one column each, in sheet order |
| Allocation.Row | examduty.py:137 | a teacher's row has one cell per column, marked exactly when that name was picked on that date |
| Allocation.Tabulate | examduty.py:140 | the schedule has the teachers' rows in sheet order with their cells, and each total is the number of marks in the row |
| Allocation.CountMarks | examduty.py:140 | the "Total Duties" of a row: the number of marked cells, as a count of `true` in the row |
| Allocation.CountMarksNone | examduty.py:140 | a row without marks totals zero |
| Allocation.LoadsCountMarks | examduty.py:136-140 | with distinct names and dates, the marks in a teacher's row number exactly their duty count |
| Allocation.ExemptRowsIdle | examduty.py:106-140 | an exempt teacher's row holds no mark and totals zero |
| Allocation.DaysOffUnmarked | examduty.py:113-137 | no mark falls on a date among the day-off dates of a teacher's last row |
| Allocation.TotalsMatchLoads | examduty.py:136-140 | with distinct names and dates, "Total Duties" equals `duty_count` |
| Allocation.Plan | examduty.py:99-138 | the counts and marks computed from the two sheets: Allocate over the names, the `offdays` dictionary and the exempt set that the rows give |
| Allocation.AssignDuties | examduty.py:95-140 | the computed counts and schedule are those that Allocate and Tabulate specify; exempt rows are empty, days off are respected, and totals equal counts when names and dates are distinct |

## Left out

- The Streamlit page, the background image and the sample workbook generator: these are user interface only.
- Reading the workbook, stripping the column names (lines 85-89) and writing the result to an Excel stream (lines 142-146): these are I/O. The model starts from the rows and returns the schedule as a value.
- Parsing the exam dates (line 92): each exam date is taken already in canonical YYYY-MM-DD form. A date that fails to parse there aborts the program.
- Converting the Day Off cell with `astype(str)` (line 93): each cell is taken as text. A missing cell reaches the model as "nan", as pandas renders it.
- pandas date parsing and formatting: a parameter (`DateParser`). Its rules for day-first dates are not modelled.
- IsShuffler: constrains the shuffle only to return a permutation. Uniform randomness is not modelled, so no property depends on it.
- `int()` on the requirement (line 124): the requirement is taken as an integer. The error raised for a non-numeric cell is not modelled.
- Lower: lowers only the ASCII letters. Python lowers all of Unicode. No decision depends on the difference. The only non-ASCII characters that Python lowers into ASCII letters produce k or i, and neither letter occurs in the tokens compared against.
- In-place mutation of the eligible list by the shuffle and the sort is modelled on values.
- Reading `duty_count[x]` inside the sort key inserts x into the defaultdict. In the model the key set of the counts is only the names ever picked; every count read agrees.
- AssignDuties: the check-mark cells are computed from the set of marked (name, date) pairs once the loop ends, not written into the table during the loop; the resulting cells are the same.
- OffdayMap: its own contract states only the key set. Last-write-wins is stated by OffdayMapLastRow.
