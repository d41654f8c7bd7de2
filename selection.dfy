/** Choosing the invigilators for one exam date: the eligible teachers in
    sheet order, shuffled, stably sorted by how many duties each already
    has, and cut to the number required. */
module Selection {
  import opened DayOff

  /** The running tally `duty_count`, a defaultdict(int): a name never
      counted reads as 0. */
  function Load(counts: map<string, nat>, x: string): nat
  {
    if x in counts then counts[x] else 0
  }

  /** No element occurs twice. */
  predicate Distinct<T(==)>(s: seq<T>)
  {
    forall i, j :: 0 <= i < j < |s| ==> s[i] != s[j]
  }

  /** In a list without repetitions every element occurs at most once. */
  lemma {:induction false} DistinctOnce<T>(s: seq<T>)
    requires Distinct(s)
    ensures forall x :: multiset(s)[x] <= 1
  {
    if s != [] {
      var n := |s| - 1;
      assert s == s[..n] + [s[n]];
      assert Distinct(s[..n]);
      DistinctOnce(s[..n]);
      assert s[n] !in s[..n];
    }
  }

  /** offdays.get(x, set()). */
  function OffdaysOf(offdays: map<string, set<Date>>, x: string): set<Date>
  {
    if x in offdays then offdays[x] else {}
  }

  /** The eligibility test of the list comprehension. */
  predicate Available(offdays: map<string, set<Date>>, exempt: set<string>, date: Date, x: string)
  {
    x !in exempt && date !in OffdaysOf(offdays, x)
  }

  /** `available_teachers` before the shuffle: the names that pass the
      test, in sheet order, a repeated name once per row. */
  function Eligible(names: seq<string>, offdays: map<string, set<Date>>, exempt: set<string>, date: Date): (e: seq<string>)
    ensures forall x :: multiset(e)[x] == if Available(offdays, exempt, date, x) then multiset(names)[x] else 0
    ensures forall x :: x in e <==> x in names && Available(offdays, exempt, date, x)
  {
    if names == [] then []
    else
      var n := |names| - 1;
      var rest := Eligible(names[..n], offdays, exempt, date);
      assert names == names[..n] + [names[n]];
      if Available(offdays, exempt, date, names[n]) then rest + [names[n]] else rest
  }

  predicate SortedByLoad(s: seq<string>, counts: map<string, nat>)
  {
    forall i, j :: 0 <= i < j < |s| ==> Load(counts, s[i]) <= Load(counts, s[j])
  }

  /** The elements of s whose load is c, in their order in s. */
  function WithLoad(s: seq<string>, counts: map<string, nat>, c: nat): seq<string>
  {
    if s == [] then []
    else (if Load(counts, s[0]) == c then [s[0]] else []) + WithLoad(s[1..], counts, c)
  }

  lemma {:induction false} WithLoadAppend(s: seq<string>, t: seq<string>, counts: map<string, nat>, c: nat)
    ensures WithLoad(s + t, counts, c) == WithLoad(s, counts, c) + WithLoad(t, counts, c)
  {
    if s != [] {
      assert (s + t)[1..] == s[1..] + t;
      WithLoadAppend(s[1..], t, counts, c);
    } else {
      assert s + t == t;
    }
  }

  /** Puts x in front of the first element whose load is at least its own. */
  function InsertByLoad(x: string, s: seq<string>, counts: map<string, nat>): seq<string>
  {
    if s == [] || Load(counts, x) <= Load(counts, s[0]) then [x] + s
    else [s[0]] + InsertByLoad(x, s[1..], counts)
  }

  /** Inserting into a sorted list keeps it sorted. */
  lemma {:induction false} InsertSorted(x: string, s: seq<string>, counts: map<string, nat>)
    requires SortedByLoad(s, counts)
    ensures SortedByLoad(InsertByLoad(x, s, counts), counts)
    ensures var r := InsertByLoad(x, s, counts); r != [] && (r[0] == x || (s != [] && r[0] == s[0]))
  {
    if !(s == [] || Load(counts, x) <= Load(counts, s[0])) {
      var tail := InsertByLoad(x, s[1..], counts);
      InsertSorted(x, s[1..], counts);
      var r := [s[0]] + tail;
      forall i, j | 0 <= i < j < |r| ensures Load(counts, r[i]) <= Load(counts, r[j]) {
        assert r[j] == tail[j - 1];
        if i == 0 {
          assert Load(counts, r[0]) <= Load(counts, tail[0]);
        } else {
          assert r[i] == tail[i - 1];
        }
      }
    }
  }

  /** Inserting adds exactly x. */
  lemma {:induction false} InsertPermutes(x: string, s: seq<string>, counts: map<string, nat>)
    ensures multiset(InsertByLoad(x, s, counts)) == multiset(s) + multiset{x}
  {
    if !(s == [] || Load(counts, x) <= Load(counts, s[0])) {
      InsertPermutes(x, s[1..], counts);
      assert s == [s[0]] + s[1..];
    }
  }

  /** Inserting x adds it in front of the elements of its own load. */
  lemma {:induction false} InsertWithLoad(x: string, s: seq<string>, counts: map<string, nat>, c: nat)
    requires SortedByLoad(s, counts)
    ensures WithLoad(InsertByLoad(x, s, counts), counts, c) == (if Load(counts, x) == c then [x] else []) + WithLoad(s, counts, c)
  {
    var hx := if Load(counts, x) == c then [x] else [];
    if s == [] || Load(counts, x) <= Load(counts, s[0]) {
      var r := [x] + s;
      assert InsertByLoad(x, s, counts) == r;
      assert r[0] == x && r[1..] == s;
      assert WithLoad(r, counts, c) == hx + WithLoad(r[1..], counts, c);
    } else {
      var tail := InsertByLoad(x, s[1..], counts);
      var r := [s[0]] + tail;
      assert InsertByLoad(x, s, counts) == r;
      assert r[0] == s[0] && r[1..] == tail;
      var h0 := if Load(counts, s[0]) == c then [s[0]] else [];
      assert SortedByLoad(s[1..], counts) by {
        forall i, j | 0 <= i < j < |s| - 1 ensures Load(counts, s[1..][i]) <= Load(counts, s[1..][j]) {
          assert s[1..][i] == s[i + 1] && s[1..][j] == s[j + 1];
        }
      }
      InsertWithLoad(x, s[1..], counts, c);
      var rest := WithLoad(s[1..], counts, c);
      assert WithLoad(r, counts, c) == h0 + WithLoad(tail, counts, c);
      assert WithLoad(s, counts, c) == h0 + rest;
      assert h0 == [] || hx == [];
      assert h0 + (hx + rest) == hx + (h0 + rest);
    }
  }

  /** available_teachers.sort(key=lambda x: duty_count[x]): ascending by
      load, a permutation of its input. */
  function SortByLoad(s: seq<string>, counts: map<string, nat>): (r: seq<string>)
    ensures SortedByLoad(r, counts)
    ensures multiset(r) == multiset(s)
  {
    if s == [] then []
    else
      var rest := SortByLoad(s[1..], counts);
      InsertSorted(s[0], rest, counts);
      InsertPermutes(s[0], rest, counts);
      assert s == [s[0]] + s[1..];
      InsertByLoad(s[0], rest, counts)
  }

  /** Python's sort is stable: within one load, the sorted list keeps the
      order it was given. */
  lemma {:induction false} SortStable(s: seq<string>, counts: map<string, nat>, c: nat)
    ensures WithLoad(SortByLoad(s, counts), counts, c) == WithLoad(s, counts, c)
  {
    if s != [] {
      SortStable(s[1..], counts, c);
      InsertWithLoad(s[0], SortByLoad(s[1..], counts), counts, c);
    }
  }

  /** How many elements a[:min(required, n)] keeps of a list of length n:
      a negative stop counts from the end, as Python slices do. */
  function SliceEnd(required: int, n: nat): (k: nat)
    ensures k <= n
  {
    var stop := if required < n then required else n;
    if stop >= 0 then stop
    else if n + stop >= 0 then n + stop
    else 0
  }

  /** `selected_teachers` for one date: the shuffled eligible list, sorted
      by load, cut by the slice. */
  function Pick(shuffled: seq<string>, counts: map<string, nat>, required: int): (picked: seq<string>)
    ensures |picked| <= |shuffled| && SortedByLoad(picked, counts)
  {
    var ordered := SortByLoad(shuffled, counts);
    assert |multiset(ordered)| == |multiset(shuffled)|;
    ordered[..SliceEnd(required, |ordered|)]
  }

  /** For a non-negative requirement, min(required, |eligible|) teachers
      are picked, any shortfall left unfilled; a negative requirement
      drops that many teachers from the end of the sorted list. */
  lemma PickCount(eligible: seq<string>, shuffled: seq<string>, counts: map<string, nat>, required: int)
    requires multiset(shuffled) == multiset(eligible)
    ensures required >= 0 ==> |Pick(shuffled, counts, required)| == if required < |eligible| then required else |eligible|
    ensures required < 0 ==> |Pick(shuffled, counts, required)| == if |eligible| + required > 0 then |eligible| + required else 0
  {
    assert |multiset(shuffled)| == |multiset(eligible)|;
  }

  /** Every picked teacher is eligible, and no more often than listed. */
  lemma PickFromEligible(eligible: seq<string>, shuffled: seq<string>, counts: map<string, nat>, required: int)
    requires multiset(shuffled) == multiset(eligible)
    ensures multiset(Pick(shuffled, counts, required)) <= multiset(eligible)
  {
    var ordered := SortByLoad(shuffled, counts);
    var k := SliceEnd(required, |ordered|);
    assert ordered == ordered[..k] + ordered[k..];
  }

  /** In a list sorted by load, a prefix carries no more load than the rest. */
  lemma SortedSplit(ordered: seq<string>, counts: map<string, nat>, k: nat)
    requires SortedByLoad(ordered, counts) && k <= |ordered|
    ensures forall x, y :: x in ordered[..k] && y in ordered[k..] ==> Load(counts, x) <= Load(counts, y)
  {
    forall x, y | x in ordered[..k] && y in ordered[k..]
      ensures Load(counts, x) <= Load(counts, y)
    {
      var i :| 0 <= i < k && ordered[..k][i] == x;
      var j :| 0 <= j < |ordered| - k && ordered[k..][j] == y;
      assert ordered[i] == x && ordered[k + j] == y;
    }
  }

  /** Least-loaded first: no teacher left out has fewer duties than a
      teacher picked, whatever the shuffle. */
  lemma PickLeastLoaded(eligible: seq<string>, shuffled: seq<string>, counts: map<string, nat>, required: int)
    requires multiset(shuffled) == multiset(eligible)
    ensures var picked := Pick(shuffled, counts, required);
            forall x, y :: x in picked && y in multiset(eligible) - multiset(picked) ==> Load(counts, x) <= Load(counts, y)
  {
    var ordered := SortByLoad(shuffled, counts);
    var k := SliceEnd(required, |ordered|);
    var picked := ordered[..k];
    var rest := ordered[k..];
    SortedSplit(ordered, counts, k);
    assert ordered == picked + rest;
    assert multiset(eligible) - multiset(picked) == multiset(rest) by {
      assert multiset(eligible) == multiset(picked) + multiset(rest);
    }
  }

  /** Random among equals: of the teachers with a given load, those picked
      are the first ones of that load in the shuffled list. */
  lemma PickTieBreak(shuffled: seq<string>, counts: map<string, nat>, required: int, c: nat)
    ensures var picked := WithLoad(Pick(shuffled, counts, required), counts, c);
            var all := WithLoad(shuffled, counts, c);
            |picked| <= |all| && picked == all[..|picked|]
  {
    var ordered := SortByLoad(shuffled, counts);
    var k := SliceEnd(required, |ordered|);
    assert ordered == ordered[..k] + ordered[k..];
    WithLoadAppend(ordered[..k], ordered[k..], counts, c);
    SortStable(shuffled, counts, c);
  }
}
