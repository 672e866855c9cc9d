/**
 The collection (`RomanEmpire` in class.py): the emperors in insertion order,
 the set of dynasty labels kept in step with them, and the queries.

 Filters return exactly the in-order selection of a predicate (`IsSelection`);
 the top-N queries return a prefix of the stable sort by their key, where a
 descending query sorts stably by the negated key.
 */
module RomanEmpire {
  import opened Wrappers
  import opened Text
  import opened Seqs
  import opened StableSort
  import opened RomanEmperor

  datatype Empire = Empire(emperors: seq<Emperor>, dynasties: set<string>)

  /** A freshly constructed collection: no emperors, no dynasties. */
  const NewEmpire: Empire := Empire([], {})

  // ---------------------------------------------------------------------------
  // The dynasty set

  /** The label a record contributes to the dynasty set: none when its dynasty is falsy. */
  function DynastyLabel(e: Emperor): set<string> {
    if Truthy(e.dynasty) then {e.dynasty.value} else {}
  }

  function Labels(s: seq<Emperor>): set<string>
    decreases |s|
  {
    if |s| == 0 then {} else Labels(s[..|s| - 1]) + DynastyLabel(s[|s| - 1])
  }

  /** `Labels` holds exactly the non-empty dynasty labels of the records. */
  lemma {:induction false} LabelsExactly(s: seq<Emperor>, lbl: string)
    ensures lbl in Labels(s) <==>
            exists i :: 0 <= i < |s| && Truthy(s[i].dynasty) && s[i].dynasty.value == lbl
    decreases |s|
  {
    if |s| > 0 {
      var init := s[..|s| - 1];
      LabelsExactly(init, lbl);
      if lbl in Labels(init) {
        var i :| 0 <= i < |init| && Truthy(init[i].dynasty) && init[i].dynasty.value == lbl;
        assert s[i] == init[i];
      }
      if i :| 0 <= i < |s| && Truthy(s[i].dynasty) && s[i].dynasty.value == lbl {
        if i < |s| - 1 {
          assert init[i] == s[i];
        }
      }
    }
  }

  /** The class invariant: the dynasty set is derived from the emperors. */
  predicate Valid(emp: Empire) {
    emp.dynasties == Labels(emp.emperors)
  }

  /**
   `add_emperor`: appends the record, leaving the earlier ones in place, and
   adds its dynasty to the set when the dynasty is truthy.
   */
  function AddEmperor(emp: Empire, x: Emperor): (r: Empire)
    ensures |r.emperors| == |emp.emperors| + 1 && r.emperors[|emp.emperors|] == x
    ensures r.emperors[..|emp.emperors|] == emp.emperors
    ensures Valid(emp) ==> Valid(r)
  {
    var emperors := emp.emperors + [x];
    assert emperors[..|emperors| - 1] == emp.emperors;
    Empire(emperors, if Truthy(x.dynasty) then emp.dynasties + {x.dynasty.value} else emp.dynasties)
  }

  /** The dynasty set grows by at most the new record's truthy label. */
  lemma AddEmperorDynasties(emp: Empire, x: Emperor)
    ensures Truthy(x.dynasty) ==> AddEmperor(emp, x).dynasties == emp.dynasties + {x.dynasty.value}
    ensures !Truthy(x.dynasty) ==> AddEmperor(emp, x).dynasties == emp.dynasties
  {
  }

  /** Adding a record whose dynasty is already present leaves the set, and its size, unchanged. */
  lemma ReAddingDynastyKeepsSet(emp: Empire, x: Emperor, i: int)
    requires Valid(emp)
    requires 0 <= i < |emp.emperors| && Truthy(x.dynasty) && emp.emperors[i].dynasty == x.dynasty
    ensures AddEmperor(emp, x).dynasties == emp.dynasties
    ensures |AddEmperor(emp, x).dynasties| == |emp.dynasties|
  {
    LabelsExactly(emp.emperors, x.dynasty.value);
  }

  /** Adds the records one after another, as the seeding loop does. */
  function AddAll(emp: Empire, xs: seq<Emperor>): (r: Empire)
    ensures r.emperors == emp.emperors + xs
    ensures Valid(emp) ==> Valid(r)
    decreases |xs|
  {
    if |xs| == 0 then
      assert emp.emperors + xs == emp.emperors;
      emp
    else
      var next := AddEmperor(emp, xs[0]);
      assert next.emperors == emp.emperors + [xs[0]];
      assert emp.emperors + xs == next.emperors + xs[1..];
      AddAll(next, xs[1..])
  }

  /** After seeding a new collection, its dynasty set is exactly the records' truthy labels. */
  lemma SeededDynasties(xs: seq<Emperor>, lbl: string)
    ensures AddAll(NewEmpire, xs).emperors == xs
    ensures lbl in AddAll(NewEmpire, xs).dynasties <==>
            exists i :: 0 <= i < |xs| && Truthy(xs[i].dynasty) && xs[i].dynasty.value == lbl
  {
    assert Valid(NewEmpire);
    assert NewEmpire.emperors + xs == xs;
    LabelsExactly(xs, lbl);
  }

  // ---------------------------------------------------------------------------
  // Lookups and filters

  /** Case-insensitive substring match of the fragment in the emperor's name. */
  predicate NameMatches(e: Emperor, fragment: string) {
    Contains(Lower(e.name), Lower(fragment))
  }

  /** The empty fragment matches every name. */
  lemma EmptyFragmentMatches(e: Emperor)
    ensures NameMatches(e, "")
  {
    assert OccursAt(Lower(""), Lower(e.name), 0);
  }

  /**
   `get_emperor_by_name`: the first emperor, in insertion order, whose name
   contains the fragment ignoring case; `None` when there is none.
   */
  method EmperorByName(emp: Empire, fragment: string) returns (r: Option<Emperor>)
    ensures r.None? <==> forall i :: 0 <= i < |emp.emperors| ==> !NameMatches(emp.emperors[i], fragment)
    ensures r.Some? ==> exists i :: 0 <= i < |emp.emperors| && emp.emperors[i] == r.value
                           && NameMatches(r.value, fragment)
                           && forall j :: 0 <= j < i ==> !NameMatches(emp.emperors[j], fragment)
    ensures fragment == "" && |emp.emperors| > 0 ==> r == Some(emp.emperors[0])
  {
    var needle := Lower(fragment);
    var i := 0;
    while i < |emp.emperors|
      invariant 0 <= i <= |emp.emperors|
      invariant forall j :: 0 <= j < i ==> !NameMatches(emp.emperors[j], fragment)
    {
      var e := emp.emperors[i];
      if Contains(Lower(e.name), needle) {
        if fragment == "" {
          EmptyFragmentMatches(emp.emperors[0]);
        }
        return Some(e);
      }
      i := i + 1;
    }
    if fragment == "" && |emp.emperors| > 0 {
      EmptyFragmentMatches(emp.emperors[0]);
    }
    return None;
  }

  predicate RulesIn(e: Emperor, year: int) {
    e.reignStart <= year <= e.reignEnd
  }

  /** `get_emperor_by_year`: every emperor whose reign contains the year, in insertion order. */
  method EmperorsByYear(emp: Empire, year: int) returns (r: seq<Emperor>)
    ensures IsSelection(r, emp.emperors, (e: Emperor) => RulesIn(e, year))
  {
    ghost var p := (e: Emperor) => RulesIn(e, year);
    var s := emp.emperors;
    r := [];
    var i := 0;
    while i < |s|
      invariant 0 <= i <= |s|
      invariant r == Filter(s[..i], p)
    {
      var e := s[i];
      assert s[..i + 1] == s[..i] + [e];
      FilterConcat(s[..i], [e], p);
      if e.reignStart <= year <= e.reignEnd {
        r := r + [e];
      }
      i := i + 1;
    }
    assert s[..i] == s;
    FilterIsSelection(s, p);
  }

  /** `get_emperors_by_dynasty`: exact equality with the given label (or with `None`). */
  function EmperorsByDynasty(emp: Empire, dynasty: Option<string>): (r: seq<Emperor>)
    ensures IsSelection(r, emp.emperors, (e: Emperor) => e.dynasty == dynasty)
  {
    FilterIsSelection(emp.emperors, (e: Emperor) => e.dynasty == dynasty);
    Filter(emp.emperors, (e: Emperor) => e.dynasty == dynasty)
  }

  /** The reign and the period share at least one point, decided by the same negated comparison as class.py. */
  predicate ReignOverlaps(e: Emperor, startYear: int, endYear: int) {
    !(e.reignEnd < startYear || e.reignStart > endYear)
  }

  /** `get_emperors_by_period`: every emperor whose reign overlaps the period, in insertion order. */
  function EmperorsByPeriod(emp: Empire, startYear: int, endYear: int): (r: seq<Emperor>)
    ensures IsSelection(r, emp.emperors, (e: Emperor) => ReignOverlaps(e, startYear, endYear))
  {
    FilterIsSelection(emp.emperors, (e: Emperor) => ReignOverlaps(e, startYear, endYear));
    Filter(emp.emperors, (e: Emperor) => ReignOverlaps(e, startYear, endYear))
  }

  /**
   For an ordered reign and an ordered period, overlapping means ruling in
   some year of the period: the period query is the union of the year queries.
   */
  lemma OverlapIsSomeYear(e: Emperor, startYear: int, endYear: int)
    requires e.reignStart <= e.reignEnd && startYear <= endYear
    ensures ReignOverlaps(e, startYear, endYear) <==> exists y :: startYear <= y <= endYear && RulesIn(e, y)
  {
    if ReignOverlaps(e, startYear, endYear) {
      var y := Max(startYear, e.reignStart);
      assert startYear <= y <= endYear && RulesIn(e, y);
    }
  }

  /** A one-year period selects the same emperors as the year lookup. */
  lemma SingleYearPeriod(e: Emperor, year: int)
    ensures ReignOverlaps(e, year, year) <==> RulesIn(e, year)
  {
  }

  /** The overlap test does not check the period's order: an inverted period still selects. */
  lemma InvertedPeriodStillOverlaps(e: Emperor)
    requires e.reignStart == 0 && e.reignEnd == 20
    ensures ReignOverlaps(e, 10, 5)
    ensures !exists y :: 10 <= y <= 5 && RulesIn(e, y)
  {
  }

  /** `get_emperors_by_zodiac`: exact equality with the given sign (or with `None`). */
  function EmperorsByZodiac(emp: Empire, zodiac: Option<string>): (r: seq<Emperor>)
    ensures IsSelection(r, emp.emperors, (e: Emperor) => e.zodiac == zodiac)
  {
    FilterIsSelection(emp.emperors, (e: Emperor) => e.zodiac == zodiac);
    Filter(emp.emperors, (e: Emperor) => e.zodiac == zodiac)
  }

  predicate WifeMatches(wife: string, fragment: string) {
    Contains(Lower(wife), Lower(fragment))
  }

  /** Some wife entry contains the fragment, ignoring case. */
  predicate MarriedTo(e: Emperor, fragment: string) {
    exists i :: 0 <= i < |e.wives| && WifeMatches(e.wives[i], fragment)
  }

  /**
   `get_emperors_by_wife`: every emperor with a matching wife entry, in
   insertion order, each record once however many of its entries match.
   */
  method EmperorsByWife(emp: Empire, fragment: string) returns (r: seq<Emperor>)
    ensures IsSelection(r, emp.emperors, (e: Emperor) => MarriedTo(e, fragment))
  {
    ghost var p := (e: Emperor) => MarriedTo(e, fragment);
    var needle := Lower(fragment);
    var s := emp.emperors;
    r := [];
    var i := 0;
    while i < |s|
      invariant 0 <= i <= |s|
      invariant r == Filter(s[..i], p)
    {
      var e := s[i];
      assert s[..i + 1] == s[..i] + [e];
      FilterConcat(s[..i], [e], p);
      ghost var before := r;
      var j := 0;
      while j < |e.wives|
        invariant 0 <= j <= |e.wives|
        invariant r == before
        invariant forall k :: 0 <= k < j ==> !WifeMatches(e.wives[k], fragment)
      {
        if Contains(Lower(e.wives[j]), needle) {
          r := r + [e];
          break;
        }
        j := j + 1;
      }
      i := i + 1;
    }
    assert s[..i] == s;
    FilterIsSelection(s, p);
  }

  // ---------------------------------------------------------------------------
  // Top-N queries: `sorted(emperors, key=..., reverse=...)[:n]`

  function LongestFirst(e: Emperor): int { -ReignDuration(e) }
  function ShortestFirst(e: Emperor): int { ReignDuration(e) }
  function OldestFirst(e: Emperor): int { -AgeAtDeath(e) }
  function YoungestFirst(e: Emperor): int { AgeAtAccession(e) }
  function MostAchievementsFirst(e: Emperor): int { -|e.achievements| }

  /** `get_longest_reigning`: the first `n` of the stable sort by reign, longest first. */
  function LongestReigning(emp: Empire, n: int): (r: seq<Emperor>)
    ensures forall t :: IsStableSortOf(t, emp.emperors, LongestFirst) ==> r == SliceTo(t, n)
    ensures 0 <= n ==> |r| == Min(n, |emp.emperors|)
    ensures multiset(r) <= multiset(emp.emperors)
    ensures forall i, j :: 0 <= i < j < |r| ==> ReignDuration(r[i]) >= ReignDuration(r[j])
    ensures forall x, i :: 0 <= i < |r| && multiset(r)[x] < multiset(emp.emperors)[x]
              ==> ReignDuration(r[i]) >= ReignDuration(x)
  {
    var r := TopBy(emp.emperors, LongestFirst, n);
    assert forall x :: LongestFirst(x) == -ReignDuration(x);
    r
  }

  /** `get_shortest_reigning`: the first `n` of the stable sort by reign, shortest first. */
  function ShortestReigning(emp: Empire, n: int): (r: seq<Emperor>)
    ensures forall t :: IsStableSortOf(t, emp.emperors, ShortestFirst) ==> r == SliceTo(t, n)
    ensures 0 <= n ==> |r| == Min(n, |emp.emperors|)
    ensures multiset(r) <= multiset(emp.emperors)
    ensures forall i, j :: 0 <= i < j < |r| ==> ReignDuration(r[i]) <= ReignDuration(r[j])
    ensures forall x, i :: 0 <= i < |r| && multiset(r)[x] < multiset(emp.emperors)[x]
              ==> ReignDuration(r[i]) <= ReignDuration(x)
  {
    var r := TopBy(emp.emperors, ShortestFirst, n);
    assert forall x :: ShortestFirst(x) == ReignDuration(x);
    r
  }

  /** `get_oldest_at_death`: the first `n` of the stable sort by age at death, oldest first. */
  function OldestAtDeath(emp: Empire, n: int): (r: seq<Emperor>)
    ensures forall t :: IsStableSortOf(t, emp.emperors, OldestFirst) ==> r == SliceTo(t, n)
    ensures 0 <= n ==> |r| == Min(n, |emp.emperors|)
    ensures multiset(r) <= multiset(emp.emperors)
    ensures forall i, j :: 0 <= i < j < |r| ==> AgeAtDeath(r[i]) >= AgeAtDeath(r[j])
    ensures forall x, i :: 0 <= i < |r| && multiset(r)[x] < multiset(emp.emperors)[x]
              ==> AgeAtDeath(r[i]) >= AgeAtDeath(x)
  {
    var r := TopBy(emp.emperors, OldestFirst, n);
    assert forall x :: OldestFirst(x) == -AgeAtDeath(x);
    r
  }

  /** `get_youngest_at_accession`: the first `n` of the stable sort by accession age, youngest first. */
  function YoungestAtAccession(emp: Empire, n: int): (r: seq<Emperor>)
    ensures forall t :: IsStableSortOf(t, emp.emperors, YoungestFirst) ==> r == SliceTo(t, n)
    ensures 0 <= n ==> |r| == Min(n, |emp.emperors|)
    ensures multiset(r) <= multiset(emp.emperors)
    ensures forall i, j :: 0 <= i < j < |r| ==> AgeAtAccession(r[i]) <= AgeAtAccession(r[j])
    ensures forall x, i :: 0 <= i < |r| && multiset(r)[x] < multiset(emp.emperors)[x]
              ==> AgeAtAccession(r[i]) <= AgeAtAccession(x)
  {
    var r := TopBy(emp.emperors, YoungestFirst, n);
    assert forall x :: YoungestFirst(x) == AgeAtAccession(x);
    r
  }

  /** `get_most_achievements`: the first `n` of the stable sort by achievement count, most first. */
  function MostAchievements(emp: Empire, n: int): (r: seq<Emperor>)
    ensures forall t :: IsStableSortOf(t, emp.emperors, MostAchievementsFirst) ==> r == SliceTo(t, n)
    ensures 0 <= n ==> |r| == Min(n, |emp.emperors|)
    ensures multiset(r) <= multiset(emp.emperors)
    ensures forall i, j :: 0 <= i < j < |r| ==> |r[i].achievements| >= |r[j].achievements|
    ensures forall x, i :: 0 <= i < |r| && multiset(r)[x] < multiset(emp.emperors)[x]
              ==> |r[i].achievements| >= |x.achievements|
  {
    var r := TopBy(emp.emperors, MostAchievementsFirst, n);
    assert forall x :: MostAchievementsFirst(x) == -|x.achievements|;
    r
  }
}
