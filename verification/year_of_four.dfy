/**
 A four-record collection for the transition of 69 CE, used to exhibit the
 tie-breaking of the sorted queries. Names, years and dynasties are copied from
 the seed data; every other field is left empty.
 */
module YearOfFour {
  import opened Wrappers
  import opened RomanEmperor
  import opened Seqs
  import opened StableSort
  import opened RomanEmpire

  function Ruler(name: string, birth: int, death: int, start: int, end: int, dynasty: string): Emperor {
    Emperor(name, birth, death, start, end, Some(dynasty), [], None, None, [], None)
  }

  const Galba := Ruler("Galba", -3, 69, 68, 69, "Year of the Four Emperors")
  const Otho := Ruler("Otho", 32, 69, 69, 69, "Year of the Four Emperors")
  const Vitellius := Ruler("Vitellius", 15, 69, 69, 69, "Year of the Four Emperors")
  const Vespasian := Ruler("Vespasian", 9, 79, 69, 79, "Flavian")

  const Rulers: seq<Emperor> := [Galba, Otho, Vitellius, Vespasian]
  /** Seeded as the source seeds its collection: one `add_emperor` per record. */
  const FourEmperors: Empire := AddAll(NewEmpire, Rulers)

  lemma FourEmperorsInOrder()
    ensures FourEmperors.emperors == Rulers
    ensures Valid(FourEmperors)
  {
    assert Valid(NewEmpire);
    assert NewEmpire.emperors + Rulers == Rulers;
  }

  /** Sorting the last three rulers longest first: Otho stays ahead of Vitellius. */
  lemma LongestTail()
    ensures SortBy(Rulers[1..], LongestFirst) == [Vespasian, Otho, Vitellius]
  {
    var k := LongestFirst;
    assert Rulers[1..] == [Otho, Vitellius, Vespasian];
    assert [Otho, Vitellius, Vespasian][1..] == [Vitellius, Vespasian];
    assert [Vitellius, Vespasian][1..] == [Vespasian];
    assert SortBy([Vitellius, Vespasian], k) == [Vespasian, Vitellius];
    assert [Vespasian, Vitellius][1..] == [Vitellius];
    assert Insert(Otho, [Vitellius], k) == [Otho, Vitellius];
    assert Insert(Otho, [Vespasian, Vitellius], k) == [Vespasian] + Insert(Otho, [Vitellius], k);
    assert SortBy([Otho, Vitellius, Vespasian], k) == Insert(Otho, SortBy([Vitellius, Vespasian], k), k);
  }

  lemma LongestHead()
    ensures Insert(Galba, [Vespasian, Otho, Vitellius], LongestFirst) == [Vespasian, Galba, Otho, Vitellius]
  {
    assert [Vespasian, Otho, Vitellius][1..] == [Otho, Vitellius];
  }

  /**
   Otho and Vitellius both reigned 0 years. Sorting longest first with
   `reverse=True` still keeps them in insertion order.
   */
  lemma LongestKeepsTiesInOrder()
    ensures LongestReigning(FourEmperors, 4) == [Vespasian, Galba, Otho, Vitellius]
  {
    FourEmperorsInOrder();
    LongestTail();
    LongestHead();
    assert SortBy(Rulers, LongestFirst) == Insert(Galba, SortBy(Rulers[1..], LongestFirst), LongestFirst);
  }

  lemma ShortestTail()
    ensures SortBy(Rulers[1..], ShortestFirst) == [Otho, Vitellius, Vespasian]
  {
    var k := ShortestFirst;
    assert Rulers[1..] == [Otho, Vitellius, Vespasian];
    assert [Otho, Vitellius, Vespasian][1..] == [Vitellius, Vespasian];
    assert [Vitellius, Vespasian][1..] == [Vespasian];
    assert SortBy([Vespasian], k) == [Vespasian];
    assert SortBy([Vitellius, Vespasian], k) == Insert(Vitellius, [Vespasian], k) == [Vitellius, Vespasian];
    assert SortBy([Otho, Vitellius, Vespasian], k) == Insert(Otho, [Vitellius, Vespasian], k);
  }

  lemma ShortestHead()
    ensures Insert(Galba, [Otho, Vitellius, Vespasian], ShortestFirst) == [Otho, Vitellius, Galba, Vespasian]
  {
    assert [Otho, Vitellius, Vespasian][1..] == [Vitellius, Vespasian];
    assert [Vitellius, Vespasian][1..] == [Vespasian];
    assert Insert(Galba, [Vespasian], ShortestFirst) == [Galba, Vespasian];
    assert Insert(Galba, [Vitellius, Vespasian], ShortestFirst) == [Vitellius] + Insert(Galba, [Vespasian], ShortestFirst);
    assert Insert(Galba, [Otho, Vitellius, Vespasian], ShortestFirst)
        == [Otho] + Insert(Galba, [Vitellius, Vespasian], ShortestFirst);
  }

  lemma FirstTwo(t: seq<Emperor>)
    requires t == [Otho, Vitellius, Galba, Vespasian]
    ensures SliceTo(t, 2) == [Otho, Vitellius]
  {
    assert t[..2] == [t[0], t[1]];
  }

  /** Shortest first, the two zero-year reigns come first, again in insertion order. */
  lemma ShortestKeepsTiesInOrder()
    ensures ShortestReigning(FourEmperors, 2) == [Otho, Vitellius]
  {
    FourEmperorsInOrder();
    ShortestTail();
    ShortestHead();
    assert SortBy(Rulers, ShortestFirst) == Insert(Galba, SortBy(Rulers[1..], ShortestFirst), ShortestFirst);
    var t := SortBy(Rulers, ShortestFirst);
    assert t == [Otho, Vitellius, Galba, Vespasian];
    FirstTwo(t);
    assert TopBy(Rulers, ShortestFirst, 2) == SliceTo(t, 2);
  }
}
