/**
 One emperor's record (`RomanEmperor` in class.py): the stored fields, the
 three quantities derived from the years, and the multi-line text rendering.

 Optional text fields (dynasty, zodiac sign, cause of death, predecessor) are
 `Option<string>`. Where the source tests them with Python truthiness, an empty
 string behaves exactly like `None`; `Truthy` captures that. The optional lists
 (achievements, wives) are plain sequences: the constructor replaces a missing
 or empty list by `[]`, so "absent" and "empty" are the same value.
 */
module RomanEmperor {
  import opened Wrappers
  import opened Text

  datatype Emperor = Emperor(
    name: string,
    birth: int,
    death: int,
    reignStart: int,
    reignEnd: int,
    dynasty: Option<string>,
    achievements: seq<string>,
    causeOfDeath: Option<string>,
    predecessor: Option<string>,   // free text, never resolved to a record
    wives: seq<string>,
    zodiac: Option<string>)

  /** Python truthiness of an optional string: present and non-empty. */
  predicate Truthy(o: Option<string>) {
    o.Some? && |o.value| > 0
  }

  // ---------------------------------------------------------------------------
  // Derived quantities: plain subtraction of astronomical years, so a span
  // that crosses from BCE to CE is one year longer than the historical count.

  function ReignDuration(e: Emperor): int {
    e.reignEnd - e.reignStart
  }

  function AgeAtDeath(e: Emperor): int {
    e.death - e.birth
  }

  function AgeAtAccession(e: Emperor): int {
    e.reignStart - e.birth
  }

  /** Each derived quantity is the distance between two of the record's years. */
  lemma DerivedAreYearDistances(e: Emperor)
    ensures e.reignStart + ReignDuration(e) == e.reignEnd
    ensures e.birth + AgeAtDeath(e) == e.death
    ensures e.birth + AgeAtAccession(e) == e.reignStart
    ensures AgeAtAccession(e) + ReignDuration(e) == e.reignEnd - e.birth
  {
  }

  /** The derived quantities read the four year fields and nothing else. */
  lemma DerivedReadOnlyYears(a: Emperor, b: Emperor)
    requires a.birth == b.birth && a.death == b.death
    requires a.reignStart == b.reignStart && a.reignEnd == b.reignEnd
    ensures ReignDuration(a) == ReignDuration(b)
    ensures AgeAtDeath(a) == AgeAtDeath(b)
    ensures AgeAtAccession(a) == AgeAtAccession(b)
  {
  }

  /** For a chronologically ordered life, the quantities are non-negative and nest. */
  lemma OrderedLifeBounds(e: Emperor)
    requires e.birth <= e.reignStart <= e.reignEnd <= e.death
    ensures 0 <= AgeAtAccession(e) && 0 <= ReignDuration(e)
    ensures AgeAtAccession(e) + ReignDuration(e) <= AgeAtDeath(e)
  {
  }

  /** No year-zero correction: born in 63 BCE (-63) and died in 14 CE gives 77, not 76. */
  lemma NoYearZeroCorrection(e: Emperor)
    requires e.birth == -63 && e.death == 14
    ensures AgeAtDeath(e) == 77
  {
  }

  // ---------------------------------------------------------------------------
  // Rendering (`__str__`)

  const LivedParts: seq<string> := ["Lived: ", " CE - ", " CE (Age: ", " years)"]
  const ReignParts: seq<string> := ["Reign: ", " CE - ", " CE (", " years)"]
  const Bullet: string := "  - "

  /** `prefix` followed by the label, or by the `absent` marker when the label is falsy. */
  function LabelLine(prefix: string, o: Option<string>, absent: string): string {
    if Truthy(o) then prefix + o.value else prefix + absent
  }

  function Bullets(items: seq<string>): (lines: seq<string>)
    ensures |lines| == |items|
    decreases |items|
  {
    if |items| == 0 then [] else [Bullet + items[0]] + Bullets(items[1..])
  }

  /** A header line followed by one bullet per item; nothing at all for no items. */
  function Section(header: string, items: seq<string>): seq<string> {
    if |items| == 0 then [] else [header] + Bullets(items)
  }

  /** The five lines every rendering starts with. */
  function SummaryLines(e: Emperor): seq<string> {
    [ "Name: " + e.name,
      FormatInts(LivedParts, [e.birth, e.death, AgeAtDeath(e)]),
      FormatInts(ReignParts, [e.reignStart, e.reignEnd, ReignDuration(e)]),
      LabelLine("Dynasty: ", e.dynasty, "None"),
      LabelLine("Zodiac Sign: ", e.zodiac, "Unknown") ]
  }

  function CauseLines(e: Emperor): seq<string> {
    if Truthy(e.causeOfDeath) then ["Cause of Death: " + e.causeOfDeath.value] else []
  }

  /** The optional sections, in their fixed order. */
  function DetailLines(e: Emperor): seq<string> {
    Section("Wives/Consorts:", e.wives) + (Section("Notable Achievements:", e.achievements) + CauseLines(e))
  }

  function RenderLines(e: Emperor): seq<string> {
    SummaryLines(e) + DetailLines(e)
  }

  /** The text `str(emperor)` returns: the rendered lines joined by newlines. */
  function Render(e: Emperor): string {
    JoinLines(RenderLines(e))
  }

  // ---------------------------------------------------------------------------
  // Reading a rendering back

  /** What a rendering shows of a record: falsy labels are shown as absent. */
  datatype Card = Card(
    name: string,
    birth: int,
    death: int,
    reignStart: int,
    reignEnd: int,
    dynasty: Option<string>,
    zodiac: Option<string>,
    wives: seq<string>,
    achievements: seq<string>,
    causeOfDeath: Option<string>)

  function Shown(o: Option<string>): Option<string> {
    if Truthy(o) then o else None
  }

  function CardOf(e: Emperor): Card {
    Card(e.name, e.birth, e.death, e.reignStart, e.reignEnd, Shown(e.dynasty), Shown(e.zodiac),
         e.wives, e.achievements, Shown(e.causeOfDeath))
  }

  function ParseLabel(prefix: string, absent: string, line: string): Option<Option<string>> {
    if line == prefix + absent then Some(None)
    else
      var v :- StripPrefix(prefix, line);
      if |v| > 0 then Some(Some(v)) else None
  }

  function ParseBullets(lines: seq<string>): (r: (seq<string>, seq<string>))
    decreases |lines|
  {
    if |lines| > 0 && Bullet <= lines[0] then
      var (items, rest) := ParseBullets(lines[1..]);
      ([lines[0][|Bullet|..]] + items, rest)
    else
      ([], lines)
  }

  function ParseSection(header: string, lines: seq<string>): Option<(seq<string>, seq<string>)> {
    if |lines| > 0 && lines[0] == header then
      var (items, rest) := ParseBullets(lines[1..]);
      if |items| == 0 then None else Some((items, rest))
    else
      Some(([], lines))
  }

  function ParseCause(lines: seq<string>): Option<Option<string>> {
    if |lines| == 0 then Some(None)
    else if |lines| == 1 then
      var c :- StripPrefix("Cause of Death: ", lines[0]);
      if |c| > 0 then Some(Some(c)) else None
    else None
  }

  /** Reads the five summary lines; the optional sections are filled in by `ParseDetails`. */
  function ParseSummary(lines: seq<string>): Option<Card>
    requires |lines| == 5
  {
    var name :- StripPrefix("Name: ", lines[0]);
    var lived :- ScanInts(LivedParts, lines[1]);
    var reign :- ScanInts(ReignParts, lines[2]);
    if |lived| != 3 || |reign| != 3 then None
    else if lived[2] != lived[1] - lived[0] || reign[2] != reign[1] - reign[0] then None
    else
      var dynasty :- ParseLabel("Dynasty: ", "None", lines[3]);
      var zodiac :- ParseLabel("Zodiac Sign: ", "Unknown", lines[4]);
      Some(Card(name, lived[0], lived[1], reign[0], reign[1], dynasty, zodiac, [], [], None))
  }

  /** Reads the wives section, the achievements section and the cause-of-death line. */
  function ParseDetails(lines: seq<string>): Option<(seq<string>, seq<string>, Option<string>)> {
    var (wives, afterWives) :- ParseSection("Wives/Consorts:", lines);
    var (achievements, afterAchievements) :- ParseSection("Notable Achievements:", afterWives);
    var cause :- ParseCause(afterAchievements);
    Some((wives, achievements, cause))
  }

  /** Recovers the shown content from the lines of a rendering, or `None` for any other text. */
  function ParseCard(lines: seq<string>): Option<Card> {
    if |lines| < 5 then None
    else
      var summary :- ParseSummary(lines[..5]);
      var (wives, achievements, cause) :- ParseDetails(lines[5..]);
      Some(summary.(wives := wives, achievements := achievements, causeOfDeath := cause))
  }

  function ParseRendered(s: string): Option<Card> {
    ParseCard(SplitLines(s))
  }

  lemma {:induction false} BulletsRoundTrip(items: seq<string>, rest: seq<string>)
    requires |rest| > 0 ==> !(Bullet <= rest[0])
    ensures ParseBullets(Bullets(items) + rest) == (items, rest)
    decreases |items|
  {
    if |items| == 0 {
      assert Bullets(items) + rest == rest;
    } else {
      var lines := Bullets(items) + rest;
      assert lines[0] == Bullet + items[0];
      assert Bullet <= lines[0];
      assert lines[1..] == Bullets(items[1..]) + rest;
      assert (Bullet + items[0])[|Bullet|..] == items[0];
      BulletsRoundTrip(items[1..], rest);
      assert items == [items[0]] + items[1..];
    }
  }

  lemma SectionRoundTrip(header: string, items: seq<string>, rest: seq<string>)
    requires |rest| > 0 ==> rest[0] != header && !(Bullet <= rest[0])
    ensures ParseSection(header, Section(header, items) + rest) == Some((items, rest))
  {
    var lines := Section(header, items) + rest;
    if |items| == 0 {
      assert lines == rest;
    } else {
      assert lines == [header] + (Bullets(items) + rest);
      BulletsRoundTrip(items, rest);
      assert ParseBullets(lines[1..]) == (items, rest);
    }
  }

  lemma LabelRoundTrip(prefix: string, o: Option<string>, absent: string)
    requires o != Some(absent)
    ensures ParseLabel(prefix, absent, LabelLine(prefix, o, absent)) == Some(Shown(o))
  {
    if Truthy(o) {
      var line := prefix + o.value;
      assert line[|prefix|..] == o.value;
      assert (prefix + absent)[|prefix|..] == absent;
      assert StripPrefix(prefix, line) == Some(o.value);
    }
  }

  lemma SummaryRoundTrip(e: Emperor)
    requires e.dynasty != Some("None") && e.zodiac != Some("Unknown")
    ensures ParseSummary(SummaryLines(e))
            == Some(CardOf(e).(wives := [], achievements := [], causeOfDeath := None))
  {
    var lines := SummaryLines(e);
    SummaryLinesRead(e);
    LabelRoundTrip("Dynasty: ", e.dynasty, "None");
    LabelRoundTrip("Zodiac Sign: ", e.zodiac, "Unknown");
    ParseSummaryOf(lines, e.name, [e.birth, e.death, AgeAtDeath(e)],
      [e.reignStart, e.reignEnd, ReignDuration(e)], Shown(e.dynasty), Shown(e.zodiac));
  }

  /** `ParseSummary` assembles what the individual line readers return. */
  lemma ParseSummaryOf(lines: seq<string>, name: string, lived: seq<int>, reign: seq<int>,
                       dynasty: Option<string>, zodiac: Option<string>)
    requires |lines| == 5 && |lived| == 3 && |reign| == 3
    requires lived[2] == lived[1] - lived[0] && reign[2] == reign[1] - reign[0]
    requires StripPrefix("Name: ", lines[0]) == Some(name)
    requires ScanInts(LivedParts, lines[1]) == Some(lived)
    requires ScanInts(ReignParts, lines[2]) == Some(reign)
    requires ParseLabel("Dynasty: ", "None", lines[3]) == Some(dynasty)
    requires ParseLabel("Zodiac Sign: ", "Unknown", lines[4]) == Some(zodiac)
    ensures ParseSummary(lines)
            == Some(Card(name, lived[0], lived[1], reign[0], reign[1], dynasty, zodiac, [], [], None))
  {
  }

  lemma SummaryLinesRead(e: Emperor)
    ensures StripPrefix("Name: ", SummaryLines(e)[0]) == Some(e.name)
    ensures ScanInts(LivedParts, SummaryLines(e)[1]) == Some([e.birth, e.death, AgeAtDeath(e)])
    ensures ScanInts(ReignParts, SummaryLines(e)[2]) == Some([e.reignStart, e.reignEnd, ReignDuration(e)])
    ensures SummaryLines(e)[3] == LabelLine("Dynasty: ", e.dynasty, "None")
    ensures SummaryLines(e)[4] == LabelLine("Zodiac Sign: ", e.zodiac, "Unknown")
  {
    var lines := SummaryLines(e);
    assert lines[0][|"Name: "|..] == e.name;
    PartsSeparated();
    ScanFormatRoundTrip(LivedParts, [e.birth, e.death, AgeAtDeath(e)]);
    ScanFormatRoundTrip(ReignParts, [e.reignStart, e.reignEnd, ReignDuration(e)]);
  }

  lemma PartsSeparated()
    ensures Separated(LivedParts) && Separated(ReignParts)
  {
    assert " CE - "[0] == ' ' && " CE (Age: "[0] == ' ' && " CE ("[0] == ' ' && " years)"[0] == ' ';
  }

  lemma CauseRoundTrip(e: Emperor)
    ensures ParseCause(CauseLines(e)) == Some(Shown(e.causeOfDeath))
    ensures |CauseLines(e)| > 0 ==> CauseLines(e)[0][0] == 'C'
  {
    if Truthy(e.causeOfDeath) {
      var line := "Cause of Death: " + e.causeOfDeath.value;
      assert line[0] == 'C';
      assert StripPrefix("Cause of Death: ", line) == Some(e.causeOfDeath.value);
    }
  }

  lemma DetailsRoundTrip(e: Emperor)
    ensures ParseDetails(DetailLines(e)) == Some((e.wives, e.achievements, Shown(e.causeOfDeath)))
  {
    var afterAchievements := CauseLines(e);
    var afterWives := Section("Notable Achievements:", e.achievements) + afterAchievements;
    CauseRoundTrip(e);
    assert "Wives/Consorts:"[0] == 'W';
    assert "Notable Achievements:"[0] == 'N';
    assert Bullet[0] == ' ';
    assert |afterWives| > 0 ==> afterWives[0][0] == 'N' || afterWives[0][0] == 'C';
    SectionRoundTrip("Wives/Consorts:", e.wives, afterWives);
    SectionRoundTrip("Notable Achievements:", e.achievements, afterAchievements);
  }

  /**
   The rendering loses nothing it shows: parsing the lines gives back every
   field except the predecessor, with falsy labels read as absent. The two
   exclusions are real collisions: a dynasty literally named "None" prints
   like a missing one, and so does a zodiac sign named "Unknown".
   */
  lemma RenderLinesRoundTrip(e: Emperor)
    requires e.dynasty != Some("None") && e.zodiac != Some("Unknown")
    ensures ParseCard(RenderLines(e)) == Some(CardOf(e))
  {
    var lines := RenderLines(e);
    assert lines[..5] == SummaryLines(e);
    assert lines[5..] == DetailLines(e);
    SummaryRoundTrip(e);
    DetailsRoundTrip(e);
  }

  /** No field that reaches the rendering contains a line break. */
  predicate SingleLineFields(e: Emperor) {
    && '\n' !in e.name
    && (e.dynasty.Some? ==> '\n' !in e.dynasty.value)
    && (e.zodiac.Some? ==> '\n' !in e.zodiac.value)
    && (e.causeOfDeath.Some? ==> '\n' !in e.causeOfDeath.value)
    && (forall i :: 0 <= i < |e.wives| ==> '\n' !in e.wives[i])
    && (forall i :: 0 <= i < |e.achievements| ==> '\n' !in e.achievements[i])
  }

  lemma {:induction false} BulletsSingleLine(items: seq<string>)
    requires forall i :: 0 <= i < |items| ==> '\n' !in items[i]
    ensures forall i :: 0 <= i < |items| ==> '\n' !in Bullets(items)[i]
    decreases |items|
  {
    if |items| > 0 {
      assert forall i :: 0 <= i < |items[1..]| ==> items[1..][i] == items[i + 1];
      BulletsSingleLine(items[1..]);
      var b := Bullets(items);
      forall i | 0 <= i < |items|
        ensures '\n' !in b[i]
      {
        if i > 0 {
          assert b[i] == Bullets(items[1..])[i - 1];
        }
      }
    }
  }

  lemma SectionSingleLine(header: string, items: seq<string>)
    requires '\n' !in header && '\n' !in Bullet
    requires forall i :: 0 <= i < |items| ==> '\n' !in items[i]
    ensures forall i :: 0 <= i < |Section(header, items)| ==> '\n' !in Section(header, items)[i]
  {
    BulletsSingleLine(items);
    if |items| > 0 {
      forall i | 0 <= i < |Section(header, items)|
        ensures '\n' !in Section(header, items)[i]
      {
        if i > 0 {
          assert Section(header, items)[i] == Bullets(items)[i - 1];
        }
      }
    }
  }

  lemma SummarySingleLine(e: Emperor)
    requires SingleLineFields(e)
    ensures forall i :: 0 <= i < |SummaryLines(e)| ==> '\n' !in SummaryLines(e)[i]
  {
    assert forall i :: 0 <= i < |LivedParts| ==> '\n' !in LivedParts[i];
    assert forall i :: 0 <= i < |ReignParts| ==> '\n' !in ReignParts[i];
  }

  lemma DetailsSingleLine(e: Emperor)
    requires SingleLineFields(e)
    ensures forall i :: 0 <= i < |DetailLines(e)| ==> '\n' !in DetailLines(e)[i]
  {
    assert '\n' !in Bullet;
    SectionSingleLine("Wives/Consorts:", e.wives);
    SectionSingleLine("Notable Achievements:", e.achievements);
  }

  lemma RenderLinesSingleLine(e: Emperor)
    requires SingleLineFields(e)
    ensures forall i :: 0 <= i < |RenderLines(e)| ==> '\n' !in RenderLines(e)[i]
  {
    SummarySingleLine(e);
    DetailsSingleLine(e);
    var summary := SummaryLines(e);
    var details := DetailLines(e);
    forall i | 0 <= i < |RenderLines(e)|
      ensures '\n' !in RenderLines(e)[i]
    {
      if i < |summary| {
        assert RenderLines(e)[i] == summary[i];
      } else {
        assert RenderLines(e)[i] == details[i - |summary|];
      }
    }
  }

  /**
   `str(emperor)` can be read back: splitting the text at newlines and
   parsing the lines recovers everything the rendering shows.
   */
  lemma RenderRoundTrip(e: Emperor)
    requires SingleLineFields(e)
    requires e.dynasty != Some("None") && e.zodiac != Some("Unknown")
    ensures ParseRendered(Render(e)) == Some(CardOf(e))
  {
    RenderLinesSingleLine(e);
    SplitJoinRoundTrip(RenderLines(e));
    RenderLinesRoundTrip(e);
  }

  /** Why the round trip excludes the label "None": it renders exactly like a missing dynasty. */
  lemma DynastyNamedNoneCollides(e: Emperor)
    ensures Render(e.(dynasty := Some("None"))) == Render(e.(dynasty := None))
  {
  }

  /** Likewise for the sign "Unknown" and a missing zodiac sign. */
  lemma ZodiacNamedUnknownCollides(e: Emperor)
    ensures Render(e.(zodiac := Some("Unknown"))) == Render(e.(zodiac := None))
  {
  }
}
