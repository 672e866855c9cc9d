# Roman emperors: a Dafny model of the record and the collection

This project models `class.py`, a small Python catalogue of Roman emperors. It has two parts:

- **`RomanEmperor`**: one ruler's record. It holds the name, four years (birth, death, start and end of reign), an optional dynasty, zodiac sign, cause of death and predecessor, and lists of achievements and wives. It derives three quantities from the years (reign duration, age at death, age at accession). It renders itself as multi-line text.
- **`RomanEmpire`**: the collection. It is a list of records in insertion order plus the set of dynasty labels seen so far. It answers lookups by name, year, dynasty, period, zodiac sign and wife. It also answers "top N" queries by reign length, age at death, age at accession and number of achievements.

Modules:

- `Wrappers` (`wrappers.dfy`): `Option`.
- `Seqs` (`seqs.dfy`):
  - `Filter`, the model of a list comprehension;
  - `IsSelection`, its independent characterisation: an order-preserving sub-sequence that keeps every element satisfying the predicate with its full multiplicity and nothing else;
  - `SliceTo`, Python's `xs[:n]` including negative `n`.
- `StableSort` (`stable_sort.dfy`):
  - a stable insertion sort by an integer key;
  - the characterisation of a stable sort: sorted, and for every key value the elements with that key appear in input order;
  - the proof that this characterisation fixes the output uniquely;
  - `TopBy`, "the first `n` of the stable sort".
- `Text` (`text.dfy`): the string operations the source relies on:
  - ASCII `lower()`;
  - substring `in`;
  - `str(int)` and reading an integer back;
  - f-strings with integer holes;
  - `"\n".join` / `split("\n")`.
- `RomanEmperor` (`roman_emperor.dfy`): the record, the derived quantities, `__str__`, and a reader for the rendered text, with the round trip proved.
- `RomanEmpire` (`roman_empire.dfy`): the collection, its dynasty-set invariant, and every query.
- `YearOfFour` (`year_of_four.dfy`): four records of the year 69 CE; their names, years and dynasties are copied from the seed data and every other field is left empty. They show concretely how the sorted queries break ties.

Modelling choices:

- Python truthiness of an optional text field (`if self.dynasty:`) is `Truthy`: present and non-empty. An empty string therefore behaves like `None`, as in the source.
- `sorted(..., reverse=True)` is stable in Python: equal keys keep their input order. A descending query is therefore modelled as the ascending stable sort by the negated key.
- The explicit loops of the source (`get_emperor_by_name`, `get_emperor_by_year`, `get_emperors_by_wife`) are methods with loop invariants. The list comprehensions are functions over `Filter`.
- Python integers are unbounded, and so are Dafny's; no wrap-around arises.
- For a negative `top_n`, the slice `[:top_n]` keeps all but the last `-top_n` records, or none when `-top_n` exceeds the length; it does not return an empty list. `Seqs.SliceTo` does the same.

## Model

| member | source | states |
|---|---|---|
| RomanEmperor.DerivedAreYearDistances | class.py:20-30 | reign duration, age at death and age at accession are the distances between the corresponding years; accession age plus reign length spans birth to end of reign |
| RomanEmperor.DerivedReadOnlyYears | class.py:20-30 | the three derived quantities depend only on the four year fields |
| RomanEmperor.OrderedLifeBounds | class.py:20-30 | for birth ≤ accession ≤ end of reign ≤ death, accession age and reign length are non-negative and together do not exceed the age at death |
| RomanEmperor.NoYearZeroCorrection | class.py:24-26 | years are subtracted as plain integers with no correction for the missing year zero: born -63, died 14 gives 77 |
| RomanEmperor.RenderRoundTrip | class.py:32-55 | when no rendered field contains a newline and the labels are not the literal markers "None"/"Unknown", the text `__str__` produces can be read back into exactly the shown content: name, years, dynasty and zodiac (falsy shown as absent), wives, achievements, cause of death |
| RomanEmperor.RenderLinesRoundTrip | class.py:34-53 | the list of lines built by `__str__` (five summary lines, then the optional sections in fixed order) parses back to the shown content |
| RomanEmperor.SummaryRoundTrip | class.py:34-40 | the five summary lines carry the name, the four years (with age and reign length consistent with them), and dynasty and zodiac with their "None"/"Unknown" placeholders |
| RomanEmperor.SectionRoundTrip | class.py:42-50 | a header line followed by one `  - ` bullet per item, omitted entirely for an empty list, reads back to the item list and leaves the following lines untouched |
| RomanEmperor.CauseRoundTrip | class.py:52-53 | the cause-of-death line appears only for a truthy cause and reads back to it |
| RomanEmperor.DetailsRoundTrip | class.py:42-53 | wives section, achievements section and cause line in that order read back to wives, achievements and the shown cause |
| RomanEmperor.RenderLinesSingleLine | class.py:34-53 | no line the rendering builds contains a line break when the fields contain none |
| RomanEmperor.DynastyNamedNoneCollides | class.py:38 | a dynasty labelled "None" renders exactly like a missing dynasty, so the rendering is not injective there |
| RomanEmperor.ZodiacNamedUnknownCollides | class.py:39 | a zodiac sign "Unknown" renders exactly like a missing sign |
| RomanEmpire.AddEmperor | class.py:65-69 | the record is appended at the end, the earlier records are unchanged, and the dynasty set stays exactly the set of truthy dynasty labels of the records |
| RomanEmpire.AddEmperorDynasties | class.py:68-69 | the dynasty set gains the new label when it is truthy and is unchanged otherwise |
| RomanEmpire.ReAddingDynastyKeepsSet | class.py:63-69 | adding a record whose dynasty already occurs leaves the set, and its size, unchanged (a set, not a list) |
| RomanEmpire.LabelsExactly | class.py:63-69 | a label is in the derived dynasty set if and only if some record carries it as a truthy dynasty |
| RomanEmpire.AddAll | class.py:586-589 | seeding by repeated `add_emperor` yields the records in the given order and keeps the dynasty invariant |
| RomanEmpire.SeededDynasties | class.py:586-589 | after seeding a new collection, a label is a dynasty if and only if one of the seeded records has it as a truthy dynasty |
| RomanEmpire.EmperorByName | class.py:71-76 | `None` exactly when no name contains the fragment ignoring case; otherwise the first such record in insertion order; the empty fragment returns the first record |
| RomanEmpire.EmperorsByYear | class.py:78-84 | exactly the records with reign start ≤ year ≤ reign end, in insertion order, each with its multiplicity |
| RomanEmpire.EmperorsByDynasty | class.py:86-88 | exactly the records whose dynasty equals the argument (including `None`), in insertion order |
| RomanEmpire.EmperorsByPeriod | class.py:90-93 | exactly the records whose reign is not wholly before or wholly after the period, in insertion order |
| RomanEmpire.OverlapIsSomeYear | class.py:90-93 | for an ordered reign and period, the overlap test holds if and only if the emperor ruled in some year of the period |
| RomanEmpire.SingleYearPeriod | class.py:78-93 | a one-year period selects an emperor if and only if the year lookup does |
| RomanEmpire.InvertedPeriodStillOverlaps | class.py:90-93 | the period's order is not checked: an inverted period can select an emperor who ruled in none of its (zero) years |
| RomanEmpire.EmperorsByZodiac | class.py:95-97 | exactly the records whose zodiac equals the argument, in insertion order |
| RomanEmpire.EmperorsByWife | class.py:119-127 | exactly the records with at least one wife entry containing the fragment ignoring case, in insertion order, each once regardless of how many entries match |
| RomanEmpire.LongestReigning | class.py:99-101 | the first `top_n` (slice semantics) of every stable sort by reign length descending; sorted longest first; a sub-multiset of the records; no left-out record reigned longer than one kept |
| RomanEmpire.ShortestReigning | class.py:103-105 | the same for reign length ascending |
| RomanEmpire.OldestAtDeath | class.py:107-109 | the same for age at death descending |
| RomanEmpire.YoungestAtAccession | class.py:111-113 | the same for age at accession ascending |
| RomanEmpire.MostAchievements | class.py:115-117 | the same for the number of achievements descending |
| YearOfFour.LongestKeepsTiesInOrder | class.py:99-101 | with Galba, Otho, Vitellius and Vespasian (years as seeded at class.py:246-324), longest first gives Vespasian, Galba, then the two zero-year reigns Otho and Vitellius in insertion order, despite `reverse=True` |
| YearOfFour.ShortestKeepsTiesInOrder | class.py:103-105 | shortest first, the two shortest are Otho then Vitellius, in insertion order |
| StableSort.SortByIsTheStableSort | class.py:101 | the insertion sort is a stable sort by its key, and every stable sort of the same input equals it, so the result of `sorted` is fully determined |
| StableSort.TopBy | class.py:101 | `sorted(...)[:n]`: agrees with slicing any stable sort, has length min(n, size) for n ≥ 0, is sorted, and nothing left out has a smaller key than anything kept |
| Seqs.FilterIsSelection | class.py:88 | a list comprehension with a condition returns the in-order selection of exactly the elements meeting it |
| Seqs.SelectionIsFilter | class.py:88 | conversely, any in-order selection of exactly those elements is the comprehension's result |
| Seqs.SliceTo | class.py:101 | `xs[:n]` is a prefix of `xs`, of length min(n, len) for n ≥ 0 and max(0, len + n) for n < 0 |
| Text.Contains | class.py:74 | `needle in hay` holds exactly when the needle occurs at some position of the haystack |
| Text.ReadIntRoundTrip | class.py:36-37 | reading back the decimal text of any integer (negative with a minus sign) recovers it and stops where the digits end |
| Text.ScanFormatRoundTrip | class.py:36-37 | an f-string whose holes are integers, and whose literal pieces do not start with a digit, can be scanned back into the integers |
| Text.SplitJoinRoundTrip | class.py:55 | splitting on newlines undoes `"\n".join` for a non-empty list of lines that contain no newline |

## Left out

- The `successor` field (parameter at class.py:5, stored at class.py:16, assigned at class.py:592-607) is not modelled. It links records to each other and is never read by any modelled operation. `predecessor` is kept as free text.
- `create_roman_empire`'s full seed data (class.py:130-609) and `main` (class.py:612-690) are left out: they are data and console output. `YearOfFour` copies the names, years and dynasties of four seeded records (class.py:246-324) to exhibit tie-breaking; every other field of those records is left empty.
- `Text.Lower` folds ASCII letters only. Python's `str.lower()` also folds non-ASCII letters and can change a string's length, which is not modelled.
- The default `top_n=1` of the sorted queries is not a default here: `n` is always passed explicitly.
- RomanEmperor.RenderRoundTrip: stated only for fields without line breaks and for labels other than the literal placeholders. Without those conditions the text is ambiguous (`DynastyNamedNoneCollides`, `ZodiacNamedUnknownCollides`). The predecessor is not part of the rendering, so it is not recovered.
- RomanEmperor.ReignDuration, RomanEmperor.AgeAtDeath, RomanEmperor.AgeAtAccession: these carry no contract of their own. Their meaning is stated by `DerivedAreYearDistances`, `DerivedReadOnlyYears`, `OrderedLifeBounds` and `NoYearZeroCorrection`.
- RomanEmperor.Render (and `RenderLines`, which it joins): no contract of its own. Its meaning is stated by `RenderRoundTrip`, `RenderLinesRoundTrip`, `RenderLinesSingleLine`, `DynastyNamedNoneCollides` and `ZodiacNamedUnknownCollides`.
- The mutation of the collection in place (`self.emperors.append`) is modelled as a function returning the new collection. Object identity is not modelled: records are values, so two records with equal fields are indistinguishable.
