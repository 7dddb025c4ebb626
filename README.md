# LEGO set queries

A model of `LegoSetRepository`, a read-only repository of LEGO set records
loaded once from a JSON file. It answers five queries, each a single stream
pipeline over the loaded list:

- whether some set has no subtheme;
- the distinct tags of the sets whose name starts with a given string, sorted
  and printed one per line;
- the total number of pieces;
- the number of sets per theme;
- the longest set name per theme, where the earliest name wins a tie.

The loaded list is the `sets: seq<LegoSet>` argument of every query. A Java
`null` field is `None`. The printing query returns the lines it would print,
in print order. Each stream stage keeps its encounter order:

- `reduce` and `groupingBy` are left folds, written as recursion on the list
  without its last record;
- `anyMatch` and `flatMap` recurse from the front;
- `distinct` keeps first occurrences;
- `sorted` is a stable insertion sort by `String.compareTo`.

Modules:

- `Wrappers`: the `Option` type.
- `JavaString`: `String.startsWith`, `String.compareTo` and the order it
  induces.
- `Streams`: `Stream.distinct` and `Stream.sorted` on strings.
- `LegoSetRepository`: the record type and the five queries.
- `Scenarios`: the queries on small concrete lists.

`getTotalPiecesOfTheLegoSets` adds with Java `int` arithmetic, so the model
wraps the running sum modulo 2^32 (`Wrap32`). `TotalPiecesExact` shows that the
result is the plain sum whenever that sum fits in an `int`. The method's
documentation (src/main/java/brickset/LegoSetRepository.java:54-57) promises
"the total pieces", and the method returns an `int`. The model follows that
`int` arithmetic.

## Model

| member | source | states |
|---|---|---|
| `JavaString.StartsWith` | src/main/java/brickset/LegoSetRepository.java:47 | The character-by-character prefix test holds exactly when the prefix is no longer than the name and equals the name's first characters. |
| `JavaString.CompareTo` | src/main/java/brickset/LegoSetRepository.java:50 | The comparison that `sorted` uses is zero exactly when the two strings are equal. |
| `JavaString.CompareToAntisymmetric` | src/main/java/brickset/LegoSetRepository.java:50 | `a.compareTo(b)` is negative exactly when `b.compareTo(a)` is positive. |
| `JavaString.LessTotal` | src/main/java/brickset/LegoSetRepository.java:50 | Any two distinct strings are ordered one way or the other, so the order `sorted` uses is total. |
| `JavaString.LessTransitive` | src/main/java/brickset/LegoSetRepository.java:50 | The natural order of strings is transitive. |
| `JavaString.StrictlyAscendingUnique` | src/main/java/brickset/LegoSetRepository.java:49-50 | Two strictly ascending sequences that hold the same strings are equal. |
| `Streams.Distinct` | src/main/java/brickset/LegoSetRepository.java:49 | `distinct` keeps every string of its input and no other, and keeps no string twice. |
| `Streams.Sort` | src/main/java/brickset/LegoSetRepository.java:50 | `sorted` returns a permutation of its input (same multiset). |
| `Streams.SortAscending` | src/main/java/brickset/LegoSetRepository.java:50 | The output of `sorted` is ascending by `compareTo`. |
| `Streams.SortStrictlyAscending` | src/main/java/brickset/LegoSetRepository.java:49-50 | Sorting an input without duplicates gives a strictly ascending output. |
| `LegoSetRepository.IsAtLeastOneSetWithoutSubTheme` | src/main/java/brickset/LegoSetRepository.java:38-40 | True exactly when some record has a null subtheme, so false on an empty list. |
| `LegoSetRepository.SelectedTags` | src/main/java/brickset/LegoSetRepository.java:47-48 | The filtered and flattened stream holds exactly the tags of the records whose name starts with the prefix and whose tags are not null. |
| `LegoSetRepository.DistinctTagsWhereNameStartsWith` | src/main/java/brickset/LegoSetRepository.java:46-52 | The printed lines are strictly ascending, so there are no duplicates. They are exactly the tags of the selected records. Other records contribute nothing, and the output is empty when no record is selected. |
| `LegoSetRepository.PrintedTagsAreDetermined` | src/main/java/brickset/LegoSetRepository.java:49-50 | Any strictly ascending sequence of exactly the selected tags is the printed output, so the output does not depend on the order of the records or their tags. |
| `LegoSetRepository.Wrap32` | src/main/java/brickset/LegoSetRepository.java:59 | `Integer::sum` gives the one `int` congruent to the mathematical sum modulo 2^32. |
| `LegoSetRepository.TotalPiecesOfTheLegoSets` | src/main/java/brickset/LegoSetRepository.java:58-60 | The 32-bit left fold equals the sum of the non-null piece counts, taken modulo 2^32 into `int` range. Null counts contribute 0, and an empty list gives 0. |
| `LegoSetRepository.TotalPiecesExact` | src/main/java/brickset/LegoSetRepository.java:58-60 | When the sum of the present piece counts fits in an `int`, the total is exactly that sum. |
| `LegoSetRepository.NumberOfLegoSetsByTheme` | src/main/java/brickset/LegoSetRepository.java:66-68 | The keys are exactly the themes in the list. Each value is the number of records with that theme and is at least 1. |
| `LegoSetRepository.NumberOfLegoSetsByThemeTotal` | src/main/java/brickset/LegoSetRepository.java:67 | The counts add up to the length of the list. |
| `LegoSetRepository.LongestNameByTheme` | src/main/java/brickset/LegoSetRepository.java:75-78 | The keys are exactly the themes in the list. |
| `LegoSetRepository.LongestNameIsFirstLongest` | src/main/java/brickset/LegoSetRepository.java:75-78 | For each theme, the lemma gives a record `i` of that theme whose name is the value. No record of that theme has a longer name, and every earlier record of the theme has a strictly shorter one, so the first record wins a tie. |
| `LegoSetRepository.GroupingsShareKeys` | src/main/java/brickset/LegoSetRepository.java:67-77 | The two grouping queries have the same key set. |
| `Scenarios.ThreeSetsScalars` | src/main/java/brickset/LegoSetRepository.java:38-60 | On a three-record list, some record lacks a subtheme and the total is 500. |
| `Scenarios.ThreeSetsCounts` | src/main/java/brickset/LegoSetRepository.java:66-68 | On the same list the counts are City 2 and Duplo 1. |
| `Scenarios.ThreeSetsTags` | src/main/java/brickset/LegoSetRepository.java:46-52 | On the same list with prefix "F", the printed lines are house, rescue, vehicle: the shared tag appears once. |
| `Scenarios.ThreeSetsLongest` | src/main/java/brickset/LegoSetRepository.java:75-78 | On the same list the longest City name is "Fire Truck". |
| `Scenarios.LongestNameTieKeepsFirst` | src/main/java/brickset/LegoSetRepository.java:77 | Of two City names with the same length, the earlier one is kept. |

## Left out

- `main` (src/main/java/brickset/LegoSetRepository.java:22-32) is a console demonstration and is not modelled.
- Printing to `System.out` is not modelled. `DistinctTagsWhereNameStartsWith` returns the printed lines in print order instead.
- Loading the JSON file is not modelled. The `Repository` superclass and the `LegoSet` class are not part of this model, and the loaded list is a parameter. The record's field types come from the getters the queries call.
- The record type has a non-null `name`, a non-null `theme` and no null tag elements, and `start` is a non-null `string`. The model therefore does not cover these Java behaviours:
  - A null `theme` makes `getNumberOfLegoSetsByTheme` (line 67) and `getLongestNameByTheme` (line 77) throw `NullPointerException`, because `groupingBy` refuses a null key.
  - A null `name` on any record makes `printDistinctTagsWhereLegoSetNameStartsWithString` (line 47) throw `NullPointerException` at `startsWith`.
  - In `getLongestNameByTheme` (line 77), a null `name` throws `NullPointerException` when `String::length` is applied to it in a theme with two or more records. If it is the only record of its theme, `Optional::get` throws `NoSuchElementException` instead.
  - A null `name` or `theme` makes no difference to `isAtLeastOneSetWithoutSubTheme` or `getTotalPiecesOfTheLegoSets`, which never read those fields.
  - A null element in a selected tag list passes through `distinct` (line 49). If it is the only selected tag, `sorted` (line 50) does no comparison, and the line `null` is printed. If there are other selected tags, `sorted` throws `NullPointerException`.
  - A null `start` makes `printDistinctTagsWhereLegoSetNameStartsWithString` throw `NullPointerException` at `startsWith` (line 47) as soon as the list has a record. On an empty list it prints nothing.
- `LegoSetRepository.NumberOfLegoSetsByTheme`: Java counts in a `long`. The model uses an unbounded integer, since no list can reach 2^63 elements.
- `Streams.Distinct`: its contract does not state that first occurrences keep their encounter order. The next stage sorts the stream, so that order never reaches the output.
- Strings are sequences of Dafny characters (Unicode scalar values), not UTF-16 code units. A character outside the Basic Multilingual Plane counts as length 1 here but 2 in `String.length`. It is also compared by scalar value, not by surrogate code units.
- The iteration order of the `HashMap`s that `groupingBy` returns is not modelled. Only the map contents are.
