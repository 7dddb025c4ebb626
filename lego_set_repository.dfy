/**
 * The queries of `LegoSetRepository` over the loaded list of LEGO sets. Each
 * query takes the list that `getAll()` returns as its `sets` argument.
 */
module LegoSetRepository {
  import opened Wrappers
  import opened JavaString
  import opened Streams

  /** The values of a Java `int`. */
  type Int32 = x: int | -0x8000_0000 <= x < 0x8000_0000

  /**
   * One record of the data set. `name` and `theme` are never null; the other
   * fields may be.
   */
  datatype LegoSet = LegoSet(
    name: string,
    theme: string,
    subtheme: Option<string>,
    pieces: Option<Int32>,
    tags: Option<seq<string>>)

  /** The themes of the records, in list order. */
  function Themes(sets: seq<LegoSet>): seq<string> {
    seq(|sets|, i requires 0 <= i < |sets| => sets[i].theme)
  }

  lemma ThemesSnoc(sets: seq<LegoSet>)
    requires sets != []
    ensures Themes(sets) == Themes(sets[..|sets| - 1]) + [sets[|sets| - 1].theme]
  {
  }

  // ---------------------------------------------------------------------
  // isAtLeastOneSetWithoutSubTheme

  /** `anyMatch(subtheme == null)`, scanning the list from the front. */
  function IsAtLeastOneSetWithoutSubTheme(sets: seq<LegoSet>): (r: bool)
    ensures r <==> exists i :: 0 <= i < |sets| && sets[i].subtheme.None?
  {
    if sets == [] then false
    else if sets[0].subtheme.None? then true
    else
      var r := IsAtLeastOneSetWithoutSubTheme(sets[1..]);
      assert forall i :: 1 <= i < |sets| ==> sets[i] == sets[1..][i - 1];
      r
  }

  // ---------------------------------------------------------------------
  // printDistinctTagsWhereLegoSetNameStartsWithString

  /** The `filter` stage: the name starts with `start` and the tags are not null. */
  predicate Selected(s: LegoSet, start: string) {
    StartsWith(s.name, start) && s.tags.Some?
  }

  /** Some selected record carries `tag`. */
  ghost predicate SelectedTag(sets: seq<LegoSet>, start: string, tag: string) {
    exists i :: 0 <= i < |sets| && Selected(sets[i], start) && tag in sets[i].tags.value
  }

  /** The `filter` and `flatMap` stages: the tags of the selected records, in list order. */
  function SelectedTags(sets: seq<LegoSet>, start: string): (r: seq<string>)
    ensures forall tag :: tag in r <==> SelectedTag(sets, start, tag)
  {
    if sets == [] then []
    else
      var rest := SelectedTags(sets[1..], start);
      assert forall i :: 1 <= i < |sets| ==> sets[i] == sets[1..][i - 1];
      (if Selected(sets[0], start) then sets[0].tags.value else []) + rest
  }

  /**
   * The lines `printDistinctTagsWhereLegoSetNameStartsWithString(start)`
   * prints, in print order: the selected tags, without duplicates, sorted.
   */
  function DistinctTagsWhereNameStartsWith(sets: seq<LegoSet>, start: string): (r: seq<string>)
    ensures StrictlyAscending(r)
    ensures forall tag :: tag in r <==> SelectedTag(sets, start, tag)
  {
    var d := Distinct(SelectedTags(sets, start));
    SortStrictlyAscending(d);
    var r := Sort(d);
    assert forall tag :: tag in r <==> tag in multiset(d);
    r
  }

  /**
   * The printed lines are the only strictly ascending sequence of exactly
   * the selected tags.
   */
  lemma PrintedTagsAreDetermined(sets: seq<LegoSet>, start: string, lines: seq<string>)
    requires StrictlyAscending(lines)
    requires forall tag :: tag in lines <==> SelectedTag(sets, start, tag)
    ensures lines == DistinctTagsWhereNameStartsWith(sets, start)
  {
    StrictlyAscendingUnique(lines, DistinctTagsWhereNameStartsWith(sets, start));
  }

  // ---------------------------------------------------------------------
  // getTotalPiecesOfTheLegoSets

  /** `Integer::sum`: the mathematical sum brought back into `int` range modulo 2^32. */
  function Wrap32(x: int): (r: Int32)
    ensures (r - x) % 0x1_0000_0000 == 0
  {
    (x + 0x8000_0000) % 0x1_0000_0000 - 0x8000_0000
  }

  lemma Wrap32Add(a: int, b: int)
    ensures Wrap32(Wrap32(a) + b) == Wrap32(a + b)
  {
  }

  /** The contribution of one record: its pieces, or 0 when they are null. */
  function PiecesOf(s: LegoSet): int {
    if s.pieces.Some? then s.pieces.value else 0
  }

  /** The mathematical sum of the pieces that are present. */
  function PresentPiecesSum(sets: seq<LegoSet>): int {
    if sets == [] then 0 else PiecesOf(sets[0]) + PresentPiecesSum(sets[1..])
  }

  lemma {:induction false} PresentPiecesSumSnoc(sets: seq<LegoSet>)
    requires sets != []
    ensures PresentPiecesSum(sets) == PresentPiecesSum(sets[..|sets| - 1]) + PiecesOf(sets[|sets| - 1])
  {
    if |sets| > 1 {
      var tail := sets[1..];
      PresentPiecesSumSnoc(tail);
      assert tail[..|tail| - 1] == sets[..|sets| - 1][1..];
    }
  }

  /**
   * `map(getPieces).filter(nonNull).reduce(0, Integer::sum)`: a left fold in
   * 32-bit arithmetic over the pieces that are present.
   */
  function TotalPiecesOfTheLegoSets(sets: seq<LegoSet>): (r: Int32)
    ensures r == Wrap32(PresentPiecesSum(sets))
  {
    if sets == [] then 0
    else
      var acc := TotalPiecesOfTheLegoSets(sets[..|sets| - 1]);
      var last := sets[|sets| - 1];
      PresentPiecesSumSnoc(sets);
      Wrap32Add(PresentPiecesSum(sets[..|sets| - 1]), PiecesOf(last));
      if last.pieces.Some? then Wrap32(acc + last.pieces.value) else acc
  }

  /** When the sum fits in an `int`, the total is exactly the sum of the present pieces. */
  lemma TotalPiecesExact(sets: seq<LegoSet>)
    requires -0x8000_0000 <= PresentPiecesSum(sets) < 0x8000_0000
    ensures TotalPiecesOfTheLegoSets(sets) == PresentPiecesSum(sets)
  {
  }

  // ---------------------------------------------------------------------
  // getNumberOfLegoSetsByTheme

  /** `groupingBy(getTheme, counting())`: one counter per theme, raised per record in list order. */
  function NumberOfLegoSetsByTheme(sets: seq<LegoSet>): (r: map<string, int>)
    ensures forall t :: t in r <==> t in Themes(sets)
    ensures forall t :: t in r ==> r[t] == multiset(Themes(sets))[t] && r[t] >= 1
  {
    if sets == [] then map[]
    else
      var m := NumberOfLegoSetsByTheme(sets[..|sets| - 1]);
      var t := sets[|sets| - 1].theme;
      ThemesSnoc(sets);
      m[t := if t in m then m[t] + 1 else 1]
  }

  /** The sum of the values of a map. */
  ghost function ValueSum(m: map<string, int>): int
    decreases |m|
  {
    if m == map[] then 0
    else
      var k :| k in m;
      m[k] + ValueSum(m - {k})
  }

  /** `ValueSum` may take out any key first. */
  lemma {:induction false} ValueSumRemove(m: map<string, int>, k: string)
    requires k in m
    ensures ValueSum(m) == m[k] + ValueSum(m - {k})
    decreases |m|
  {
    var k' :| k' in m && ValueSum(m) == m[k'] + ValueSum(m - {k'});
    if k' != k {
      ValueSumRemove(m - {k'}, k);
      ValueSumRemove(m - {k}, k');
      assert m - {k'} - {k} == m - {k} - {k'};
    }
  }

  /** Raising one counter by one raises the sum by one. */
  lemma ValueSumIncrement(m: map<string, int>, t: string)
    ensures ValueSum(m[t := if t in m then m[t] + 1 else 1]) == ValueSum(m) + 1
  {
    var r := m[t := if t in m then m[t] + 1 else 1];
    ValueSumRemove(r, t);
    assert r - {t} == m - {t};
    if t in m {
      ValueSumRemove(m, t);
    } else {
      assert m - {t} == m;
    }
  }

  /** The counts add up to the number of records. */
  lemma {:induction false} NumberOfLegoSetsByThemeTotal(sets: seq<LegoSet>)
    ensures ValueSum(NumberOfLegoSetsByTheme(sets)) == |sets|
  {
    if sets != [] {
      NumberOfLegoSetsByThemeTotal(sets[..|sets| - 1]);
      ValueSumIncrement(NumberOfLegoSetsByTheme(sets[..|sets| - 1]), sets[|sets| - 1].theme);
    }
  }

  // ---------------------------------------------------------------------
  // getLongestNameByTheme

  /**
   * Record `i` has theme `t` and the longest name of that theme, and every
   * earlier record of theme `t` has a strictly shorter name.
   */
  ghost predicate IsFirstLongest(sets: seq<LegoSet>, t: string, i: int) {
    && 0 <= i < |sets|
    && sets[i].theme == t
    && (forall j :: 0 <= j < |sets| && sets[j].theme == t ==> |sets[j].name| <= |sets[i].name|)
    && (forall j :: 0 <= j < i && sets[j].theme == t ==> |sets[j].name| < |sets[i].name|)
  }

  /**
   * `groupingBy(getTheme, mapping(getName, maxBy(comparingInt(length))))`:
   * per theme, the running maximum keeps the current name unless the next
   * one is strictly longer.
   */
  function LongestNameByTheme(sets: seq<LegoSet>): (r: map<string, string>)
    ensures forall t :: t in r <==> t in Themes(sets)
  {
    if sets == [] then map[]
    else
      var m := LongestNameByTheme(sets[..|sets| - 1]);
      var s := sets[|sets| - 1];
      ThemesSnoc(sets);
      m[s.theme := if s.theme in m && |m[s.theme]| >= |s.name| then m[s.theme] else s.name]
  }

  /** A first longest record of the list without its last record stays one unless the last record beats it. */
  lemma FirstLongestKept(sets: seq<LegoSet>, t: string, i: int)
    requires sets != [] && IsFirstLongest(sets[..|sets| - 1], t, i)
    requires sets[|sets| - 1].theme != t || |sets[|sets| - 1].name| <= |sets[i].name|
    ensures IsFirstLongest(sets, t, i)
  {
    assert forall j :: 0 <= j < |sets| - 1 ==> sets[j] == sets[..|sets| - 1][j];
  }

  /** The last record is the first longest one when it beats every earlier record of its theme. */
  lemma LastIsFirstLongest(sets: seq<LegoSet>, t: string)
    requires sets != [] && sets[|sets| - 1].theme == t
    requires forall j :: 0 <= j < |sets| - 1 && sets[j].theme == t ==> |sets[j].name| < |sets[|sets| - 1].name|
    ensures IsFirstLongest(sets, t, |sets| - 1)
  {
  }

  /**
   * The longest name of a theme is the name of record `i`, the first record
   * of that theme whose name no other record of the theme beats in length.
   */
  lemma {:induction false} LongestNameIsFirstLongest(sets: seq<LegoSet>, t: string) returns (i: int)
    requires t in Themes(sets)
    ensures IsFirstLongest(sets, t, i) && LongestNameByTheme(sets)[t] == sets[i].name
  {
    var n := |sets|;
    var p := sets[..n - 1];
    var s := sets[n - 1];
    var m := LongestNameByTheme(p);
    ThemesSnoc(sets);
    if t in m {
      i := LongestNameIsFirstLongest(p, t);
      assert p[i] == sets[i];
      if s.theme != t || |m[t]| >= |s.name| {
        FirstLongestKept(sets, t, i);
      } else {
        forall j | 0 <= j < n - 1 && sets[j].theme == t ensures |sets[j].name| < |s.name| {
          assert p[j] == sets[j];
        }
        LastIsFirstLongest(sets, t);
        i := n - 1;
      }
    } else {
      forall j | 0 <= j < n - 1 ensures sets[j].theme != t {
        assert Themes(p)[j] == p[j].theme && p[j] == sets[j];
      }
      LastIsFirstLongest(sets, t);
      i := n - 1;
    }
  }

  /** Both grouping queries have exactly the themes of the list as keys. */
  lemma GroupingsShareKeys(sets: seq<LegoSet>)
    ensures LongestNameByTheme(sets).Keys == NumberOfLegoSetsByTheme(sets).Keys
  {
  }
}
