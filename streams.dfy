/**
 * The two intermediate stream stages of the tag query: `Stream.distinct`
 * and `Stream.sorted` on a stream of strings in encounter order.
 */
module Streams {
  import opened JavaString

  /**
   * `Stream.distinct` on an ordered stream: each element is kept at its first
   * occurrence and later copies are dropped.
   */
  function Distinct(s: seq<string>): (r: seq<string>)
    ensures forall x :: x in r <==> x in s
    ensures forall i, j :: 0 <= i < j < |r| ==> r[i] != r[j]
  {
    if s == [] then []
    else
      var d := Distinct(s[..|s| - 1]);
      if s[|s| - 1] in d then d else d + [s[|s| - 1]]
  }

  /**
   * Inserts `x` before the first element it is `<=` to, so that it lands in
   * front of the strings equal to it.
   */
  function Insert(x: string, s: seq<string>): (r: seq<string>)
    ensures multiset(r) == multiset(s) + multiset{x}
  {
    if s == [] || LessEq(x, s[0]) then [x] + s
    else
      assert s == [s[0]] + s[1..];
      [s[0]] + Insert(x, s[1..])
  }

  /**
   * `Stream.sorted` by the natural order of strings, as a stable insertion
   * sort: an element ends up in front of the later strings equal to it.
   */
  function Sort(s: seq<string>): (r: seq<string>)
    ensures multiset(r) == multiset(s)
  {
    if s == [] then []
    else
      assert s == [s[0]] + s[1..];
      Insert(s[0], Sort(s[1..]))
  }

  lemma {:induction false} InsertAscending(x: string, s: seq<string>)
    requires Ascending(s)
    ensures Ascending(Insert(x, s))
  {
    var r := Insert(x, s);
    if s == [] {
    } else if LessEq(x, s[0]) {
      forall j | 1 <= j < |r| ensures LessEq(r[0], r[j]) {
        LessEqTransitive(x, s[0], s[j - 1]);
      }
    } else {
      NotLessIsLessEq(s[0], x);
      InsertAscending(x, s[1..]);
      var t := Insert(x, s[1..]);
      forall j | 1 <= j < |r| ensures LessEq(r[0], r[j]) {
        assert r[j] == t[j - 1];
        assert r[j] in multiset(t);
        assert r[j] == x || r[j] in s[1..];
      }
    }
  }

  lemma {:induction false} InsertStrictlyAscending(x: string, s: seq<string>)
    requires StrictlyAscending(s) && x !in s
    ensures StrictlyAscending(Insert(x, s))
  {
    var r := Insert(x, s);
    if s == [] {
    } else if LessEq(x, s[0]) {
      assert x != s[0];
      forall j | 1 <= j < |r| ensures Less(r[0], r[j]) {
        if j > 1 {
          LessTransitive(x, s[0], s[j - 1]);
        }
      }
    } else {
      NotLessIsLessEq(s[0], x);
      InsertStrictlyAscending(x, s[1..]);
      var t := Insert(x, s[1..]);
      forall j | 1 <= j < |r| ensures Less(r[0], r[j]) {
        assert r[j] == t[j - 1];
        assert r[j] in multiset(t);
        assert r[j] == x || r[j] in s[1..];
      }
    }
  }

  /** The output of `sorted` is in ascending order. */
  lemma {:induction false} SortAscending(s: seq<string>)
    ensures Ascending(Sort(s))
  {
    if s != [] {
      SortAscending(s[1..]);
      InsertAscending(s[0], Sort(s[1..]));
    }
  }

  /** Sorting a stream without duplicates gives a strictly ascending one. */
  lemma {:induction false} SortStrictlyAscending(s: seq<string>)
    requires forall i, j :: 0 <= i < j < |s| ==> s[i] != s[j]
    ensures StrictlyAscending(Sort(s))
  {
    if s != [] {
      SortStrictlyAscending(s[1..]);
      var t := Sort(s[1..]);
      assert s[0] !in multiset(s[1..]);
      InsertStrictlyAscending(s[0], t);
    }
  }
}
