/** The stable sorts of the dashboard (`Array.prototype.sort` with a
    comparator) in the only shape they take here: descending by a rank made
    of a timestamp and a text, the text compared as `localeCompare` does. */
module Sorting {
  import opened Text

  /** What a comparator looks at: a millisecond time, then a text. */
  datatype Rank = Rank(time: int, text: string)

  /** `a` may come before `b` in descending order: a later time, or the
      same time and a text that sorts at or after `b`'s. */
  predicate RankGe(a: Rank, b: Rank) {
    a.time > b.time || (a.time == b.time && LexLe(b.text, a.text))
  }

  lemma RankGeTotal(a: Rank, b: Rank)
    ensures RankGe(a, b) || RankGe(b, a)
  {
    LexLeTotal(a.text, b.text);
  }

  lemma RankGeTransitive(a: Rank, b: Rank, c: Rank)
    requires RankGe(a, b) && RankGe(b, c)
    ensures RankGe(a, c)
  {
    if a.time == b.time && b.time == c.time {
      LexLeTransitive(c.text, b.text, a.text);
    }
  }

  /** Every element may come before every later one. */
  ghost predicate SortedDesc<T>(xs: seq<T>, rank: T -> Rank) {
    forall i, j :: 0 <= i < j < |xs| ==> RankGe(rank(xs[i]), rank(xs[j]))
  }

  /** Inserts `x` in front of the first element it may precede; on a tie
      `x` goes first, which keeps the sort stable. */
  function Insert<T>(x: T, s: seq<T>, rank: T -> Rank): (r: seq<T>)
    ensures multiset(r) == multiset(s) + multiset{x}
    ensures SortedDesc(s, rank) ==> SortedDesc(r, rank)
  {
    if |s| == 0 then [x]
    else if RankGe(rank(x), rank(s[0])) then
      InsertFrontSorted(x, s, rank);
      [x] + s
    else
      var t := Insert(x, s[1..], rank);
      assert s == [s[0]] + s[1..];
      InsertBehindSorted(x, s, t, rank);
      [s[0]] + t
  }

  lemma InsertFrontSorted<T>(x: T, s: seq<T>, rank: T -> Rank)
    requires |s| > 0 && RankGe(rank(x), rank(s[0]))
    ensures SortedDesc(s, rank) ==> SortedDesc([x] + s, rank)
  {
    if SortedDesc(s, rank) {
      var r := [x] + s;
      forall i, j | 0 <= i < j < |r| ensures RankGe(rank(r[i]), rank(r[j])) {
        if i == 0 && j > 1 {
          RankGeTransitive(rank(x), rank(s[0]), rank(s[j - 1]));
        }
      }
    }
  }

  lemma InsertBehindSorted<T>(x: T, s: seq<T>, t: seq<T>, rank: T -> Rank)
    requires |s| > 0 && !RankGe(rank(x), rank(s[0]))
    requires multiset(t) == multiset(s[1..]) + multiset{x}
    requires SortedDesc(s[1..], rank) ==> SortedDesc(t, rank)
    ensures SortedDesc(s, rank) ==> SortedDesc([s[0]] + t, rank)
  {
    if SortedDesc(s, rank) {
      RankGeTotal(rank(x), rank(s[0]));
      var r := [s[0]] + t;
      forall i, j | 0 <= i < j < |r| ensures RankGe(rank(r[i]), rank(r[j])) {
        if i == 0 {
          var y := t[j - 1];
          assert y in multiset(t);
          if y != x {
            assert y in multiset(s[1..]);
            var k :| 0 <= k < |s[1..]| && s[1..][k] == y;
            assert s[k + 1] == y;
          }
        }
      }
    }
  }

  /** `xs.slice().sort(cmp)` for the comparator that orders by `rank`
      descending: a stable insertion sort. */
  function SortDesc<T>(xs: seq<T>, rank: T -> Rank): (r: seq<T>)
    ensures multiset(r) == multiset(xs)
    ensures SortedDesc(r, rank)
  {
    if |xs| == 0 then []
    else
      assert xs == [xs[0]] + xs[1..];
      Insert(xs[0], SortDesc(xs[1..], rank), rank)
  }
}
