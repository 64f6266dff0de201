/** The table operations the engine applies to its accumulated rows: sorting a pass by
    ingredient count, dropping repeated titles, and keeping the first n rows. */
module Frames {
  import opened Recipes
  import opened Combinatorics

  predicate SortedByIngredientCount(s: seq<Row>) {
    forall i, j :: 0 <= i < j < |s| ==> s[i].ingredientCount <= s[j].ingredientCount
  }

  /** Insert `x` into a sorted table in front of the first row with at least its ingredient count. */
  function InsertByIngredientCount(x: Row, s: seq<Row>): (t: seq<Row>)
    requires SortedByIngredientCount(s)
    ensures SortedByIngredientCount(t)
    ensures multiset(t) == multiset(s) + multiset{x}
    ensures |t| == |s| + 1 && (t[0] == x || (s != [] && t[0] == s[0]))
    decreases |s|
  {
    if s == [] || x.ingredientCount <= s[0].ingredientCount then
      SortedCons(x, s);
      [x] + s
    else
      var t' := InsertByIngredientCount(x, s[1..]);
      assert s == [s[0]] + s[1..];
      assert s[0].ingredientCount <= t'[0].ingredientCount;
      SortedCons(s[0], t');
      [s[0]] + t'
  }

  /** A row no larger than the head of a sorted table can go in front of it. */
  lemma SortedCons(y: Row, t: seq<Row>)
    requires SortedByIngredientCount(t)
    requires t != [] ==> y.ingredientCount <= t[0].ingredientCount
    ensures SortedByIngredientCount([y] + t)
  {
    var u := [y] + t;
    forall i, j | 0 <= i < j < |u|
      ensures u[i].ingredientCount <= u[j].ingredientCount
    {
      if i > 0 {
        assert u[i] == t[i - 1] && u[j] == t[j - 1];
      } else {
        assert u[j] == t[j - 1];
        assert t[0].ingredientCount <= t[j - 1].ingredientCount;
      }
    }
  }

  /** One ordering of the rows by ascending ingredient count (the source's sort is not stable, so
      the model only relies on the two properties stated here). */
  function SortByIngredientCount(s: seq<Row>): (t: seq<Row>)
    ensures SortedByIngredientCount(t)
    ensures multiset(t) == multiset(s)
    decreases |s|
  {
    if s == [] then []
    else
      assert s == [s[0]] + s[1..];
      InsertByIngredientCount(s[0], SortByIngredientCount(s[1..]))
  }

  /** Row `k` of `s` is the first row of `s` with its title. */
  predicate FirstWithTitle(s: seq<Row>, k: int) {
    0 <= k < |s| && forall k' :: 0 <= k' < k ==> s[k'].recipe.title != s[k].recipe.title
  }

  /** The rows of `s` whose title is not in `seen` and has not appeared earlier in `s`. */
  function DropDuplicatesFrom(s: seq<Row>, seen: set<string>): (d: seq<Row>)
    ensures |d| <= |s|
    ensures forall i :: 0 <= i < |d| ==> d[i].recipe.title !in seen
    ensures forall i, j :: 0 <= i < j < |d| ==> d[i].recipe.title != d[j].recipe.title
    decreases |s|
  {
    if s == [] then []
    else if s[0].recipe.title in seen then DropDuplicatesFrom(s[1..], seen)
    else [s[0]] + DropDuplicatesFrom(s[1..], seen + {s[0].recipe.title})
  }

  /** `drop_duplicates(subset=["title"])`: keep the first row of each title. */
  function DropDuplicatesByTitle(s: seq<Row>): (d: seq<Row>)
    ensures |d| <= |s|
    ensures forall i, j :: 0 <= i < j < |d| ==> d[i].recipe.title != d[j].recipe.title
  {
    DropDuplicatesFrom(s, {})
  }

  /** Dropping duplicates keeps the surviving rows in their original relative order. */
  lemma {:induction false} DropDuplicatesKeepsOrder(s: seq<Row>, seen: set<string>)
    ensures IsSubseq(DropDuplicatesFrom(s, seen), s)
    decreases |s|
  {
    if s != [] {
      DropDuplicatesKeepsOrder(s[1..], seen + {s[0].recipe.title});
      DropDuplicatesKeepsOrder(s[1..], seen);
      var d := DropDuplicatesFrom(s, seen);
      if s[0].recipe.title !in seen {
        assert d[0] == s[0] && d[1..] == DropDuplicatesFrom(s[1..], seen + {s[0].recipe.title});
      }
    }
  }

  /** Surviving row i is the first row of `s` carrying its title; `k` is its position in `s`. */
  lemma {:induction false} DropDuplicatesKeepsFirst(s: seq<Row>, seen: set<string>, i: nat) returns (k: nat)
    requires i < |DropDuplicatesFrom(s, seen)|
    ensures FirstWithTitle(s, k) && s[k] == DropDuplicatesFrom(s, seen)[i]
    decreases |s|
  {
    var d := DropDuplicatesFrom(s, seen);
    var t0 := s[0].recipe.title;
    if t0 !in seen && i == 0 {
      k := 0;
    } else {
      var rest := if t0 in seen then seen else seen + {t0};
      var d' := DropDuplicatesFrom(s[1..], rest);
      var i' := if t0 in seen then i else i - 1;
      assert d[i] == d'[i'];
      var k' := DropDuplicatesKeepsFirst(s[1..], rest, i');
      assert d'[i'].recipe.title !in rest;
      k := k' + 1;
      assert s[k] == s[1..][k'];
      forall j | 0 <= j < k
        ensures s[j].recipe.title != s[k].recipe.title
      {
        if j > 0 {
          assert s[j] == s[1..][j - 1];
        }
      }
    }
  }

  /** Every title of `s` outside `seen` survives; `i` is the position of the surviving row. */
  lemma {:induction false} DropDuplicatesKeepsEveryTitle(s: seq<Row>, seen: set<string>, k: nat) returns (i: nat)
    requires k < |s| && s[k].recipe.title !in seen
    ensures i < |DropDuplicatesFrom(s, seen)|
    ensures DropDuplicatesFrom(s, seen)[i].recipe.title == s[k].recipe.title
    decreases |s|
  {
    var d := DropDuplicatesFrom(s, seen);
    var t0 := s[0].recipe.title;
    if t0 !in seen && s[k].recipe.title == t0 {
      i := 0;
    } else {
      var rest := if t0 in seen then seen else seen + {t0};
      var d' := DropDuplicatesFrom(s[1..], rest);
      assert s[1..][k - 1] == s[k];
      var i' := DropDuplicatesKeepsEveryTitle(s[1..], rest, k - 1);
      i := if t0 in seen then i' else i' + 1;
      assert d[i] == d'[i'];
    }
  }

  /** `head(n)` of a table: the first n rows, or for negative n all but the last -n rows. */
  function Head<T>(s: seq<T>, n: int): (h: seq<T>)
    ensures n >= 0 ==> |h| == if n <= |s| then n else |s|
    ensures n < 0 ==> |h| == if |s| + n >= 0 then |s| + n else 0
    ensures h == s[..|h|]
  {
    if n >= 0 then (if n <= |s| then s[..n] else s)
    else if |s| + n >= 0 then s[..|s| + n]
    else []
  }

  /** `a` ranks before `b`: found at a larger combination size, or at the same size with no more
      ingredients. */
  predicate RanksBefore(a: Row, b: Row) {
    a.matchedCount > b.matchedCount ||
    (a.matchedCount == b.matchedCount && a.ingredientCount <= b.ingredientCount)
  }

  predicate Ranked(s: seq<Row>) {
    forall i, j :: 0 <= i < j < |s| ==> RanksBefore(s[i], s[j])
  }

  /** Keeping a subsequence of a ranked table keeps it ranked. */
  lemma {:induction false} SubseqRanked(c: seq<Row>, s: seq<Row>)
    requires IsSubseq(c, s)
    requires Ranked(s)
    ensures Ranked(c)
    decreases |s|
  {
    if c != [] {
      assert Ranked(s[1..]);
      if c[0] == s[0] && IsSubseq(c[1..], s[1..]) {
        SubseqRanked(c[1..], s[1..]);
        SubseqElements(c[1..], s[1..]);
        forall j | 0 < j < |c|
          ensures RanksBefore(c[0], c[j])
        {
          assert c[j] == c[1..][j - 1];
          assert c[j] in s[1..];
          var m :| 0 <= m < |s[1..]| && s[1..][m] == c[j];
          assert s[m + 1] == c[j];
        }
        forall i, j | 0 < i < j < |c|
          ensures RanksBefore(c[i], c[j])
        {
          assert c[i] == c[1..][i - 1] && c[j] == c[1..][j - 1];
        }
      } else {
        SubseqRanked(c, s[1..]);
      }
    }
  }

  /** The four returned columns of each row: one record per row, in the same order. */
  function Project(rows: seq<Row>): (ms: seq<Match>)
    ensures |ms| == |rows|
    ensures forall i :: 0 <= i < |rows| ==>
              ms[i].title == rows[i].recipe.title && ms[i].ingredients == rows[i].recipe.ingredients &&
              ms[i].directions == rows[i].recipe.directions && ms[i].matchedCount == rows[i].matchedCount
  {
    seq(|rows|, i requires 0 <= i < |rows| =>
      Match(rows[i].recipe.title, rows[i].recipe.ingredients, rows[i].recipe.directions, rows[i].matchedCount))
  }
}
