/** `itertools.combinations`: the r-element selections of a sequence, taken by position and
    listed in lexicographic order of positions. */
module Combinatorics {

  /** The binomial coefficient C(n, k), by Pascal's rule. */
  function Binomial(n: nat, k: nat): nat
  {
    if k == 0 then 1
    else if n == 0 then 0
    else Binomial(n - 1, k - 1) + Binomial(n - 1, k)
  }

  /** C(n, k) is zero exactly when more elements are asked for than there are. */
  lemma {:induction false} BinomialPositive(n: nat, k: nat)
    ensures Binomial(n, k) > 0 <==> k <= n
  {
    if k != 0 && n != 0 {
      BinomialPositive(n - 1, k - 1);
      BinomialPositive(n - 1, k);
    }
  }

  /** Each selection of `cs` with `x` put in front. */
  function PrependAll<T>(x: T, cs: seq<seq<T>>): (ds: seq<seq<T>>)
    ensures |ds| == |cs|
    ensures forall i :: 0 <= i < |cs| ==> ds[i] == [x] + cs[i]
  {
    seq(|cs|, i requires 0 <= i < |cs| => [x] + cs[i])
  }

  /** The r-combinations of `s`: those that use `s[0]` come first, then those that do not.
      Positions, not values, are chosen, so a repeated element gives repeated selections. */
  function Combinations<T>(s: seq<T>, r: nat): (cs: seq<seq<T>>)
    ensures |cs| == Binomial(|s|, r)
    ensures forall i :: 0 <= i < |cs| ==> |cs[i]| == r
    decreases |s|
  {
    if r == 0 then [[]]
    else if |s| == 0 then []
    else PrependAll(s[0], Combinations(s[1..], r - 1)) + Combinations(s[1..], r)
  }

  /** `c` can be obtained from `s` by deleting elements, keeping the order of the rest. */
  predicate IsSubseq<T(==)>(c: seq<T>, s: seq<T>)
    decreases |s|
  {
    if c == [] then true
    else if s == [] then false
    else (c[0] == s[0] && IsSubseq(c[1..], s[1..])) || IsSubseq(c, s[1..])
  }

  /** A subsequence is no longer than the sequence and holds only its elements. */
  lemma {:induction false} SubseqElements<T>(c: seq<T>, s: seq<T>)
    requires IsSubseq(c, s)
    ensures |c| <= |s|
    ensures forall x :: x in c ==> x in s
  {
    if c != [] {
      if c[0] == s[0] && IsSubseq(c[1..], s[1..]) {
        SubseqElements(c[1..], s[1..]);
        assert c == [c[0]] + c[1..];
      } else {
        SubseqElements(c, s[1..]);
      }
    }
  }

  /** The selections that start with `x` are `x` followed by one of `cs`. */
  lemma PrependAllMember<T>(x: T, cs: seq<seq<T>>, c: seq<T>)
    ensures c in PrependAll(x, cs) <==> c != [] && c[0] == x && c[1..] in cs
  {
    var ds := PrependAll(x, cs);
    if c in ds {
      var i :| 0 <= i < |ds| && ds[i] == c;
      assert c[1..] == cs[i];
    }
    if c != [] && c[0] == x && c[1..] in cs {
      var i :| 0 <= i < |cs| && cs[i] == c[1..];
      assert ds[i] == c;
    }
  }

  /** The selections of size r are exactly the subsequences of length r. */
  lemma {:induction false} CombinationsAreSubsequences<T>(s: seq<T>, r: nat, c: seq<T>)
    ensures c in Combinations(s, r) <==> |c| == r && IsSubseq(c, s)
    decreases |s|
  {
    if r == 0 {
      assert Combinations(s, r) == [[]];
    } else if |s| != 0 {
      var tails := Combinations(s[1..], r - 1);
      assert Combinations(s, r) == PrependAll(s[0], tails) + Combinations(s[1..], r);
      PrependAllMember(s[0], tails, c);
      CombinationsAreSubsequences(s[1..], r, c);
      if c != [] {
        CombinationsAreSubsequences(s[1..], r - 1, c[1..]);
      }
    }
  }

  /** `f` applied to each element. */
  function MapSeq<T, U>(f: T -> U, s: seq<T>): (t: seq<U>)
    ensures |t| == |s|
  {
    seq(|s|, i requires 0 <= i < |s| => f(s[i]))
  }

  /** `f` applied to each element of each selection. */
  function MapEach<T, U>(f: T -> U, cs: seq<seq<T>>): (ds: seq<seq<U>>)
    ensures |ds| == |cs|
  {
    seq(|cs|, i requires 0 <= i < |cs| => MapSeq(f, cs[i]))
  }

  lemma MapSeqSplit<T, U>(f: T -> U, s: seq<T>)
    requires s != []
    ensures MapSeq(f, s) == [f(s[0])] + MapSeq(f, s[1..])
  {
  }

  lemma MapEachPrepend<T, U>(f: T -> U, x: T, cs: seq<seq<T>>)
    ensures MapEach(f, PrependAll(x, cs)) == PrependAll(f(x), MapEach(f, cs))
  {
    forall i | 0 <= i < |cs|
      ensures MapEach(f, PrependAll(x, cs))[i] == PrependAll(f(x), MapEach(f, cs))[i]
    {
      MapSeqSplit(f, [x] + cs[i]);
      assert ([x] + cs[i])[1..] == cs[i];
    }
  }

  lemma MapEachAppend<T, U>(f: T -> U, a: seq<seq<T>>, b: seq<seq<T>>)
    ensures MapEach(f, a + b) == MapEach(f, a) + MapEach(f, b)
  {
  }

  /** Selecting and then renaming the elements is renaming and then selecting: which selections
      are made depends only on positions, never on the values at them. */
  lemma {:induction false} CombinationsCommuteWithMap<T, U>(f: T -> U, s: seq<T>, r: nat)
    ensures Combinations(MapSeq(f, s), r) == MapEach(f, Combinations(s, r))
    decreases |s|
  {
    if r != 0 && |s| != 0 {
      var t := MapSeq(f, s);
      MapSeqSplit(f, s);
      assert t[0] == f(s[0]) && t[1..] == MapSeq(f, s[1..]);
      CombinationsCommuteWithMap(f, s[1..], r - 1);
      CombinationsCommuteWithMap(f, s[1..], r);
      var tails := Combinations(s[1..], r - 1);
      var rest := Combinations(s[1..], r);
      MapEachPrepend(f, s[0], tails);
      MapEachAppend(f, PrependAll(s[0], tails), rest);
    }
  }

  /** The positions 0 .. n-1 in order. */
  function Positions(n: nat): (ps: seq<nat>)
    ensures |ps| == n
    ensures forall i :: 0 <= i < n ==> ps[i] == i
  {
    seq(n, i requires 0 <= i < n => i)
  }

  /** The r-combinations of `s` are the elements of `s` at each r-combination of its positions,
      one selection per set of r positions, in the same order (`at` reads `s` at a position). */
  lemma CombinationsOfPositions<T>(s: seq<T>, r: nat, at: nat -> T)
    requires forall i :: 0 <= i < |s| ==> at(i) == s[i]
    ensures Combinations(s, r) == MapEach(at, Combinations(Positions(|s|), r))
  {
    assert MapSeq(at, Positions(|s|)) == s;
    CombinationsCommuteWithMap(at, Positions(|s|), r);
  }
}
