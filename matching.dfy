/** The admission test of one combination of search terms against the corpus: the coarse
    similarity filter, the full-match check, and the two columns added to admitted rows. */
module Matching {
  import opened Text
  import opened Recipes

  /** Some normalised ingredient contains the term, both lower-cased. */
  predicate TermMatches(term: string, ner: seq<string>) {
    exists k :: 0 <= k < |ner| && Contains(Lower(ner[k]), Lower(term))
  }

  /** A term matches exactly when its lower-cased form occurs at some position of some lower-cased
      ingredient name. */
  lemma TermMatchesIffWindow(term: string, ner: seq<string>)
    ensures TermMatches(term, ner) <==>
            exists k: nat, i: nat :: k < |ner| && WindowAt(Lower(ner[k]), Lower(term), i)
  {
    var t := Lower(term);
    if TermMatches(term, ner) {
      var k :| 0 <= k < |ner| && Contains(Lower(ner[k]), t);
      ContainsIffWindow(Lower(ner[k]), t);
      var i: nat :| WindowAt(Lower(ner[k]), t, i);
    }
    if exists k: nat, i: nat :: k < |ner| && WindowAt(Lower(ner[k]), t, i) {
      var k: nat, i: nat :| k < |ner| && WindowAt(Lower(ner[k]), t, i);
      ContainsIffWindow(Lower(ner[k]), t);
    }
  }

  /** Only the lower-cased form of a term decides whether it matches. */
  lemma TermMatchesIgnoresCase(term: string, ner: seq<string>)
    ensures TermMatches(term, ner) <==> TermMatches(Lower(term), ner)
  {
    LowerIdempotent(term);
  }

  /** `full_match`: every term of the combination matches some ingredient. */
  predicate FullMatch(ner: seq<string>, combination: seq<string>) {
    forall t :: 0 <= t < |combination| ==> TermMatches(combination[t], ner)
  }

  /** A full match depends only on which terms the combination holds, not on their order or
      repetition. */
  lemma FullMatchByTerms(ner: seq<string>, combination: seq<string>)
    ensures FullMatch(ner, combination) <==> forall term :: term in combination ==> TermMatches(term, ner)
  {
  }

  /** The `MatchedCount` column: how many positions of the combination match some ingredient.
      It reaches the size of the combination exactly on a full match. */
  function MatchedCount(ner: seq<string>, combination: seq<string>): (n: nat)
    ensures n <= |combination|
    ensures n == |combination| <==> FullMatch(ner, combination)
    decreases |combination|
  {
    if combination == [] then 0
    else
      assert forall t :: 0 < t < |combination| ==> combination[t] == combination[1..][t - 1];
      (if TermMatches(combination[0], ner) then 1 else 0) + MatchedCount(ner, combination[1..])
  }

  /** Corpus row `i` is kept for `combination`. */
  predicate Admits(corpus: seq<Recipe>, coarse: CoarseFilter, combination: seq<string>, i: int) {
    0 <= i < |corpus| && coarse(combination, i) && FullMatch(corpus[i].ner, combination)
  }

  /** No corpus row passes the coarse filter for `combination`. `df.loc[mask]` is then empty, and so
      is its `FullMatch` column, which is then a column of objects rather than booleans. Indexing the
      frame with it selects no columns, and reading `NERList` from the result fails. */
  predicate CoarseEmpty(corpus: seq<Recipe>, coarse: CoarseFilter, combination: seq<string>) {
    forall i :: 0 <= i < |corpus| ==> !coarse(combination, i)
  }

  /** `x` is corpus row `x.index`, unchanged, kept for `combination`, with the columns the engine
      adds: a matched count equal to the size of the combination and its ingredient count. */
  predicate AdmittedRow(corpus: seq<Recipe>, coarse: CoarseFilter, combination: seq<string>, x: Row) {
    Admits(corpus, coarse, combination, x.index) && x.recipe == corpus[x.index] &&
    x.matchedCount == |combination| && x.ingredientCount == |x.recipe.ner|
  }

  /** The row `Admissions` builds for corpus row `i`. */
  function AdmissionRow(corpus: seq<Recipe>, combination: seq<string>, i: nat): Row
    requires i < |corpus|
  {
    Row(i, corpus[i], MatchedCount(corpus[i].ner, combination), |corpus[i].ner|)
  }

  /** The admitted rows among corpus rows `from..`, in corpus order. */
  function AdmissionsFrom(corpus: seq<Recipe>, coarse: CoarseFilter, combination: seq<string>, from: nat)
    : (rows: seq<Row>)
    requires from <= |corpus|
    ensures forall j :: 0 <= j < |rows| ==> from <= rows[j].index && AdmittedRow(corpus, coarse, combination, rows[j])
    ensures forall j, j' :: 0 <= j < j' < |rows| ==> rows[j].index < rows[j'].index
    decreases |corpus| - from
  {
    if from == |corpus| then []
    else
      var rest := AdmissionsFrom(corpus, coarse, combination, from + 1);
      if Admits(corpus, coarse, combination, from) then [AdmissionRow(corpus, combination, from)] + rest
      else rest
  }

  /** `full_match_df` for one combination (`df.loc[mask]` with the two columns added): the corpus
      rows that pass the coarse filter and fully match, in corpus order, carrying `MatchedCount`
      and `IngredientCount`. That every such row occurs is `AdmissionsComplete`. */
  function Admissions(corpus: seq<Recipe>, coarse: CoarseFilter, combination: seq<string>): (rows: seq<Row>)
    ensures forall j :: 0 <= j < |rows| ==> AdmittedRow(corpus, coarse, combination, rows[j])
    ensures forall j, j' :: 0 <= j < j' < |rows| ==> rows[j].index < rows[j'].index
  {
    AdmissionsFrom(corpus, coarse, combination, 0)
  }

  lemma {:induction false} AdmissionsFromComplete(corpus: seq<Recipe>, coarse: CoarseFilter,
                                                  combination: seq<string>, from: nat, i: int) returns (j: nat)
    requires from <= i && Admits(corpus, coarse, combination, i)
    ensures j < |AdmissionsFrom(corpus, coarse, combination, from)|
    ensures AdmissionsFrom(corpus, coarse, combination, from)[j].index == i
    decreases |corpus| - from
  {
    var rest := AdmissionsFrom(corpus, coarse, combination, from + 1);
    if i == from {
      j := 0;
    } else if Admits(corpus, coarse, combination, from) {
      var j' := AdmissionsFromComplete(corpus, coarse, combination, from + 1, i);
      j := j' + 1;
    } else {
      j := AdmissionsFromComplete(corpus, coarse, combination, from + 1, i);
    }
  }

  /** A combination that fails on an empty coarse set would have admitted nothing anyway. */
  lemma CoarseEmptyAdmitsNothing(corpus: seq<Recipe>, coarse: CoarseFilter, combination: seq<string>)
    requires CoarseEmpty(corpus, coarse, combination)
    ensures Admissions(corpus, coarse, combination) == []
  {
    var rows := Admissions(corpus, coarse, combination);
    assert rows != [] ==> AdmittedRow(corpus, coarse, combination, rows[0]);
  }

  /** Every corpus row the combination admits occurs in `Admissions`, at position `j`. */
  lemma AdmissionsComplete(corpus: seq<Recipe>, coarse: CoarseFilter, combination: seq<string>, i: int)
    returns (j: nat)
    requires Admits(corpus, coarse, combination, i)
    ensures j < |Admissions(corpus, coarse, combination)|
    ensures Admissions(corpus, coarse, combination)[j].index == i
  {
    j := AdmissionsFromComplete(corpus, coarse, combination, 0, i);
  }

  /** The rows admitted for each combination in turn, concatenated in the order of `combinations`. */
  function ConcatAdmissions(corpus: seq<Recipe>, coarse: CoarseFilter, combinations: seq<seq<string>>)
    : (rows: seq<Row>)
    decreases |combinations|
  {
    if combinations == [] then []
    else
      var n := |combinations| - 1;
      ConcatAdmissions(corpus, coarse, combinations[..n]) + Admissions(corpus, coarse, combinations[n])
  }

  /** Concatenating over two runs of combinations is concatenating the two results: the rows come in
      the order of the combinations. */
  lemma {:induction false} ConcatAdmissionsAppend(corpus: seq<Recipe>, coarse: CoarseFilter,
                                                  cs: seq<seq<string>>, ds: seq<seq<string>>)
    ensures ConcatAdmissions(corpus, coarse, cs + ds) ==
            ConcatAdmissions(corpus, coarse, cs) + ConcatAdmissions(corpus, coarse, ds)
    decreases |ds|
  {
    if ds == [] {
      assert cs + ds == cs;
    } else {
      var n := |ds| - 1;
      var all := cs + ds;
      assert all[..|all| - 1] == cs + ds[..n];
      assert all[|all| - 1] == ds[n];
      var last := Admissions(corpus, coarse, ds[n]);
      assert ConcatAdmissions(corpus, coarse, all) == ConcatAdmissions(corpus, coarse, cs + ds[..n]) + last;
      assert ConcatAdmissions(corpus, coarse, ds) == ConcatAdmissions(corpus, coarse, ds[..n]) + last;
      ConcatAdmissionsAppend(corpus, coarse, cs, ds[..n]);
    }
  }

  /** Every concatenated row was admitted by one of the combinations, with that combination's size
      as its matched count. */
  lemma {:induction false} ConcatAdmissionsSound(corpus: seq<Recipe>, coarse: CoarseFilter,
                                                 combinations: seq<seq<string>>, j: nat) returns (k: nat)
    requires j < |ConcatAdmissions(corpus, coarse, combinations)|
    ensures k < |combinations|
    ensures AdmittedRow(corpus, coarse, combinations[k], ConcatAdmissions(corpus, coarse, combinations)[j])
    decreases |combinations|
  {
    var n := |combinations| - 1;
    var front := ConcatAdmissions(corpus, coarse, combinations[..n]);
    var rows := ConcatAdmissions(corpus, coarse, combinations);
    if j < |front| {
      assert rows[j] == front[j];
      k := ConcatAdmissionsSound(corpus, coarse, combinations[..n], j);
      assert combinations[..n][k] == combinations[k];
    } else {
      k := n;
      assert rows[j] == Admissions(corpus, coarse, combinations[n])[j - |front|];
    }
  }

  /** Every row a combination admits occurs among the concatenated rows. */
  lemma {:induction false} ConcatAdmissionsComplete(corpus: seq<Recipe>, coarse: CoarseFilter,
                                                    combinations: seq<seq<string>>, k: nat, i: nat) returns (j: nat)
    requires k < |combinations| && Admits(corpus, coarse, combinations[k], i)
    ensures j < |ConcatAdmissions(corpus, coarse, combinations)|
    ensures ConcatAdmissions(corpus, coarse, combinations)[j].index == i
    ensures AdmittedRow(corpus, coarse, combinations[k], ConcatAdmissions(corpus, coarse, combinations)[j])
    decreases |combinations|
  {
    var n := |combinations| - 1;
    var front := ConcatAdmissions(corpus, coarse, combinations[..n]);
    var rows := ConcatAdmissions(corpus, coarse, combinations);
    if k < n {
      assert combinations[..n][k] == combinations[k];
      j := ConcatAdmissionsComplete(corpus, coarse, combinations[..n], k, i);
      assert rows[j] == front[j];
    } else {
      assert k == n;
      var own := Admissions(corpus, coarse, combinations[n]);
      assert rows == front + own;
      var j' := AdmissionsComplete(corpus, coarse, combinations[n], i);
      j := |front| + j';
      assert rows[j] == own[j'];
    }
  }
}
