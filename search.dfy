/** The match engine `find_recipe_tfidf`: passes over the combinations of the search terms from
    the largest size down, accumulating admitted rows until enough are found, then dropping
    repeated titles and keeping the first `minRecipes` rows. */
module RecipeSearch {
  import opened Recipes
  import opened Combinatorics
  import opened Frames
  import opened Matching

  /** Every row admitted in the pass of size r, combination by combination in itertools order. */
  function PassAdmissions(terms: seq<string>, corpus: seq<Recipe>, coarse: CoarseFilter, r: nat): seq<Row> {
    ConcatAdmissions(corpus, coarse, Combinations(terms, r))
  }

  /** The block a pass appends: its admissions sorted by ingredient count, ties in any order. */
  ghost predicate IsPassBlock(block: seq<Row>, admissions: seq<Row>) {
    SortedByIngredientCount(block) && multiset(block) == multiset(admissions)
  }

  /** The blocks appended one after another. */
  function Flatten(blocks: seq<seq<Row>>): seq<Row>
    decreases |blocks|
  {
    if blocks == [] then []
    else Flatten(blocks[..|blocks| - 1]) + blocks[|blocks| - 1]
  }

  /** The number of accumulated rows once the first k blocks are appended. */
  function Cumulative(blocks: seq<seq<Row>>, k: nat): nat
    requires k <= |blocks|
  {
    |Flatten(blocks[..k])|
  }

  /** Block k is the sorted result of the pass of size |terms| - k. */
  ghost predicate BlocksFollowPasses(terms: seq<string>, corpus: seq<Recipe>, coarse: CoarseFilter,
                                     blocks: seq<seq<Row>>) {
    |blocks| <= |terms| &&
    forall k :: 0 <= k < |blocks| ==> IsPassBlock(blocks[k], PassAdmissions(terms, corpus, coarse, |terms| - k))
  }

  /** Some r-combination of the terms keeps no corpus row in the coarse filter, so pass r fails. */
  predicate PassFails(terms: seq<string>, corpus: seq<Recipe>, coarse: CoarseFilter, r: nat) {
    exists c :: c in Combinations(terms, r) && CoarseEmpty(corpus, coarse, c)
  }

  /** None of the passes that produced `blocks` failed. */
  ghost predicate PassesClean(terms: seq<string>, corpus: seq<Recipe>, coarse: CoarseFilter, blocks: seq<seq<Row>>) {
    |blocks| <= |terms| &&
    forall r: nat :: |terms| - |blocks| < r <= |terms| ==> !PassFails(terms, corpus, coarse, r)
  }

  /** The passes that produced `blocks` ran without failing and without reaching `minRecipes`, and
      the pass after them fails. */
  ghost predicate FailsAfter(terms: seq<string>, corpus: seq<Recipe>, coarse: CoarseFilter, minRecipes: int,
                             blocks: seq<seq<Row>>) {
    |blocks| < |terms| && BlocksFollowPasses(terms, corpus, coarse, blocks) &&
    PassesClean(terms, corpus, coarse, blocks) &&
    (forall k :: 1 <= k <= |blocks| ==> Cumulative(blocks, k) < minRecipes) &&
    PassFails(terms, corpus, coarse, |terms| - |blocks|)
  }

  /** The passes a call runs: at least the first; each further one only while the accumulated
      count is below `minRecipes`; and they stop early only once that count is reached. */
  ghost predicate PassesFor(terms: seq<string>, corpus: seq<Recipe>, coarse: CoarseFilter, minRecipes: int,
                            blocks: seq<seq<Row>>) {
    1 <= |blocks| && BlocksFollowPasses(terms, corpus, coarse, blocks) &&
    (forall k :: 1 <= k < |blocks| ==> Cumulative(blocks, k) < minRecipes) &&
    (|blocks| < |terms| ==> |Flatten(blocks)| >= minRecipes)
  }

  /** `results.drop_duplicates(subset=["title"]).head(min_recipes)`. */
  function Finish(accumulated: seq<Row>, minRecipes: int): (out: seq<Row>)
    ensures minRecipes >= 0 ==> |out| <= minRecipes
    ensures |out| <= |accumulated|
    ensures forall i, j :: 0 <= i < j < |out| ==> out[i].recipe.title != out[j].recipe.title
  {
    Head(DropDuplicatesByTitle(accumulated), minRecipes)
  }

  lemma FlattenSnoc(blocks: seq<seq<Row>>, b: seq<Row>)
    ensures Flatten(blocks + [b]) == Flatten(blocks) + b
    ensures forall k :: 0 <= k <= |blocks| ==> Cumulative(blocks + [b], k) == Cumulative(blocks, k)
  {
    assert (blocks + [b])[..|blocks|] == blocks;
    forall k | 0 <= k <= |blocks|
      ensures Cumulative(blocks + [b], k) == Cumulative(blocks, k)
    {
      assert (blocks + [b])[..k] == blocks[..k];
    }
  }

  lemma BlocksFollowPassesSnoc(terms: seq<string>, corpus: seq<Recipe>, coarse: CoarseFilter,
                               blocks: seq<seq<Row>>, b: seq<Row>)
    requires BlocksFollowPasses(terms, corpus, coarse, blocks) && |blocks| < |terms|
    requires IsPassBlock(b, PassAdmissions(terms, corpus, coarse, |terms| - |blocks|))
    ensures BlocksFollowPasses(terms, corpus, coarse, blocks + [b])
  {
    forall k | 0 <= k < |blocks| + 1
      ensures IsPassBlock((blocks + [b])[k], PassAdmissions(terms, corpus, coarse, |terms| - k))
    {
      if k < |blocks| {
        assert (blocks + [b])[k] == blocks[k];
        assert IsPassBlock(blocks[k], PassAdmissions(terms, corpus, coarse, |terms| - k));
      } else {
        assert (blocks + [b])[k] == b;
      }
    }
  }

  /** Appending the block of the next pass keeps the blocks following the passes, and while the
      new total stays below `minRecipes` so do all earlier totals. */
  lemma AppendPass(terms: seq<string>, corpus: seq<Recipe>, coarse: CoarseFilter, minRecipes: int,
                   blocks: seq<seq<Row>>, b: seq<Row>)
    requires BlocksFollowPasses(terms, corpus, coarse, blocks) && |blocks| < |terms|
    requires IsPassBlock(b, PassAdmissions(terms, corpus, coarse, |terms| - |blocks|))
    requires forall k :: 1 <= k <= |blocks| ==> Cumulative(blocks, k) < minRecipes
    ensures Flatten(blocks + [b]) == Flatten(blocks) + b
    ensures BlocksFollowPasses(terms, corpus, coarse, blocks + [b])
    ensures forall k :: 1 <= k < |blocks| + 1 ==> Cumulative(blocks + [b], k) < minRecipes
    ensures |Flatten(blocks + [b])| < minRecipes ==>
              forall k :: 1 <= k <= |blocks| + 1 ==> Cumulative(blocks + [b], k) < minRecipes
  {
    FlattenSnoc(blocks, b);
    BlocksFollowPassesSnoc(terms, corpus, coarse, blocks, b);
    assert (blocks + [b])[..|blocks| + 1] == blocks + [b];
  }

  /** A pass that did not fail keeps the passes clean. */
  lemma PassesCleanSnoc(terms: seq<string>, corpus: seq<Recipe>, coarse: CoarseFilter,
                        blocks: seq<seq<Row>>, b: seq<Row>)
    requires PassesClean(terms, corpus, coarse, blocks) && |blocks| < |terms|
    requires !PassFails(terms, corpus, coarse, |terms| - |blocks|)
    ensures PassesClean(terms, corpus, coarse, blocks + [b])
  {
  }

  /** One pass of size r: the admissions of each r-combination appended in turn, then sorted. The
      pass fails at the first combination whose coarse set is empty. */
  method SearchPass(terms: seq<string>, corpus: seq<Recipe>, coarse: CoarseFilter, r: nat)
    returns (pass: Result<seq<Row>>)
    ensures pass.Err? <==> PassFails(terms, corpus, coarse, r)
    ensures pass.Err? ==> pass.error == MissingColumn("NERList")
    ensures pass.Ok? ==> IsPassBlock(pass.value, PassAdmissions(terms, corpus, coarse, r))
  {
    var combinations := Combinations(terms, r);
    var tempResults := [];
    var i := 0;
    while i < |combinations|
      invariant 0 <= i <= |combinations|
      invariant tempResults == ConcatAdmissions(corpus, coarse, combinations[..i])
      invariant forall k :: 0 <= k < i ==> !CoarseEmpty(corpus, coarse, combinations[k])
    {
      if CoarseEmpty(corpus, coarse, combinations[i]) {
        assert combinations[i] in combinations;
        pass := Err(MissingColumn("NERList"));
        return;
      }
      assert combinations[..i + 1][..i] == combinations[..i];
      tempResults := tempResults + Admissions(corpus, coarse, combinations[i]);
      i := i + 1;
    }
    assert combinations[..i] == combinations;
    assert forall c :: c in combinations ==> !CoarseEmpty(corpus, coarse, c);
    tempResults := SortByIngredientCount(tempResults);
    pass := Ok(tempResults);
  }

  /** `find_recipe_tfidf`. An empty list of terms leaves the accumulated table without columns,
      and selecting the four returned columns from it then fails. A pass that meets a combination with an empty coarse
      set fails while reading `NERList`. Otherwise the result is the deduplicated, truncated
      concatenation of the blocks of the passes that ran. */
  method FindRecipeTfidf(terms: seq<string>, corpus: seq<Recipe>, coarse: CoarseFilter, minRecipes: int)
    returns (result: Result<seq<Match>>, ghost blocks: seq<seq<Row>>)
    ensures result.Ok? || result == Err(MissingColumn("title")) || result == Err(MissingColumn("NERList"))
    ensures result == Err(MissingColumn("title")) <==> terms == []
    ensures result == Err(MissingColumn("NERList")) ==> FailsAfter(terms, corpus, coarse, minRecipes, blocks)
    ensures result.Ok? ==> PassesFor(terms, corpus, coarse, minRecipes, blocks) &&
                           PassesClean(terms, corpus, coarse, blocks) &&
                           result.value == Project(Finish(Flatten(blocks), minRecipes))
  {
    var results: seq<Row> := [];
    var resultsHasColumns := false;
    blocks := [];
    var r := |terms|;
    while r > 0
      invariant 0 <= r <= |terms|
      invariant |blocks| == |terms| - r
      invariant results == Flatten(blocks)
      invariant resultsHasColumns <==> blocks != []
      invariant BlocksFollowPasses(terms, corpus, coarse, blocks)
      invariant PassesClean(terms, corpus, coarse, blocks)
      invariant forall k :: 1 <= k <= |blocks| ==> Cumulative(blocks, k) < minRecipes
      decreases r
    {
      var pass := SearchPass(terms, corpus, coarse, r);
      if pass.Err? {
        assert pass.error == MissingColumn("NERList");
        assert |"NERList"| != |"title"|;
        result := Err(pass.error);
        assert FailsAfter(terms, corpus, coarse, minRecipes, blocks);
        return;
      }
      var tempResults := pass.value;
      AppendPass(terms, corpus, coarse, minRecipes, blocks, tempResults);
      PassesCleanSnoc(terms, corpus, coarse, blocks, tempResults);
      results := results + tempResults;
      resultsHasColumns := true;
      blocks := blocks + [tempResults];
      if |results| >= minRecipes {
        break;
      }
      r := r - 1;
    }
    if !resultsHasColumns {
      result := Err(MissingColumn("title"));
      return;
    }
    result := Ok(Project(Finish(results, minRecipes)));
  }

  /** A row of pass r was admitted by one of the r-combinations of the terms. */
  lemma PassRowAdmitted(terms: seq<string>, corpus: seq<Recipe>, coarse: CoarseFilter, r: nat, x: Row)
    returns (c: seq<string>)
    requires x in PassAdmissions(terms, corpus, coarse, r)
    ensures c in Combinations(terms, r) && |c| == r
    ensures AdmittedRow(corpus, coarse, c, x)
  {
    var combinations := Combinations(terms, r);
    var rows := PassAdmissions(terms, corpus, coarse, r);
    var j :| 0 <= j < |rows| && rows[j] == x;
    var k := ConcatAdmissionsSound(corpus, coarse, combinations, j);
    c := combinations[k];
  }

  /** Block k holds only rows admitted by a combination of size |terms| - k. */
  lemma BlockRowAdmitted(terms: seq<string>, corpus: seq<Recipe>, coarse: CoarseFilter,
                         blocks: seq<seq<Row>>, k: nat, x: Row) returns (c: seq<string>)
    requires BlocksFollowPasses(terms, corpus, coarse, blocks)
    requires k < |blocks| && x in blocks[k]
    ensures c in Combinations(terms, |terms| - k) && |c| == |terms| - k
    ensures AdmittedRow(corpus, coarse, c, x)
  {
    assert x in multiset(blocks[k]);
    c := PassRowAdmitted(terms, corpus, coarse, |terms| - k, x);
  }

  /** Accumulated row j comes from some block. */
  lemma {:induction false} FlattenMember(blocks: seq<seq<Row>>, j: nat) returns (k: nat)
    requires j < |Flatten(blocks)|
    ensures k < |blocks| && Flatten(blocks)[j] in blocks[k]
    decreases |blocks|
  {
    var front := blocks[..|blocks| - 1];
    if j < |Flatten(front)| {
      k := FlattenMember(front, j);
      assert front[k] == blocks[k];
    } else {
      k := |blocks| - 1;
      assert Flatten(blocks)[j] == blocks[k][j - |Flatten(front)|];
    }
  }

  /** Every accumulated row is a corpus row, unchanged, that passed the coarse filter and fully
      matched a combination of the terms whose size is its matched count. */
  lemma AccumulatedRowAdmitted(terms: seq<string>, corpus: seq<Recipe>, coarse: CoarseFilter,
                               blocks: seq<seq<Row>>, j: nat) returns (c: seq<string>)
    requires BlocksFollowPasses(terms, corpus, coarse, blocks)
    requires j < |Flatten(blocks)|
    ensures 1 <= |c| <= |terms|
    ensures c in Combinations(terms, Flatten(blocks)[j].matchedCount)
    ensures AdmittedRow(corpus, coarse, c, Flatten(blocks)[j])
  {
    var x := Flatten(blocks)[j];
    var k := FlattenMember(blocks, j);
    c := BlockRowAdmitted(terms, corpus, coarse, blocks, k, x);
    assert |c| == x.matchedCount == |terms| - k >= 1;
  }

  /** The blocks of the first n passes follow the passes too. */
  lemma BlocksFollowPassesPrefix(terms: seq<string>, corpus: seq<Recipe>, coarse: CoarseFilter,
                                 blocks: seq<seq<Row>>, n: nat)
    requires BlocksFollowPasses(terms, corpus, coarse, blocks) && n <= |blocks|
    ensures BlocksFollowPasses(terms, corpus, coarse, blocks[..n])
  {
    forall k | 0 <= k < n
      ensures IsPassBlock(blocks[..n][k], PassAdmissions(terms, corpus, coarse, |terms| - k))
    {
      assert blocks[..n][k] == blocks[k];
      assert IsPassBlock(blocks[k], PassAdmissions(terms, corpus, coarse, |terms| - k));
    }
  }

  /** Block k is sorted by ingredient count and all its rows have matched count |terms| - k. */
  lemma BlockShape(terms: seq<string>, corpus: seq<Recipe>, coarse: CoarseFilter, blocks: seq<seq<Row>>, k: nat)
    requires BlocksFollowPasses(terms, corpus, coarse, blocks) && k < |blocks|
    ensures SortedByIngredientCount(blocks[k])
    ensures forall m :: 0 <= m < |blocks[k]| ==> blocks[k][m].matchedCount == |terms| - k
  {
    forall m | 0 <= m < |blocks[k]|
      ensures blocks[k][m].matchedCount == |terms| - k
    {
      var c := BlockRowAdmitted(terms, corpus, coarse, blocks, k, blocks[k][m]);
    }
  }

  /** Appending a block sorted by ingredient count, all of one matched count m, to ranked rows that
      all have a larger matched count keeps the rows ranked. */
  lemma RankedAppend(f: seq<Row>, last: seq<Row>, m: int)
    requires Ranked(f) && SortedByIngredientCount(last)
    requires forall j :: 0 <= j < |f| ==> f[j].matchedCount > m
    requires forall j :: 0 <= j < |last| ==> last[j].matchedCount == m
    ensures Ranked(f + last)
    ensures forall j :: 0 <= j < |f + last| ==> (f + last)[j].matchedCount >= m
  {
    var all := f + last;
    forall i, j | 0 <= i < j < |all|
      ensures RanksBefore(all[i], all[j])
    {
      if j < |f| {
        assert all[i] == f[i] && all[j] == f[j];
      } else if i < |f| {
        assert all[i] == f[i] && all[j] == last[j - |f|];
      } else {
        assert all[i] == last[i - |f|] && all[j] == last[j - |f|];
      }
    }
    forall j | 0 <= j < |all|
      ensures all[j].matchedCount >= m
    {
      if j < |f| {
        assert all[j] == f[j];
      } else {
        assert all[j] == last[j - |f|];
      }
    }
  }

  /** The accumulated rows are ranked: larger combination sizes first, and within one size by
      ascending ingredient count. */
  lemma {:induction false} AccumulatedRanked(terms: seq<string>, corpus: seq<Recipe>, coarse: CoarseFilter,
                                             blocks: seq<seq<Row>>)
    requires BlocksFollowPasses(terms, corpus, coarse, blocks)
    ensures Ranked(Flatten(blocks))
    ensures forall j :: 0 <= j < |Flatten(blocks)| ==> Flatten(blocks)[j].matchedCount > |terms| - |blocks|
    decreases |blocks|
  {
    if blocks != [] {
      var n := |blocks| - 1;
      BlocksFollowPassesPrefix(terms, corpus, coarse, blocks, n);
      AccumulatedRanked(terms, corpus, coarse, blocks[..n]);
      BlockShape(terms, corpus, coarse, blocks, n);
      RankedAppend(Flatten(blocks[..n]), blocks[n], |terms| - n);
    }
  }

  /** The returned rows keep the ranking of the accumulated rows. */
  lemma ResultRanked(terms: seq<string>, corpus: seq<Recipe>, coarse: CoarseFilter,
                     blocks: seq<seq<Row>>, minRecipes: int)
    requires BlocksFollowPasses(terms, corpus, coarse, blocks)
    ensures Ranked(Finish(Flatten(blocks), minRecipes))
  {
    var acc := Flatten(blocks);
    AccumulatedRanked(terms, corpus, coarse, blocks);
    DropDuplicatesKeepsOrder(acc, {});
    SubseqRanked(DropDuplicatesByTitle(acc), acc);
  }

  /** Returned row i is the first accumulated row with its title, so it carries the largest
      matched count of any accumulated row with that title; and it is a corpus row, passed through
      unchanged, that fully matched a combination of that many of the terms. */
  lemma ResultRowProvenance(terms: seq<string>, corpus: seq<Recipe>, coarse: CoarseFilter,
                            blocks: seq<seq<Row>>, minRecipes: int, i: nat) returns (k: nat, c: seq<string>)
    requires BlocksFollowPasses(terms, corpus, coarse, blocks)
    requires i < |Finish(Flatten(blocks), minRecipes)|
    ensures FirstWithTitle(Flatten(blocks), k) && Flatten(blocks)[k] == Finish(Flatten(blocks), minRecipes)[i]
    ensures forall k' ::
              (0 <= k' < |Flatten(blocks)| && Flatten(blocks)[k'].recipe.title == Flatten(blocks)[k].recipe.title) ==>
              Flatten(blocks)[k'].matchedCount <= Flatten(blocks)[k].matchedCount
    ensures 1 <= |c| <= |terms| && c in Combinations(terms, |c|)
    ensures var x := Finish(Flatten(blocks), minRecipes)[i];
            x.index < |corpus| && coarse(c, x.index) && FullMatch(corpus[x.index].ner, c) &&
            Project(Finish(Flatten(blocks), minRecipes))[i] ==
            Match(corpus[x.index].title, corpus[x.index].ingredients, corpus[x.index].directions, |c|)
  {
    var acc := Flatten(blocks);
    var out := Finish(acc, minRecipes);
    assert out[i] == DropDuplicatesByTitle(acc)[i];
    k := DropDuplicatesKeepsFirst(acc, {}, i);
    AccumulatedRanked(terms, corpus, coarse, blocks);
    forall k' | 0 <= k' < |acc| && acc[k'].recipe.title == acc[k].recipe.title
      ensures acc[k'].matchedCount <= acc[k].matchedCount
    {
      if k' != k {
        assert RanksBefore(acc[k], acc[k']);
      }
    }
    c := AccumulatedRowAdmitted(terms, corpus, coarse, blocks, k);
  }

  /** Truncation is the only way a title of the accumulated rows can be missing from the result. */
  lemma ResultKeepsEveryTitle(terms: seq<string>, corpus: seq<Recipe>, coarse: CoarseFilter,
                              blocks: seq<seq<Row>>, minRecipes: int, k: nat) returns (i: nat)
    requires k < |Flatten(blocks)|
    requires |Finish(Flatten(blocks), minRecipes)| < minRecipes
    ensures i < |Finish(Flatten(blocks), minRecipes)|
    ensures Finish(Flatten(blocks), minRecipes)[i].recipe.title == Flatten(blocks)[k].recipe.title
  {
    var acc := Flatten(blocks);
    i := DropDuplicatesKeepsEveryTitle(acc, {}, k);
  }

  /** Rows accumulated after the first k passes, as a function of the passes alone. */
  function PassTotal(terms: seq<string>, corpus: seq<Recipe>, coarse: CoarseFilter, k: nat): nat
    requires k <= |terms|
  {
    if k == 0 then 0
    else PassTotal(terms, corpus, coarse, k - 1) + |PassAdmissions(terms, corpus, coarse, |terms| - (k - 1))|
  }

  /** However ties are ordered, the accumulated count after k passes is the passes' total. */
  lemma {:induction false} CumulativeIsPassTotal(terms: seq<string>, corpus: seq<Recipe>, coarse: CoarseFilter,
                                                 blocks: seq<seq<Row>>, k: nat)
    requires BlocksFollowPasses(terms, corpus, coarse, blocks)
    requires k <= |blocks|
    ensures Cumulative(blocks, k) == PassTotal(terms, corpus, coarse, k)
  {
    if k > 0 {
      CumulativeIsPassTotal(terms, corpus, coarse, blocks, k - 1);
      assert blocks[..k][..k - 1] == blocks[..k - 1];
      assert |blocks[k - 1]| == |multiset(blocks[k - 1])|;
    }
  }

  /** The tie order of the sort cannot change which passes run: two runs that differ only in
      that order run the same number of passes, and each pass appends the same rows. */
  lemma PassesIndependentOfTieOrder(terms: seq<string>, corpus: seq<Recipe>, coarse: CoarseFilter,
                                    minRecipes: int, blocks: seq<seq<Row>>, other: seq<seq<Row>>)
    requires PassesFor(terms, corpus, coarse, minRecipes, blocks)
    requires PassesFor(terms, corpus, coarse, minRecipes, other)
    ensures |blocks| == |other|
    ensures forall k :: 0 <= k < |blocks| ==> multiset(blocks[k]) == multiset(other[k])
  {
    if |blocks| < |other| {
      assert blocks[..|blocks|] == blocks;
      CumulativeIsPassTotal(terms, corpus, coarse, blocks, |blocks|);
      CumulativeIsPassTotal(terms, corpus, coarse, other, |blocks|);
    } else if |other| < |blocks| {
      assert other[..|other|] == other;
      CumulativeIsPassTotal(terms, corpus, coarse, blocks, |other|);
      CumulativeIsPassTotal(terms, corpus, coarse, other, |other|);
    }
  }

  /** Whether a call fails on an empty coarse set does not depend on the tie order either: if
      one order of the ties gives a run that succeeds, no order gives a run that fails. */
  lemma SuccessExcludesFailure(terms: seq<string>, corpus: seq<Recipe>, coarse: CoarseFilter,
                               minRecipes: int, blocks: seq<seq<Row>>, other: seq<seq<Row>>)
    requires PassesFor(terms, corpus, coarse, minRecipes, blocks)
    requires PassesClean(terms, corpus, coarse, blocks)
    ensures !FailsAfter(terms, corpus, coarse, minRecipes, other)
  {
    if |other| < |blocks| {
      assert !PassFails(terms, corpus, coarse, |terms| - |other|);
    } else if |other| < |terms| {
      assert blocks[..|blocks|] == blocks;
      CumulativeIsPassTotal(terms, corpus, coarse, blocks, |blocks|);
      if BlocksFollowPasses(terms, corpus, coarse, other) {
        CumulativeIsPassTotal(terms, corpus, coarse, other, |blocks|);
      }
    }
  }
}
