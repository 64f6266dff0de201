/** Concrete queries against small corpora, worked through the model. */
module Scenarios {
  import opened Text
  import opened Recipes
  import opened Combinatorics
  import opened Frames
  import opened Matching
  import opened RecipeSearch

  lemma PrependOne<T>(x: T, c: seq<T>)
    ensures PrependAll(x, [c]) == [[x] + c]
  {
    assert PrependAll(x, [c])[0] == [x] + c;
  }

  /** The selections of a two-term query: the pair, then each term on its own. */
  lemma TwoTermCombinations<T>(a: T, b: T)
    ensures Combinations([a, b], 2) == [[a, b]]
    ensures Combinations([a, b], 1) == [[a], [b]]
  {
    var none: seq<T> := [];
    assert [a, b][1..] == [b] && [b][1..] == none;
    assert Combinations(none, 0) == [[]] && Combinations(none, 1) == [];
    PrependOne(b, none);
    assert [b] + none == [b];
    assert Combinations([b], 1) == [[b]];
    assert Combinations([b], 0) == [[]] && Combinations([b], 2) == [];
    PrependOne(a, [b]);
    PrependOne(a, none);
    assert [a] + [b] == [a, b] && [b] + none == [b] && [a] + none == [a];
  }

  /** In a one-recipe corpus, an admitted combination yields exactly one row. */
  lemma SingleAdmission(x: Recipe, coarse: CoarseFilter, c: seq<string>)
    requires Admits([x], coarse, c, 0)
    ensures Admissions([x], coarse, c) == [Row(0, x, |c|, |x.ner|)]
  {
    assert AdmissionsFrom([x], coarse, c, 1) == [];
    assert AdmissionRow([x], c, 0) == Row(0, x, |c|, |x.ner|);
  }

  lemma ConcatOne(corpus: seq<Recipe>, coarse: CoarseFilter, c: seq<string>)
    ensures ConcatAdmissions(corpus, coarse, [c]) == Admissions(corpus, coarse, c)
  {
    var cs := [c];
    assert cs[..0] == [];
  }

  lemma ConcatTwo(corpus: seq<Recipe>, coarse: CoarseFilter, c: seq<string>, d: seq<string>)
    ensures ConcatAdmissions(corpus, coarse, [c, d]) == Admissions(corpus, coarse, c) + Admissions(corpus, coarse, d)
  {
    var cs := [c, d];
    assert cs[..1] == [c] && cs[1] == d;
    ConcatOne(corpus, coarse, c);
  }

  lemma SingletonBlock(b: seq<Row>, x: Row)
    requires multiset(b) == multiset{x}
    ensures b == [x]
  {
    assert |b| == 1;
    assert b[0] in multiset(b);
  }

  lemma PairBlock(b: seq<Row>, x: Row)
    requires multiset(b) == multiset{x, x}
    ensures b == [x, x]
  {
    assert |b| == 2;
    assert b[0] in multiset(b) && b[1] in multiset(b);
  }

  lemma FlattenTwo(a: seq<Row>, b: seq<Row>)
    ensures Flatten([a, b]) == a + b
  {
    FlattenSnoc([], a);
    FlattenSnoc([a], b);
    assert [] + [a] == [a] && [a] + [b] == [a, b];
  }

  /** A one-recipe corpus in which both terms of the query match and pass the coarse filter. */
  predicate BothTermsMatch(a: string, b: string, x: Recipe, coarse: CoarseFilter) {
    coarse([a, b], 0) && coarse([a], 0) && coarse([b], 0) &&
    TermMatches(a, x.ner) && TermMatches(b, x.ner)
  }

  /** The pass of size 2 admits the recipe once. */
  lemma PairPass(a: string, b: string, x: Recipe, coarse: CoarseFilter)
    requires BothTermsMatch(a, b, x, coarse)
    ensures PassAdmissions([a, b], [x], coarse, 2) == [Row(0, x, 2, |x.ner|)]
  {
    TwoTermCombinations(a, b);
    assert FullMatch(x.ner, [a, b]);
    SingleAdmission(x, coarse, [a, b]);
    ConcatOne([x], coarse, [a, b]);
  }

  /** The pass of size 1 admits the recipe once per term. */
  lemma SingleTermPass(a: string, b: string, x: Recipe, coarse: CoarseFilter)
    requires BothTermsMatch(a, b, x, coarse)
    ensures PassAdmissions([a, b], [x], coarse, 1) == [Row(0, x, 1, |x.ner|), Row(0, x, 1, |x.ner|)]
  {
    TwoTermCombinations(a, b);
    assert FullMatch(x.ner, [a]) && FullMatch(x.ner, [b]);
    SingleAdmission(x, coarse, [a]);
    SingleAdmission(x, coarse, [b]);
    ConcatTwo([x], coarse, [a], [b]);
  }

  /** A block of a pass whose admissions are known is fixed up to order. */
  lemma KnownBlock(terms: seq<string>, corpus: seq<Recipe>, coarse: CoarseFilter, blocks: seq<seq<Row>>,
                   k: nat, admitted: seq<Row>)
    requires BlocksFollowPasses(terms, corpus, coarse, blocks) && k < |blocks|
    requires PassAdmissions(terms, corpus, coarse, |terms| - k) == admitted
    ensures multiset(blocks[k]) == multiset(admitted)
  {
  }

  /** A first block of one row falls short of a target above one row, so the second pass runs. */
  lemma SecondPassRuns(terms: seq<string>, corpus: seq<Recipe>, coarse: CoarseFilter, minRecipes: int,
                       blocks: seq<seq<Row>>)
    requires |terms| == 2 && minRecipes > 1 && |blocks| >= 1 && |blocks[0]| == 1
    requires PassesFor(terms, corpus, coarse, minRecipes, blocks)
    ensures |blocks| == 2
  {
    FlattenSnoc([], blocks[0]);
    assert [] + [blocks[0]] == blocks[..1];
    if |blocks| == 1 {
      assert false;
    }
  }

  /** With a two-term query whose two passes both ran, blocks of a single row and of two equal
      rows are fixed. */
  lemma TwoBlocks(terms: seq<string>, corpus: seq<Recipe>, coarse: CoarseFilter,
                  blocks: seq<seq<Row>>, full: Row, part: Row)
    requires |terms| == 2 && |blocks| == 2
    requires PassAdmissions(terms, corpus, coarse, 2) == [full]
    requires PassAdmissions(terms, corpus, coarse, 1) == [part, part]
    requires BlocksFollowPasses(terms, corpus, coarse, blocks)
    ensures blocks == [[full], [part, part]]
  {
    KnownBlock(terms, corpus, coarse, blocks, 0, [full]);
    SingletonBlock(blocks[0], full);
    KnownBlock(terms, corpus, coarse, blocks, 1, [part, part]);
    PairBlock(blocks[1], part);
    TwoElements(blocks, [full], [part, part]);
  }

  lemma TwoElements<T>(s: seq<T>, a: T, b: T)
    requires |s| == 2 && s[0] == a && s[1] == b
    ensures s == [a, b]
  {
  }

  /** Both passes run, and their blocks are the pair's one row and the two single-term rows. */
  lemma TwoTermBlocks(a: string, b: string, x: Recipe, coarse: CoarseFilter, minRecipes: int,
                      blocks: seq<seq<Row>>)
    requires BothTermsMatch(a, b, x, coarse) && minRecipes > 1
    requires PassesFor([a, b], [x], coarse, minRecipes, blocks)
    ensures blocks == [[Row(0, x, 2, |x.ner|)], [Row(0, x, 1, |x.ner|), Row(0, x, 1, |x.ner|)]]
  {
    var full := Row(0, x, 2, |x.ner|);
    PairPass(a, b, x, coarse);
    SingleTermPass(a, b, x, coarse);
    KnownBlock([a, b], [x], coarse, blocks, 0, [full]);
    SingletonBlock(blocks[0], full);
    SecondPassRuns([a, b], [x], coarse, minRecipes, blocks);
    TwoBlocks([a, b], [x], coarse, blocks, full, Row(0, x, 1, |x.ner|));
  }

  lemma RepeatedTitleDropped(x: Row, y: Row)
    requires x.recipe.title == y.recipe.title
    ensures DropDuplicatesByTitle([x, y, y]) == [x]
  {
    var t := x.recipe.title;
    assert [x, y, y][1..] == [y, y] && [y, y][1..] == [y] && [y][1..] == [];
    assert DropDuplicatesFrom([y], {t}) == [];
    assert DropDuplicatesFrom([y, y], {t}) == [];
    assert {} + {t} == {t};
  }

  /** The later pass finds the recipe again, once per term, but dropping duplicates keeps the
      first row, so the recipe comes back once with the matched count of the full query. */
  lemma TwoTermResult(a: string, b: string, x: Recipe, coarse: CoarseFilter, minRecipes: int,
                      blocks: seq<seq<Row>>)
    requires BothTermsMatch(a, b, x, coarse) && minRecipes > 1
    requires PassesFor([a, b], [x], coarse, minRecipes, blocks)
    ensures Project(Finish(Flatten(blocks), minRecipes)) == [Match(x.title, x.ingredients, x.directions, 2)]
  {
    var full := Row(0, x, 2, |x.ner|);
    var part := Row(0, x, 1, |x.ner|);
    TwoTermBlocks(a, b, x, coarse, minRecipes, blocks);
    RepeatedTitleReturnedOnce(full, part, minRecipes, blocks);
  }

  /** Blocks of one row and then two rows of the same title return only the first row. */
  lemma RepeatedTitleReturnedOnce(x: Row, y: Row, minRecipes: int, blocks: seq<seq<Row>>)
    requires blocks == [[x], [y, y]]
    requires x.recipe.title == y.recipe.title && minRecipes > 0
    ensures Project(Finish(Flatten(blocks), minRecipes)) ==
            [Match(x.recipe.title, x.recipe.ingredients, x.recipe.directions, x.matchedCount)]
  {
    FlattenTwo([x], [y, y]);
    assert Flatten(blocks) == [x, y, y];
    RepeatedTitleDropped(x, y);
    assert Finish([x, y, y], minRecipes) == [x];
  }

  const ChickenRice := Recipe("Chicken and rice", "[\"1 chicken\", \"1 cup rice\"]", "[\"Cook.\"]",
                              ["chicken", "rice", "salt"])

  lemma LowerOfLowerCase(s: string)
    requires forall i :: 0 <= i < |s| ==> !IsAsciiUpper(s[i])
    ensures Lower(s) == s
  {
  }

  /** A term listed verbatim among the ingredients, with no upper-case letter, matches. */
  lemma ListedTermMatches(term: string, ner: seq<string>, k: nat)
    requires k < |ner| && ner[k] == term
    requires forall i :: 0 <= i < |term| ==> !IsAsciiUpper(term[i])
    ensures TermMatches(term, ner)
  {
    LowerOfLowerCase(term);
    assert IsPrefix(term, term);
    assert Contains(Lower(ner[k]), Lower(term));
  }

  lemma ChickenRiceListsBoth()
    ensures TermMatches("chicken", ChickenRice.ner) && TermMatches("rice", ChickenRice.ner)
  {
    ListedTermMatches("chicken", ChickenRice.ner, 0);
    ListedTermMatches("rice", ChickenRice.ner, 1);
  }

  /** One recipe with ingredients chicken, rice and salt; query ["chicken", "rice"], target 10:
      the recipe comes back once, with matched count 2 (the full match of both terms). */
  lemma ChickenAndRice(coarse: CoarseFilter, blocks: seq<seq<Row>>)
    requires coarse(["chicken", "rice"], 0) && coarse(["chicken"], 0) && coarse(["rice"], 0)
    requires PassesFor(["chicken", "rice"], [ChickenRice], coarse, 10, blocks)
    ensures Project(Finish(Flatten(blocks), 10)) == [Match(ChickenRice.title, ChickenRice.ingredients, ChickenRice.directions, 2)]
  {
    ChickenRiceListsBoth();
    assert BothTermsMatch("chicken", "rice", ChickenRice, coarse);
    TwoTermResult("chicken", "rice", ChickenRice, coarse, 10, blocks);
  }

  /** Against an empty corpus every coarse set is empty, so any non-empty query fails in its
      first pass, before any block is appended. */
  lemma EmptyCorpusFails(terms: seq<string>, coarse: CoarseFilter, minRecipes: int)
    requires terms != []
    ensures FailsAfter(terms, [], coarse, minRecipes, [])
  {
    BinomialPositive(|terms|, |terms|);
    var c := Combinations(terms, |terms|)[0];
    assert CoarseEmpty([], coarse, c);
  }

  /** A pass in which the coarse filter keeps one corpus row for every combination cannot fail. */
  lemma PassKeepsRow(terms: seq<string>, corpus: seq<Recipe>, coarse: CoarseFilter, r: nat, i: nat)
    requires i < |corpus|
    requires forall c :: c in Combinations(terms, r) ==> coarse(c, i)
    ensures !PassFails(terms, corpus, coarse, r)
  {
  }

  /** The coarse filter keeps the recipe for every combination of the query, so no pass fails. */
  lemma ChickenRiceNeverFails(coarse: CoarseFilter, blocks: seq<seq<Row>>)
    requires coarse(["chicken", "rice"], 0) && coarse(["chicken"], 0) && coarse(["rice"], 0)
    ensures !FailsAfter(["chicken", "rice"], [ChickenRice], coarse, 10, blocks)
  {
    var terms := ["chicken", "rice"];
    TwoTermCombinations("chicken", "rice");
    PassKeepsRow(terms, [ChickenRice], coarse, 2, 0);
    PassKeepsRow(terms, [ChickenRice], coarse, 1, 0);
  }

  /** The engine itself on the chicken and rice query: it succeeds and returns the recipe once. */
  method ChickenAndRiceQuery(coarse: CoarseFilter) returns (result: Result<seq<Match>>)
    requires coarse(["chicken", "rice"], 0) && coarse(["chicken"], 0) && coarse(["rice"], 0)
    ensures result == Ok([Match(ChickenRice.title, ChickenRice.ingredients, ChickenRice.directions, 2)])
  {
    ghost var blocks;
    result, blocks := FindRecipeTfidf(["chicken", "rice"], [ChickenRice], coarse, 10);
    ChickenRiceNeverFails(coarse, blocks);
    ChickenAndRice(coarse, blocks);
  }

  /** The engine itself on an empty query fails on the missing `title` column. */
  method EmptyQuery(corpus: seq<Recipe>, coarse: CoarseFilter, minRecipes: int) returns (result: Result<seq<Match>>)
    ensures result == Err(MissingColumn("title"))
  {
    ghost var blocks;
    result, blocks := FindRecipeTfidf([], corpus, coarse, minRecipes);
  }

  /** The engine itself on any non-empty query against an empty corpus fails on the missing
      `NERList` column. */
  method EmptyCorpusQuery(terms: seq<string>, coarse: CoarseFilter, minRecipes: int)
    returns (result: Result<seq<Match>>)
    requires terms != []
    ensures result == Err(MissingColumn("NERList"))
  {
    ghost var blocks;
    result, blocks := FindRecipeTfidf(terms, [], coarse, minRecipes);
    EmptyCorpusFails(terms, coarse, minRecipes);
    if result.Ok? {
      SuccessExcludesFailure(terms, [], coarse, minRecipes, blocks, []);
      assert false;
    }
  }
}
