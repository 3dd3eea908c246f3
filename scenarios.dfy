/**
 * Worked cases of the search on concrete inputs: the time filter without
 * terms, and a repeated term.
 */
module Scenarios {
  import opened Wrappers
  import opened Text
  import opened RecipeSearchService
  import opened Ranking

  /** With a max time of 25 and no terms, recipes of 10, 25, 30 and 40 minutes give the first two, in order. */
  lemma TimeShortcutExample()
    ensures var recipes := [Recipe(None, 10), Recipe(None, 25), Recipe(None, 30), Recipe(None, 40)];
            First(TimeFilter(recipes, Some(25)), 5) == [Recipe(None, 10), Recipe(None, 25)]
  {
  }

  /**
   * A repeated term counts twice against a one-ingredient recipe: the
   * recipe efficiency passed to the formula is 2, above 1.
   */
  lemma RepeatedTermExample(formula: ScoreFormula)
    ensures Score(Some(["Eggs"]), ["eggs", "eggs"], formula) == formula(2.0, 1.0)
  {
    assert Lower("Eggs") == "eggs";
    assert LowerAll(["Eggs"]) == ["eggs"];
    assert Related(["eggs"][0], "eggs");
    assert TermMatches(["eggs"], "eggs");
    assert MatchCount(["eggs", "eggs"], ["eggs"]) == 2 by {
      assert ["eggs", "eggs"][..1] == ["eggs"];
    }
  }
}
