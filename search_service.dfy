/**
 * RecipeSearchService: parses the user's comma-separated ingredient list,
 * counts for each recipe how many of the user's terms it matches, scores it,
 * filters by total time, and returns the best-scoring recipes.
 *
 * Recipe.all becomes an input sequence in the database's order; the
 * floating-point scoring formula is a parameter of the service.
 */
module RecipeSearchService {
  import opened Wrappers
  import opened Text
  import opened Ranking

  /** The columns of a recipe the search reads: its ingredient list (maybe nil) and total_time. */
  datatype Recipe = Recipe(ingredients: Option<seq<string>>, totalTime: int)

  /**
   * The final step of calculate_match_score, from (recipe_efficiency,
   * user_coverage) to the score. The service's own is
   * ((e ** 0.7) * (c ** 0.3) * 100).round(2) in floating point.
   */
  type ScoreFormula = (real, real) -> real

  // ------------------------------------------------------------------
  // parse_ingredients
  // ------------------------------------------------------------------

  /** What a parsed search term looks like: non-empty, stripped, lower-case, without a comma. */
  predicate IsTerm(t: string) {
    t != [] && IsStripped(t) && IsLowerCase(t) && NoComma(t)
  }

  /** map(&:strip).map(&:downcase). */
  function Normalize(pieces: seq<string>): seq<string> {
    seq(|pieces|, k requires 0 <= k < |pieces| => Lower(Strip(pieces[k])))
  }

  /** reject(&:blank?): the pieces that are not blank, in order. */
  function RejectBlank(pieces: seq<string>): (r: seq<string>)
    ensures |r| <= |pieces|
    ensures forall k :: 0 <= k < |r| ==> r[k] in pieces && !Blank(r[k])
    ensures (forall k :: 0 <= k < |pieces| ==> !Blank(pieces[k])) ==> r == pieces
  {
    if pieces == [] then []
    else (if Blank(pieces[0]) then [] else [pieces[0]]) + RejectBlank(pieces[1..])
  }

  /** Every non-blank piece survives reject(&:blank?). */
  lemma {:induction false} RejectBlankKeeps(pieces: seq<string>, p: string)
    requires p in pieces && !Blank(p)
    ensures p in RejectBlank(pieces)
  {
    if pieces[0] != p {
      RejectBlankKeeps(pieces[1..], p);
    }
  }

  /** reject(&:blank?) keeps the input order: it distributes over concatenation. */
  lemma {:induction false} RejectBlankAppend(a: seq<string>, b: seq<string>)
    ensures RejectBlank(a + b) == RejectBlank(a) + RejectBlank(b)
    decreases |a|
  {
    if a == [] {
      assert a + b == b;
    } else {
      assert (a + b)[1..] == a[1..] + b;
      RejectBlankAppend(a[1..], b);
    }
  }

  /** A blank piece between others is dropped, and the pieces around it keep their order. */
  lemma RejectBlankSkips(a: seq<string>, p: string, b: seq<string>)
    requires Blank(p)
    ensures RejectBlank(a + [p] + b) == RejectBlank(a) + RejectBlank(b)
  {
    var ap := a + [p];
    RejectBlankAppend(ap, b);
    RejectBlankAppend(a, [p]);
    RejectBlankBlank(p);
    assert RejectBlank(ap) == RejectBlank(a) + [];
    assert RejectBlank(a) + [] == RejectBlank(a);
  }

  lemma RejectBlankBlank(p: string)
    requires Blank(p)
    ensures RejectBlank([p]) == []
  {
    assert [p][1..] == [];
  }

  /** A comma-free piece, stripped and lower-cased, is a search term or empty. */
  lemma NormalizedPiece(p: string)
    requires NoComma(p)
    ensures var t := Lower(Strip(p)); IsStripped(t) && IsLowerCase(t) && NoComma(t)
    ensures var t := Lower(Strip(p)); Blank(t) <==> t == []
    ensures var t := Lower(Strip(p)); !Blank(t) ==> IsTerm(t)
  {
    var t := Lower(Strip(p));
    StripLower(p);
    LowerFixedPoint(Strip(p));
    StripNoComma(p);
    LowerKeepsComma(Strip(p));
    BlankStripped(t);
  }

  lemma NormalizedPieces(fields: seq<string>)
    requires forall k :: 0 <= k < |fields| ==> NoComma(fields[k])
    ensures forall k :: 0 <= k < |fields| && !Blank(Normalize(fields)[k]) ==> IsTerm(Normalize(fields)[k])
  {
    forall k | 0 <= k < |fields| ensures !Blank(Normalize(fields)[k]) ==> IsTerm(Normalize(fields)[k]) {
      NormalizedPiece(fields[k]);
    }
  }

  /**
   * parse_ingredients: nil or a blank string gives no terms; otherwise the
   * comma-separated pieces, stripped and lower-cased, without the blank ones.
   */
  function ParseIngredients(ingredientString: Option<string>): (terms: seq<string>)
    ensures forall k :: 0 <= k < |terms| ==> IsTerm(terms[k])
  {
    if ingredientString.None? || Blank(ingredientString.value) then []
    else
      var pieces := Normalize(Split(ingredientString.value));
      NormalizedPieces(Split(ingredientString.value));
      RejectBlank(pieces)
  }

  /**
   * For text that is not blank, the terms are the normalized comma pieces
   * with the blank ones rejected, so every non-blank piece is among them.
   */
  lemma ParseKeepsPieces(s: string)
    requires !Blank(s)
    ensures ParseIngredients(Some(s)) == RejectBlank(Normalize(Split(s)))
    ensures forall k :: 0 <= k < |Split(s)| && !Blank(Normalize(Split(s))[k]) ==>
              Normalize(Split(s))[k] in ParseIngredients(Some(s))
  {
    var pieces := Normalize(Split(s));
    forall k | 0 <= k < |pieces| && !Blank(pieces[k]) ensures pieces[k] in RejectBlank(pieces) {
      RejectBlankKeeps(pieces, pieces[k]);
    }
  }

  /** nil, the empty string and whitespace-only strings parse to no terms. */
  lemma ParseBlank(ingredientString: Option<string>)
    requires ingredientString.None? || Blank(ingredientString.value)
    ensures ParseIngredients(ingredientString) == []
  {
  }

  /** Search terms are unchanged by strip and downcase, and none is blank. */
  lemma TermsNormal(terms: seq<string>)
    requires forall k :: 0 <= k < |terms| ==> IsTerm(terms[k])
    ensures Normalize(terms) == terms
    ensures forall k :: 0 <= k < |terms| ==> !Blank(terms[k])
  {
    forall k | 0 <= k < |terms| ensures Lower(Strip(terms[k])) == terms[k] && !Blank(terms[k]) {
      StripStripped(terms[k]);
      LowerFixedPoint(terms[k]);
      BlankStripped(terms[k]);
    }
  }

  /** Terms joined with "," do not make a blank string. */
  lemma JoinedTermsNotBlank(terms: seq<string>)
    requires forall k :: 0 <= k < |terms| ==> IsTerm(terms[k])
    requires terms != []
    ensures !Blank(Join(terms))
  {
    var s := Join(terms);
    assert IsTerm(terms[0]);
    JoinHead(terms);
    assert s[0] == terms[0][0];
    assert !IsSpace(s[0]);
  }

  /** Terms joined with "," parse back to themselves. */
  lemma ParseJoinedTerms(terms: seq<string>)
    requires forall k :: 0 <= k < |terms| ==> IsTerm(terms[k])
    ensures ParseIngredients(Some(Join(terms))) == terms
  {
    if terms != [] {
      var s := Join(terms);
      assert ParseIngredients(Some(s)) == RejectBlank(Normalize(Split(s))) by {
        JoinedTermsNotBlank(terms);
      }
      assert Split(s) == terms by {
        SplitJoin(terms);
      }
      assert RejectBlank(Normalize(terms)) == terms by {
        TermsNormal(terms);
      }
    }
  }

  /** Parsing is idempotent: re-parsing the parsed terms joined with "," gives the same terms. */
  lemma ParseIdempotent(ingredientString: Option<string>)
    ensures var terms := ParseIngredients(ingredientString);
            ParseIngredients(Some(Join(terms))) == terms
  {
    ParseJoinedTerms(ParseIngredients(ingredientString));
  }

  /** The comma pieces of a text, stripped and lower-cased, do not depend on the text's case. */
  lemma NormalizeIgnoresCase(s: string)
    ensures Normalize(Split(Lower(s))) == Normalize(Split(s))
  {
    var fields := Split(s);
    SplitLower(s);
    forall k | 0 <= k < |fields| ensures Lower(Strip(Lower(fields[k]))) == Lower(Strip(fields[k])) {
      StripLower(fields[k]);
      LowerIdempotent(Strip(fields[k]));
    }
    assert Normalize(LowerAll(fields)) == Normalize(fields);
  }

  /** The case of the user's text does not matter. */
  lemma ParseIgnoresCase(s: string)
    ensures ParseIngredients(Some(Lower(s))) == ParseIngredients(Some(s))
  {
    BlankLower(s);
    NormalizeIgnoresCase(s);
  }

  // ------------------------------------------------------------------
  // calculate_match_score
  // ------------------------------------------------------------------

  /** recipe_ingredient.include?(user_ingredient) || user_ingredient.include?(recipe_ingredient) */
  predicate Related(recipeIngredient: string, term: string) {
    Contains(recipeIngredient, term) || Contains(term, recipeIngredient)
  }

  /** The containment test goes both ways, so it does not matter which side is which. */
  lemma RelatedSymmetric(a: string, b: string)
    ensures Related(a, b) <==> Related(b, a)
  {
  }

  /** recipe_ingredients.any? { ... } for one user term. */
  predicate TermMatches(recipeIngredients: seq<string>, term: string) {
    exists j :: 0 <= j < |recipeIngredients| && Related(recipeIngredients[j], term)
  }

  /** The number of user terms that match some recipe ingredient; each term counts at most once. */
  function MatchCount(terms: seq<string>, recipeIngredients: seq<string>): (m: nat)
    ensures m <= |terms|
  {
    if terms == [] then 0
    else
      MatchCount(terms[..|terms| - 1], recipeIngredients)
      + (if TermMatches(recipeIngredients, terms[|terms| - 1]) then 1 else 0)
  }

  /** No match at all exactly when no term matches any ingredient. */
  lemma {:induction false} MatchCountZero(terms: seq<string>, recipeIngredients: seq<string>)
    ensures MatchCount(terms, recipeIngredients) == 0 <==>
            forall k :: 0 <= k < |terms| ==> !TermMatches(recipeIngredients, terms[k])
  {
    if terms != [] {
      var init := terms[..|terms| - 1];
      MatchCountZero(init, recipeIngredients);
      assert forall k :: 0 <= k < |init| ==> init[k] == terms[k];
    }
  }

  /** Every term counts exactly when every term matches some ingredient. */
  lemma {:induction false} MatchCountAll(terms: seq<string>, recipeIngredients: seq<string>)
    ensures MatchCount(terms, recipeIngredients) == |terms| <==>
            forall k :: 0 <= k < |terms| ==> TermMatches(recipeIngredients, terms[k])
  {
    if terms != [] {
      var init := terms[..|terms| - 1];
      MatchCountAll(init, recipeIngredients);
      assert forall k :: 0 <= k < |init| ==> init[k] == terms[k];
    }
  }

  /** Counting over two lists of terms adds up. */
  lemma {:induction false} MatchCountAppend(a: seq<string>, b: seq<string>, recipeIngredients: seq<string>)
    ensures MatchCount(a + b, recipeIngredients) == MatchCount(a, recipeIngredients) + MatchCount(b, recipeIngredients)
    decreases |b|
  {
    if b == [] {
      assert a + b == a;
    } else {
      assert (a + b)[..|a + b| - 1] == a + b[..|b| - 1];
      MatchCountAppend(a, b[..|b| - 1], recipeIngredients);
    }
  }

  /** One more term that matches an ingredient raises the count by exactly one. */
  lemma AddMatchingTerm(terms: seq<string>, x: string, recipeIngredients: seq<string>)
    requires TermMatches(recipeIngredients, x)
    ensures MatchCount(terms + [x], recipeIngredients) == MatchCount(terms, recipeIngredients) + 1
  {
    assert (terms + [x])[..|terms + [x]| - 1] == terms;
  }

  /** Once a recipe matches, adding a term it matches never lowers its user coverage. */
  lemma AddMatchingTermCoverage(terms: seq<string>, x: string, recipeIngredients: seq<string>)
    requires TermMatches(recipeIngredients, x) && MatchCount(terms, recipeIngredients) > 0
    ensures UserCoverage(MatchCount(terms + [x], recipeIngredients), |terms + [x]|)
            >= UserCoverage(MatchCount(terms, recipeIngredients), |terms|)
  {
    AddMatchingTerm(terms, x, recipeIngredients);
    CoverageMonotone(MatchCount(terms, recipeIngredients), |terms|);
  }

  /** The order of the user's terms does not affect the count. */
  lemma {:induction false} MatchCountPermutation(a: seq<string>, b: seq<string>, recipeIngredients: seq<string>)
    requires multiset(a) == multiset(b)
    ensures MatchCount(a, recipeIngredients) == MatchCount(b, recipeIngredients)
    decreases |a|
  {
    if a != [] {
      var x := a[|a| - 1];
      var init := a[..|a| - 1];
      assert a == init + [x];
      assert x in multiset(b);
      var j :| 0 <= j < |b| && b[j] == x;
      var rest := b[..j] + b[j + 1..];
      assert b == b[..j] + [x] + b[j + 1..];
      assert multiset(a) == multiset(init) + multiset{x};
      assert multiset(b) == multiset(b[..j]) + multiset{x} + multiset(b[j + 1..]);
      assert multiset(rest) == multiset(b[..j]) + multiset(b[j + 1..]);
      assert multiset(init) == multiset(a) - multiset{x};
      assert multiset(rest) == multiset(b) - multiset{x};
      MatchCountPermutation(init, rest, recipeIngredients);
      MatchCountAppend(init, [x], recipeIngredients);
      MatchCountAppend(b[..j], [x], recipeIngredients);
      MatchCountAppend(b[..j] + [x], b[j + 1..], recipeIngredients);
      MatchCountAppend(b[..j], b[j + 1..], recipeIngredients);
      assert [x][..0] == [];
    }
  }

  /** The counting loop of calculate_match_score over the user's terms. */
  method CountMatches(terms: seq<string>, recipeIngredients: seq<string>) returns (matches: nat)
    ensures matches == MatchCount(terms, recipeIngredients)
  {
    matches := 0;
    for i := 0 to |terms|
      invariant matches == MatchCount(terms[..i], recipeIngredients)
    {
      assert terms[..i + 1][..i] == terms[..i];
      if TermMatches(recipeIngredients, terms[i]) {
        matches := matches + 1;
      }
    }
    assert terms[..|terms|] == terms;
  }

  /** user_coverage: the share of the user's terms the recipe uses. */
  function UserCoverage(matches: nat, termCount: nat): (c: real)
    requires 0 < matches <= termCount
    ensures 0.0 < c <= 1.0
    ensures c == 1.0 <==> matches == termCount
  {
    matches as real / termCount as real
  }

  /** Adding a term that matches never lowers the coverage: (m + 1) / (t + 1) >= m / t. */
  lemma CoverageMonotone(matches: nat, termCount: nat)
    requires 0 < matches <= termCount
    ensures UserCoverage(matches + 1, termCount + 1) >= UserCoverage(matches, termCount)
  {
    var m, t := matches as real, termCount as real;
    assert (m + 1.0) / (t + 1.0) - m / t == (t - m) / (t * (t + 1.0));
  }

  /** recipe_efficiency: matched terms per recipe ingredient; above 1 when several terms hit the same ingredient. */
  function RecipeEfficiency(matches: nat, ingredientCount: nat): (e: real)
    requires 0 < matches && 0 < ingredientCount
    ensures 0.0 < e
    ensures e <= 1.0 <==> matches <= ingredientCount
  {
    matches as real / ingredientCount as real
  }

  /**
   * calculate_match_score: 0 when the recipe has no ingredients or no term
   * matches; otherwise the formula applied to efficiency and coverage.
   */
  function Score(ingredients: Option<seq<string>>, terms: seq<string>, formula: ScoreFormula): real {
    if ingredients.None? || ingredients.value == [] then 0.0
    else
      var recipeIngredients := LowerAll(ingredients.value);
      var matches := MatchCount(terms, recipeIngredients);
      if matches == 0 then 0.0
      else formula(RecipeEfficiency(matches, |recipeIngredients|), UserCoverage(matches, |terms|))
  }

  /**
   * A non-zero score needs ingredients and a matching term; a recipe with
   * ingredients but no matching term scores 0.
   */
  lemma ScoreCases(ingredients: Option<seq<string>>, terms: seq<string>, formula: ScoreFormula)
    ensures ingredients.None? || ingredients.value == [] ==> Score(ingredients, terms, formula) == 0.0
    ensures Score(ingredients, terms, formula) != 0.0 ==>
              ingredients.Some? && ingredients.value != [] && terms != []
              && exists k :: 0 <= k < |terms| && TermMatches(LowerAll(ingredients.value), terms[k])
    ensures ingredients.Some? && ingredients.value != []
            && (forall k :: 0 <= k < |terms| ==> !TermMatches(LowerAll(ingredients.value), terms[k]))
            ==> Score(ingredients, terms, formula) == 0.0
  {
    if ingredients.Some? && ingredients.value != [] {
      MatchCountZero(terms, LowerAll(ingredients.value));
    }
  }

  /**
   * With ingredients and m > 0 matching terms, the score is the formula at
   * efficiency m / |ingredients| and coverage m / |terms|, the latter in (0, 1].
   */
  lemma ScoreWithMatches(ingredients: seq<string>, terms: seq<string>, formula: ScoreFormula)
    requires ingredients != [] && MatchCount(terms, LowerAll(ingredients)) > 0
    ensures var m := MatchCount(terms, LowerAll(ingredients)) as real;
            Score(Some(ingredients), terms, formula) == formula(m / |ingredients| as real, m / |terms| as real)
            && 0.0 < m / |terms| as real <= 1.0
  {
    var m := MatchCount(terms, LowerAll(ingredients));
    var c := UserCoverage(m, |terms|);
    assert Score(Some(ingredients), terms, formula) == formula(RecipeEfficiency(m, |ingredients|), c);
  }

  /** Lower-casing the recipe's ingredients beforehand does not change its score. */
  lemma ScoreIgnoresIngredientCase(ingredients: seq<string>, terms: seq<string>, formula: ScoreFormula)
    ensures Score(Some(LowerAll(ingredients)), terms, formula) == Score(Some(ingredients), terms, formula)
  {
    LowerAllIdempotent(ingredients);
  }

  /** The order of the user's terms does not change a recipe's score. */
  lemma ScoreIgnoresTermOrder(ingredients: Option<seq<string>>, a: seq<string>, b: seq<string>, formula: ScoreFormula)
    requires multiset(a) == multiset(b)
    ensures Score(ingredients, a, formula) == Score(ingredients, b, formula)
  {
    assert |a| == |multiset(a)| == |multiset(b)| == |b|;
    if ingredients.Some? {
      MatchCountPermutation(a, b, LowerAll(ingredients.value));
    }
  }

  // ------------------------------------------------------------------
  // call
  // ------------------------------------------------------------------

  /** max_time.to_i if max_time.present?: blank or nil leaves the time filter off. */
  function MaxTimeSetting(maxTime: Option<string>): (m: Option<int>)
    ensures m.None? <==> maxTime.None? || Blank(maxTime.value)
  {
    if maxTime.None? || Blank(maxTime.value) then None else Some(ToI(maxTime.value))
  }

  /** A number passed as its decimal text becomes that limit. */
  lemma MaxTimeSettingNumber(n: int)
    ensures MaxTimeSetting(Some(DecimalText(n))) == Some(n)
  {
    var d := DecimalText(n);
    assert !IsSpace(d[0]) by {
      if n < 0 {
        assert d[0] == '-';
      } else {
        assert IsDigit(Digits(n)[0]);
      }
    }
    assert !Blank(d);
    ToIDecimalText(n);
  }

  /** Text that is not blank but does not start with a number sets the limit to 0: the filter stays on. */
  lemma MaxTimeSettingNotANumber(text: string)
    requires SkipSpace(text) != [] && !IsDigit(SkipSpace(text)[0])
    requires SkipSpace(text)[0] != '-' && SkipSpace(text)[0] != '+'
    ensures MaxTimeSetting(Some(text)) == Some(0)
  {
    var t := SkipSpace(text);
    assert !Blank(text) by {
      var j := |text| - |t|;
      assert text[j] == t[0] && !IsSpace(t[0]);
    }
    assert LeadingDigits(t) == [];
    assert ToI(text) == DigitsValue(LeadingDigits(t));
  }

  /** The SQL condition total_time <= max_time, when a max time is set. */
  predicate WithinTime(recipe: Recipe, maxTime: Option<int>) {
    maxTime.None? || recipe.totalTime <= maxTime.value
  }

  /** where("total_time <= ?", max_time): the recipes within the time limit, in order. */
  function TimeFilter(recipes: seq<Recipe>, maxTime: Option<int>): (scope: seq<Recipe>)
    ensures |scope| <= |recipes|
    ensures forall i :: 0 <= i < |scope| ==> scope[i] in recipes && WithinTime(scope[i], maxTime)
  {
    if recipes == [] then []
    else (if WithinTime(recipes[0], maxTime) then [recipes[0]] else []) + TimeFilter(recipes[1..], maxTime)
  }

  /** Every recipe within the time limit survives the filter. */
  lemma {:induction false} TimeFilterKeeps(recipes: seq<Recipe>, maxTime: Option<int>, r: Recipe)
    requires r in recipes && WithinTime(r, maxTime)
    ensures r in TimeFilter(recipes, maxTime)
  {
    if recipes[0] != r {
      TimeFilterKeeps(recipes[1..], maxTime, r);
    }
  }

  /** The filter keeps the input order: it distributes over concatenation. */
  lemma {:induction false} TimeFilterAppend(a: seq<Recipe>, b: seq<Recipe>, maxTime: Option<int>)
    ensures TimeFilter(a + b, maxTime) == TimeFilter(a, maxTime) + TimeFilter(b, maxTime)
    decreases |a|
  {
    if a == [] {
      assert a + b == b;
    } else {
      assert (a + b)[1..] == a[1..] + b;
      TimeFilterAppend(a[1..], b, maxTime);
    }
  }

  /** Without a max time, nothing is filtered out. */
  lemma {:induction false} TimeFilterOff(recipes: seq<Recipe>)
    ensures TimeFilter(recipes, None) == recipes
  {
    if recipes != [] {
      TimeFilterOff(recipes[1..]);
      assert recipes == [recipes[0]] + recipes[1..];
    }
  }

  /** recipes_scope.map { { recipe:, score: calculate_match_score(recipe) } } */
  function ScoreAll(scope: seq<Recipe>, terms: seq<string>, formula: ScoreFormula): (scored: seq<Scored<Recipe>>)
    ensures |scored| == |scope|
  {
    seq(|scope|, i requires 0 <= i < |scope| => Scored(scope[i], Score(scope[i].ingredients, terms, formula)))
  }

  /** Scoring one more recipe of the scope appends its pair. */
  lemma ScoreAllSnoc(scope: seq<Recipe>, i: nat, terms: seq<string>, formula: ScoreFormula)
    requires i < |scope|
    ensures ScoreAll(scope[..i + 1], terms, formula)
            == ScoreAll(scope[..i], terms, formula) + [Scored(scope[i], Score(scope[i].ingredients, terms, formula))]
  {
  }

  /** The scored recipes with a positive score: what is left for sorting. */
  function Candidates(scope: seq<Recipe>, terms: seq<string>, formula: ScoreFormula): seq<Scored<Recipe>> {
    Positive(ScoreAll(scope, terms, formula))
  }

  /** A candidate is a recipe of the scope, paired with its own score, which is positive. */
  lemma CandidatesExactly(scope: seq<Recipe>, terms: seq<string>, formula: ScoreFormula, x: Scored<Recipe>)
    ensures x in Candidates(scope, terms, formula) <==>
            x.item in scope && x.score == Score(x.item.ingredients, terms, formula) && x.score > 0.0
  {
    var scored := ScoreAll(scope, terms, formula);
    if x.item in scope && x.score == Score(x.item.ingredients, terms, formula) && x.score > 0.0 {
      var i :| 0 <= i < |scope| && scope[i] == x.item;
      assert scored[i] == x;
      PositiveKeeps(scored, x);
    }
  }

  /**
   * What call returns when there are terms: the recipes of a top-limit
   * ranking of the candidates, with ties in any order.
   */
  ghost predicate Ranked(found: seq<Recipe>, candidates: seq<Scored<Recipe>>, limit: nat) {
    exists top :: IsTop(top, candidates, limit) && found == Items(top)
  }

  /** Each entry of a ranking is a scope recipe paired with its own positive score. */
  lemma RankedTop(scope: seq<Recipe>, terms: seq<string>, formula: ScoreFormula, limit: nat, top: seq<Scored<Recipe>>)
    requires IsTop(top, Candidates(scope, terms, formula), limit)
    ensures forall i :: 0 <= i < |top| ==>
              top[i].item in scope && top[i].score == Score(top[i].item.ingredients, terms, formula) && top[i].score > 0.0
  {
    TopProperties(top, Candidates(scope, terms, formula), limit);
    forall i | 0 <= i < |top|
      ensures top[i].item in scope && top[i].score == Score(top[i].item.ingredients, terms, formula)
      ensures top[i].score > 0.0
    {
      CandidatesExactly(scope, terms, formula, top[i]);
    }
  }

  /** A ranking of the candidates of a scope: at most limit scope recipes, scored positively, best first. */
  lemma RankedInScope(scope: seq<Recipe>, terms: seq<string>, formula: ScoreFormula, limit: nat, found: seq<Recipe>)
    requires Ranked(found, Candidates(scope, terms, formula), limit)
    ensures |found| <= limit
    ensures forall i :: 0 <= i < |found| ==> found[i] in scope && Score(found[i].ingredients, terms, formula) > 0.0
    ensures forall i, j :: 0 <= i < j < |found| ==>
              Score(found[i].ingredients, terms, formula) >= Score(found[j].ingredients, terms, formula)
  {
    var top: seq<Scored<Recipe>> :| IsTop(top, Candidates(scope, terms, formula), limit) && found == Items(top);
    RankedTop(scope, terms, formula, limit, top);
    assert |top| <= limit && SortedByScore(top);
  }

  /**
   * The result of a search with terms: at most limit recipes, each from the
   * input, within the time limit and with a positive score, in
   * non-increasing score order.
   */
  lemma RankedResults(recipes: seq<Recipe>, terms: seq<string>, maxTime: Option<int>,
                      formula: ScoreFormula, limit: nat, found: seq<Recipe>)
    requires Ranked(found, Candidates(TimeFilter(recipes, maxTime), terms, formula), limit)
    ensures |found| <= limit
    ensures forall i :: 0 <= i < |found| ==> found[i] in recipes && WithinTime(found[i], maxTime)
    ensures forall i :: 0 <= i < |found| ==> Score(found[i].ingredients, terms, formula) > 0.0
    ensures forall i, j :: 0 <= i < j < |found| ==>
              Score(found[i].ingredients, terms, formula) >= Score(found[j].ingredients, terms, formula)
  {
    var scope := TimeFilter(recipes, maxTime);
    RankedInScope(scope, terms, formula, limit, found);
    forall i | 0 <= i < |found|
      ensures found[i] in recipes && WithinTime(found[i], maxTime)
    {
      var k :| 0 <= k < |scope| && scope[k] == found[i];
    }
  }

  /** Nothing better in the scope is left out of a ranking of its candidates; a short ranking leaves out nothing. */
  lemma RankedCompleteInScope(scope: seq<Recipe>, terms: seq<string>, formula: ScoreFormula, limit: nat, found: seq<Recipe>)
    requires Ranked(found, Candidates(scope, terms, formula), limit)
    ensures forall r, i :: r in scope && 0 <= i < |found|
              && Score(r.ingredients, terms, formula) > Score(found[i].ingredients, terms, formula)
              ==> r in found
    ensures |found| < limit ==>
              forall r :: r in scope && Score(r.ingredients, terms, formula) > 0.0 ==> r in found
  {
    var top: seq<Scored<Recipe>> :| IsTop(top, Candidates(scope, terms, formula), limit) && found == Items(top);
    TopHoldsBetter(scope, terms, formula, limit, top);
    ShortTopHoldsAll(scope, terms, formula, limit, top);
  }

  /** A scope recipe that scores more than some entry of a ranking is in the ranking. */
  lemma TopHoldsBetter(scope: seq<Recipe>, terms: seq<string>, formula: ScoreFormula, limit: nat,
                       top: seq<Scored<Recipe>>)
    requires IsTop(top, Candidates(scope, terms, formula), limit)
    ensures forall r, i :: r in scope && 0 <= i < |top|
              && Score(r.ingredients, terms, formula) > Score(Items(top)[i].ingredients, terms, formula)
              ==> r in Items(top)
  {
    RankedTop(scope, terms, formula, limit, top);
    forall r, i | r in scope && 0 <= i < |top|
      && Score(r.ingredients, terms, formula) > Score(Items(top)[i].ingredients, terms, formula)
      ensures r in Items(top)
    {
      assert Items(top)[i] == top[i].item;
      assert Score(r.ingredients, terms, formula) > top[i].score;
      RecipeInTop(scope, terms, formula, limit, top, r);
    }
  }

  /** A ranking shorter than limit holds every positive-scoring scope recipe. */
  lemma ShortTopHoldsAll(scope: seq<Recipe>, terms: seq<string>, formula: ScoreFormula, limit: nat,
                         top: seq<Scored<Recipe>>)
    requires IsTop(top, Candidates(scope, terms, formula), limit)
    ensures |top| < limit ==>
              forall r :: r in scope && Score(r.ingredients, terms, formula) > 0.0 ==> r in Items(top)
  {
    if |top| < limit {
      forall r | r in scope && Score(r.ingredients, terms, formula) > 0.0
        ensures r in Items(top)
      {
        RecipeInTop(scope, terms, formula, limit, top, r);
      }
    }
  }

  /**
   * Nothing better is left out: a filtered recipe scoring more than some
   * returned one is returned too, and when fewer than limit come back every
   * positive-scoring filtered recipe is among them.
   */
  lemma RankedResultsComplete(recipes: seq<Recipe>, terms: seq<string>, maxTime: Option<int>,
                              formula: ScoreFormula, limit: nat, found: seq<Recipe>)
    requires Ranked(found, Candidates(TimeFilter(recipes, maxTime), terms, formula), limit)
    ensures forall r, i :: r in recipes && WithinTime(r, maxTime) && 0 <= i < |found|
              && Score(r.ingredients, terms, formula) > Score(found[i].ingredients, terms, formula)
              ==> r in found
    ensures |found| < limit ==>
              (forall r :: r in recipes && WithinTime(r, maxTime) && Score(r.ingredients, terms, formula) > 0.0
                 ==> r in found)
  {
    var scope := TimeFilter(recipes, maxTime);
    RankedCompleteInScope(scope, terms, formula, limit, found);
    forall r | r in recipes && WithinTime(r, maxTime)
      ensures r in scope
    {
      TimeFilterKeeps(recipes, maxTime, r);
    }
  }

  /** A scope recipe with a positive score is in a ranking that is short, or that holds a lower score. */
  lemma RecipeInTop(scope: seq<Recipe>, terms: seq<string>, formula: ScoreFormula, limit: nat,
                    top: seq<Scored<Recipe>>, r: Recipe)
    requires IsTop(top, Candidates(scope, terms, formula), limit)
    requires r in scope && Score(r.ingredients, terms, formula) > 0.0
    requires |top| < limit || exists i :: 0 <= i < |top| && Score(r.ingredients, terms, formula) > top[i].score
    ensures r in Items(top)
  {
    var candidates := Candidates(scope, terms, formula);
    var x := Scored(r, Score(r.ingredients, terms, formula));
    CandidatesExactly(scope, terms, formula, x);
    TopProperties(top, candidates, limit);
    assert x in multiset(top);
    var j :| 0 <= j < |top| && top[j] == x;
    assert Items(top)[j] == r;
  }

  /** With no ingredient terms, call returns the first limit filtered recipes in input order. */
  lemma UnscoredResults(recipes: seq<Recipe>, maxTime: Option<int>, limit: nat)
    ensures var found := First(TimeFilter(recipes, maxTime), limit);
            |found| <= limit
            && (forall i :: 0 <= i < |found| ==> found[i] in recipes && WithinTime(found[i], maxTime))
            && (maxTime.None? ==> found == recipes[..Min(limit, |recipes|)])
  {
    if maxTime.None? {
      TimeFilterOff(recipes);
    }
  }

  /**
   * RecipeSearchService: the parsed terms and max time fixed at construction,
   * and the results of the last call.
   */
  class SearchService {
    var userIngredients: seq<string>
    var maxTime: Option<int>
    var results: seq<Recipe>
    const formula: ScoreFormula

    /** initialize(ingredient_string, max_time = nil) */
    constructor (ingredientString: Option<string>, formula: ScoreFormula, maxTimeParam: Option<string> := None)
      ensures userIngredients == ParseIngredients(ingredientString)
      ensures maxTime == MaxTimeSetting(maxTimeParam)
      ensures results == []
      ensures this.formula == formula
    {
      userIngredients := ParseIngredients(ingredientString);
      maxTime := MaxTimeSetting(maxTimeParam);
      results := [];
      this.formula := formula;
    }

    /** calculate_match_score(recipe) against the service's terms. */
    method CalculateMatchScore(recipe: Recipe) returns (score: real)
      ensures score == Score(recipe.ingredients, userIngredients, formula)
    {
      if recipe.ingredients.None? || recipe.ingredients.value == [] {
        return 0.0;
      }
      var recipeIngredients := LowerAll(recipe.ingredients.value);
      var matches := CountMatches(userIngredients, recipeIngredients);
      if matches == 0 {
        return 0.0;
      }
      var userCoverage := UserCoverage(matches, |userIngredients|);
      var recipeEfficiency := RecipeEfficiency(matches, |recipeIngredients|);
      score := formula(recipeEfficiency, userCoverage);
    }

    /**
     * call(limit:): with no terms, the first limit recipes within the time
     * limit; otherwise the recipes of a top-limit ranking of the positively
     * scored ones. The answer is also kept in results.
     */
    method Call(recipes: seq<Recipe>, limit: nat := 5) returns (found: seq<Recipe>)
      modifies this`results
      ensures found == results
      ensures userIngredients == [] ==> found == First(TimeFilter(recipes, maxTime), limit)
      ensures userIngredients != [] ==>
                Ranked(found, Candidates(TimeFilter(recipes, maxTime), userIngredients, formula), limit)
    {
      var scope := TimeFilter(recipes, maxTime);
      if userIngredients == [] {
        results := First(scope, limit);
        return results;
      }
      var withScores: seq<Scored<Recipe>> := [];
      for i := 0 to |scope|
        invariant withScores == ScoreAll(scope[..i], userIngredients, formula)
      {
        var score := CalculateMatchScore(scope[i]);
        ScoreAllSnoc(scope, i, userIngredients, formula);
        withScores := withScores + [Scored(scope[i], score)];
      }
      assert scope[..|scope|] == scope;
      var top := TopByScore(Positive(withScores), limit);
      results := Items(top);
      found := results;
    }
  }
}
