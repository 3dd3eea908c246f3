/**
 * RecipesHelper: the view helpers that colour a recipe's ingredient by
 * whether it matches the user's search. They split the query themselves,
 * with the same strip, downcase and two-way include? test as the search
 * service, but without dropping blank pieces.
 */
module RecipesHelper {
  import opened Wrappers
  import opened Text
  import opened RecipeSearchService

  /** search_query.split(',').map(&:strip).map(&:downcase): blank pieces are kept. */
  function SearchPieces(searchQuery: string): (pieces: seq<string>)
    ensures |pieces| == |Split(searchQuery)|
    ensures forall k :: 0 <= k < |pieces| ==> IsStripped(pieces[k]) && IsLowerCase(pieces[k]) && NoComma(pieces[k])
  {
    var fields := Split(searchQuery);
    forall k | 0 <= k < |fields|
      ensures IsStripped(Normalize(fields)[k]) && IsLowerCase(Normalize(fields)[k]) && NoComma(Normalize(fields)[k])
    {
      NormalizedPiece(fields[k]);
    }
    Normalize(fields)
  }

  /**
   * ingredient_matches_search?: nil when the query is nil or blank; otherwise
   * whether some piece of the query and the lower-cased ingredient contain
   * one another.
   */
  function IngredientMatchesSearch(ingredient: string, searchQuery: Option<string>): (m: Option<bool>)
    ensures m.None? <==> searchQuery.None? || Blank(searchQuery.value)
  {
    if searchQuery.None? || Blank(searchQuery.value) then None
    else
      Some(AnyRelated(Lower(ingredient), SearchPieces(searchQuery.value)))
  }

  /** search_ingredients.any? { ... }: some piece and the ingredient contain one another. */
  predicate AnyRelated(ingredientLower: string, pieces: seq<string>) {
    exists k :: 0 <= k < |pieces| && Related(ingredientLower, pieces[k])
  }

  /** The { background:, dot: } pair of CSS classes for one ingredient. */
  datatype Highlight = Highlight(background: string, dot: string)

  const Neutral := Highlight("bg-stone-50", "bg-orange-400")
  const Matching := Highlight("bg-green-100", "bg-green-400")
  const NotMatching := Highlight("bg-red-100", "bg-red-400")

  /**
   * ingredient_highlight_classes: neutral without a search, green for an
   * ingredient that matches a piece of the search, red for one that matches none.
   */
  function IngredientHighlightClasses(ingredient: string, searchQuery: Option<string>): (h: Highlight)
    ensures h == Neutral <==> searchQuery.None? || Blank(searchQuery.value)
    ensures h == Matching <==> IngredientMatchesSearch(ingredient, searchQuery) == Some(true)
    ensures h == NotMatching <==> IngredientMatchesSearch(ingredient, searchQuery) == Some(false)
  {
    match IngredientMatchesSearch(ingredient, searchQuery)
    case None => Neutral
    case Some(true) => Matching
    case Some(false) => NotMatching
  }

  /** The colours tell the three outcomes apart: the classes determine the match result. */
  lemma HighlightDeterminesMatch(a: string, qa: Option<string>, b: string, qb: Option<string>)
    requires IngredientHighlightClasses(a, qa) == IngredientHighlightClasses(b, qb)
    ensures IngredientMatchesSearch(a, qa) == IngredientMatchesSearch(b, qb)
  {
  }

  /** Neither the ingredient's case nor the query's case changes the answer. */
  lemma MatchesSearchIgnoresCase(ingredient: string, searchQuery: string)
    ensures IngredientMatchesSearch(Lower(ingredient), Some(Lower(searchQuery)))
            == IngredientMatchesSearch(ingredient, Some(searchQuery))
  {
    BlankLower(searchQuery);
    LowerIdempotent(ingredient);
    NormalizeIgnoresCase(searchQuery);
    if !Blank(searchQuery) {
      assert AnyRelated(Lower(Lower(ingredient)), SearchPieces(Lower(searchQuery)))
             == AnyRelated(Lower(ingredient), SearchPieces(searchQuery));
    }
  }

  /**
   * A blank piece between commas ("eggs,,flour") is kept and is contained in
   * every ingredient, so every ingredient then counts as matching.
   */
  lemma BlankPieceMatchesAll(ingredient: string, searchQuery: string, k: nat)
    requires !Blank(searchQuery)
    requires k < |Split(searchQuery)| && Blank(Split(searchQuery)[k])
    ensures IngredientMatchesSearch(ingredient, Some(searchQuery)) == Some(true)
  {
    var pieces := SearchPieces(searchQuery);
    NormalizedPiece(Split(searchQuery)[k]);
    BlankLower(Strip(Split(searchQuery)[k]));
    assert Strip(Split(searchQuery)[k]) == [] by {
      BlankStripped(Strip(Split(searchQuery)[k]));
      BlankStrip(Split(searchQuery)[k]);
    }
    assert pieces[k] == [];
    ContainsEmpty(Lower(ingredient));
    assert Related(Lower(ingredient), pieces[k]);
    assert AnyRelated(Lower(ingredient), pieces);
  }

  /** An ingredient searched for by its own name (no comma in it) is a match. */
  lemma IngredientMatchesItself(ingredient: string)
    requires !Blank(ingredient) && NoComma(ingredient)
    ensures IngredientMatchesSearch(ingredient, Some(ingredient)) == Some(true)
  {
    assert Split(ingredient) == [ingredient] by {
      assert ingredient != "";
      SplitJoin([ingredient]);
    }
    var pieces := SearchPieces(ingredient);
    assert pieces[0] == Lower(Strip(ingredient));
    StrippedInside(ingredient);
    assert AnyRelated(Lower(ingredient), pieces);
  }

  /** The lower-cased strip of a string occurs in the lower-cased string. */
  lemma StrippedInside(s: string)
    ensures Contains(Lower(s), Lower(Strip(s)))
  {
    var t := Strip(s);
    StripKeepsMiddle(s);
    var i := StripStart(s);
    assert OccursAt(Lower(s), Lower(t), i) by {
      LowerSlice(s, i, i + |t|);
    }
    ContainsAt(Lower(s), Lower(t));
  }

  /**
   * When no piece of the query is blank, the helper's pieces are exactly the
   * search terms the service parses from the same text, so an ingredient is
   * shown as matching exactly when it matches one of those terms.
   */
  lemma PiecesAreTerms(searchQuery: string)
    requires !Blank(searchQuery)
    requires forall k :: 0 <= k < |Split(searchQuery)| ==> !Blank(Lower(Strip(Split(searchQuery)[k])))
    ensures SearchPieces(searchQuery) == ParseIngredients(Some(searchQuery))
  {
    var pieces := Normalize(Split(searchQuery));
    assert forall k :: 0 <= k < |pieces| ==> !Blank(pieces[k]);
    assert ParseIngredients(Some(searchQuery)) == RejectBlank(pieces);
  }

  /**
   * The helper agrees with the service's count: some ingredient of a recipe is
   * shown as matching exactly when the recipe matches at least one search term.
   */
  lemma HighlightAgreesWithScore(ingredients: seq<string>, searchQuery: string)
    requires !Blank(searchQuery)
    requires forall k :: 0 <= k < |Split(searchQuery)| ==> !Blank(Lower(Strip(Split(searchQuery)[k])))
    ensures (exists i :: 0 <= i < |ingredients| && IngredientMatchesSearch(ingredients[i], Some(searchQuery)) == Some(true))
            <==> MatchCount(ParseIngredients(Some(searchQuery)), LowerAll(ingredients)) > 0
  {
    var terms := ParseIngredients(Some(searchQuery));
    PiecesAreTerms(searchQuery);
    MatchCountZero(terms, LowerAll(ingredients));
    if exists i :: 0 <= i < |ingredients| && IngredientMatchesSearch(ingredients[i], Some(searchQuery)) == Some(true) {
      var i :| 0 <= i < |ingredients| && IngredientMatchesSearch(ingredients[i], Some(searchQuery)) == Some(true);
      assert AnyRelated(Lower(ingredients[i]), terms);
      var k :| 0 <= k < |terms| && Related(Lower(ingredients[i]), terms[k]);
      assert LowerAll(ingredients)[i] == Lower(ingredients[i]);
      assert TermMatches(LowerAll(ingredients), terms[k]);
    }
    if MatchCount(terms, LowerAll(ingredients)) > 0 {
      var k :| 0 <= k < |terms| && TermMatches(LowerAll(ingredients), terms[k]);
      var i :| 0 <= i < |ingredients| && Related(LowerAll(ingredients)[i], terms[k]);
      assert LowerAll(ingredients)[i] == Lower(ingredients[i]);
      assert AnyRelated(Lower(ingredients[i]), terms);
      assert IngredientMatchesSearch(ingredients[i], Some(searchQuery)) == Some(true);
    }
  }
}
