# Recipe search by ingredients, in Dafny

This project models the ingredient search of a Rails recipe application:

- `RecipeSearchService` parses a comma-separated list of ingredients the
  user has into search terms. For each recipe it counts how many terms match
  a recipe ingredient, with containment going either way. It scores the
  recipe from that count. It filters recipes by total time and returns the
  best-scoring ones.
- The `RecipesHelper` view helpers decide, for one ingredient on a recipe
  page, whether it matches the current search. They then pick the CSS
  classes that colour it.

Files:

- `wrappers.dfy`: an `Option` type. It stands for Ruby's `nil`.
- `text.dfy` (`Text`): the Ruby `String` operations the code relies on.
  These are `downcase`, `strip`, `blank?`, `include?`, `split(",")` and
  `to_i`; `downcase` and `blank?` are restricted to ASCII. The file also
  defines `Array#join(",")`, which the code does not call; it is used only to
  state that parsing undoes a join. Each operation comes with the facts the
  search needs, for example "split undoes join" and "strip and downcase
  commute".
- `ranking.dfy` (`Ranking`): the `select`, `sort_by`, `first`, `map` chain at
  the end of `call`, generic in the ranked item.
- `search_service.dfy` (`RecipeSearchService`):
  - parsing;
  - the match count, with `CountMatches` as the counting loop;
  - the score;
  - the time filter;
  - the class `SearchService`, whose constructor and `Call` method write
    `userIngredients`, `maxTime` and `results`.
- `helpers.dfy` (`RecipesHelper`): the two helpers, and how they relate to
  the service's parsing and counting.
- `scenarios.dfy` (`Scenarios`): two concrete cases, the time-filter
  shortcut and a repeated term.

How the model reads the code:

- **The score formula is a parameter.** The real formula,
  `(efficiency ** 0.7) * (coverage ** 0.3) * 100` rounded to 2 places, is a
  floating-point computation. The model passes it in as a
  `ScoreFormula = (real, real) -> real` and feeds it the exact efficiency
  (`matches / |ingredients|`) and coverage (`matches / |terms|`).
- **`Recipe.all` is an input sequence** in database order.
- **`sort_by` is not stable**, so `Call` promises only *some* ranking. It
  gives the first `limit` candidates of an ordering by non-increasing score
  (`Ranking.IsTop`). The insertion sort in `Ranking.SortByScore` is one such
  ordering. The time filter's SQL condition becomes `WithinTime`.

Three consequences of the code that a reader might not expect:

- **A score can exceed 100.** Several terms can match the same ingredient.
  Then `matches` exceeds the number of ingredients, and the efficiency
  exceeds 1. `Scenarios.RepeatedTermExample` shows the formula receiving
  efficiency 2.
- **`max_time` can be negative.** `max_time.to_i` keeps a sign:
  `MaxTimeSettingNumber` shows "-5" becoming -5. Text that is not a number
  becomes 0, and the filter stays on (`MaxTimeSettingNotANumber`).
- **Ties have no fixed order.** `sort_by` guarantees no tie order, so none
  is modelled.

## Model

| member | source | states |
|---|---|---|
| RecipeSearchService.SearchService.constructor | app/services/recipe_search_service.rb:4-8 | the max-time parameter defaults to nil; the terms are the parse of the ingredient string; the max time is `to_i` of a present parameter and absent otherwise; results start empty |
| RecipeSearchService.ParseIngredients | app/services/recipe_search_service.rb:43-51 | every parsed term is non-empty, stripped, lower-case and comma-free |
| RecipeSearchService.ParseBlank | app/services/recipe_search_service.rb:44 | nil, empty and whitespace-only input give no terms |
| RecipeSearchService.ParseKeepsPieces | app/services/recipe_search_service.rb:46-50 | for non-blank text the terms are the rejection of the normalized pieces, and every non-blank normalized piece is among them |
| RecipeSearchService.RejectBlank | app/services/recipe_search_service.rb:50 | keeps only non-blank pieces, each taken from the input; keeps everything when nothing is blank |
| RecipeSearchService.RejectBlankKeeps | app/services/recipe_search_service.rb:50 | every non-blank piece survives the rejection |
| RecipeSearchService.RejectBlankAppend | app/services/recipe_search_service.rb:50 | the rejection keeps input order: it distributes over concatenation |
| RecipeSearchService.RejectBlankBlank | app/services/recipe_search_service.rb:50 | a single blank piece is rejected |
| RecipeSearchService.RejectBlankSkips | app/services/recipe_search_service.rb:50 | a blank piece between others is dropped, and the pieces before and after it keep their order |
| RecipeSearchService.Normalize | app/services/recipe_search_service.rb:48-49 | each comma piece stripped, then lower-cased, in order; its properties are in NormalizedPiece and NormalizeIgnoresCase |
| RecipeSearchService.NormalizedPiece | app/services/recipe_search_service.rb:48-49 | a stripped, lower-cased comma piece is stripped, lower-case and comma-free; it is blank exactly when it is empty, and otherwise it is a valid term |
| RecipeSearchService.NormalizedPieces | app/services/recipe_search_service.rb:47-49 | every non-blank normalized piece of comma-free fields is a valid term |
| RecipeSearchService.TermsNormal | app/services/recipe_search_service.rb:48-50 | strip and downcase leave valid terms unchanged, and no term is blank |
| RecipeSearchService.JoinedTermsNotBlank | app/services/recipe_search_service.rb:44 | a non-empty list of terms joined with "," is not blank |
| RecipeSearchService.ParseJoinedTerms | app/services/recipe_search_service.rb:43-51 | valid terms joined with "," parse back to the same list, in order |
| RecipeSearchService.ParseIdempotent | app/services/recipe_search_service.rb:43-51 | parsing the comma-join of the parsed terms gives the same terms |
| RecipeSearchService.NormalizeIgnoresCase | app/services/recipe_search_service.rb:47-49 | the stripped, lower-cased comma pieces of a text do not depend on its case |
| RecipeSearchService.ParseIgnoresCase | app/services/recipe_search_service.rb:43-51 | the parse of a text equals the parse of its lower-cased form |
| RecipeSearchService.RelatedSymmetric | app/services/recipe_search_service.rb:61-63 | the two-way `include?` test is symmetric |
| RecipeSearchService.Related | app/services/recipe_search_service.rb:62 | the two-way `include?` test between a recipe ingredient and a term; see RelatedSymmetric and Text.ContainsAt |
| RecipeSearchService.TermMatches | app/services/recipe_search_service.rb:61-63 | the `any?` over recipe ingredients for one term; see MatchCountZero and MatchCountAll |
| RecipeSearchService.MatchCount | app/services/recipe_search_service.rb:57-66 | each term adds at most one, so the count is at most the number of terms |
| RecipeSearchService.MatchCountZero | app/services/recipe_search_service.rb:59-68 | the count is 0 exactly when no term matches any ingredient |
| RecipeSearchService.MatchCountAll | app/services/recipe_search_service.rb:59-66 | the count equals the number of terms exactly when every term matches |
| RecipeSearchService.MatchCountAppend | app/services/recipe_search_service.rb:59-66 | the count over two term lists adds up |
| RecipeSearchService.AddMatchingTerm | app/services/recipe_search_service.rb:59-66 | one more term that matches raises the count by exactly one |
| RecipeSearchService.AddMatchingTermCoverage | app/services/recipe_search_service.rb:59-73 | once a recipe matches, adding a term it matches never lowers its user coverage |
| RecipeSearchService.MatchCountPermutation | app/services/recipe_search_service.rb:59-66 | reordering the terms does not change the count |
| RecipeSearchService.CountMatches | app/services/recipe_search_service.rb:57-66 | the counting loop returns the match count of all terms |
| RecipeSearchService.UserCoverage | app/services/recipe_search_service.rb:73 | with at least one match, coverage lies in (0, 1] and is 1 exactly when every term matched |
| RecipeSearchService.CoverageMonotone | app/services/recipe_search_service.rb:73 | one more match and one more term never lower the coverage: (m + 1) / (t + 1) >= m / t |
| RecipeSearchService.RecipeEfficiency | app/services/recipe_search_service.rb:74 | efficiency is positive, and it is at most 1 exactly when there are no more matches than ingredients |
| RecipeSearchService.Score | app/services/recipe_search_service.rb:53-79 | the value of calculate_match_score; its properties are in ScoreCases, ScoreWithMatches, ScoreIgnoresIngredientCase and ScoreIgnoresTermOrder |
| RecipeSearchService.ScoreCases | app/services/recipe_search_service.rb:54-68 | nil or empty ingredients score 0; a non-zero score needs ingredients, terms and a matching term; no matching term scores 0 |
| RecipeSearchService.ScoreWithMatches | app/services/recipe_search_service.rb:56-78 | with matches, the score is the formula at (matches / ingredients, matches / terms), and the coverage lies in (0, 1] |
| RecipeSearchService.ScoreIgnoresIngredientCase | app/services/recipe_search_service.rb:56 | lower-casing a recipe's ingredients beforehand does not change its score |
| RecipeSearchService.ScoreIgnoresTermOrder | app/services/recipe_search_service.rb:59-78 | the order of the user's terms does not change a score |
| RecipeSearchService.SearchService.CalculateMatchScore | app/services/recipe_search_service.rb:53-79 | the method returns the score of the recipe against the service's terms |
| RecipeSearchService.MaxTimeSetting | app/services/recipe_search_service.rb:6 | the max time is absent exactly when the parameter is nil or blank |
| RecipeSearchService.MaxTimeSettingNumber | app/services/recipe_search_service.rb:6 | an integer passed as its decimal text becomes that max time, negative ones included |
| RecipeSearchService.MaxTimeSettingNotANumber | app/services/recipe_search_service.rb:6 | non-blank text that does not start with a number sets the max time to 0 rather than absent |
| RecipeSearchService.TimeFilter | app/services/recipe_search_service.rb:15-17 | every kept recipe comes from the input and is within the time limit |
| RecipeSearchService.WithinTime | app/services/recipe_search_service.rb:16 | the SQL condition `total_time <= max_time`, true when no max time is set |
| RecipeSearchService.TimeFilterKeeps | app/services/recipe_search_service.rb:15-17 | every input recipe within the time limit is kept |
| RecipeSearchService.TimeFilterAppend | app/services/recipe_search_service.rb:15-17 | the filter keeps input order: it distributes over concatenation |
| RecipeSearchService.TimeFilterOff | app/services/recipe_search_service.rb:15 | without a max time, nothing is filtered out |
| RecipeSearchService.ScoreAll | app/services/recipe_search_service.rb:26-29 | one scored entry per recipe in scope |
| RecipeSearchService.ScoreAllSnoc | app/services/recipe_search_service.rb:26-29 | scoring one more recipe appends its entry, which is the step of the map |
| RecipeSearchService.CandidatesExactly | app/services/recipe_search_service.rb:26-33 | a candidate is exactly a scope recipe paired with its own score, which is positive |
| RecipeSearchService.Candidates | app/services/recipe_search_service.rb:26-33 | the scored recipes with a positive score; characterized by CandidatesExactly |
| RecipeSearchService.RankedTop | app/services/recipe_search_service.rb:32-36 | every entry of a ranking is a scope recipe with its own positive score |
| RecipeSearchService.RankedInScope | app/services/recipe_search_service.rb:32-36 | a ranking has at most limit recipes, each from the scope with a positive score, in non-increasing score order |
| RecipeSearchService.RankedResults | app/services/recipe_search_service.rb:15-36 | results with terms: at most limit, each from the input, within the time limit, with a positive score, in non-increasing score order |
| RecipeSearchService.RankedCompleteInScope | app/services/recipe_search_service.rb:32-36 | a scope recipe that scores more than a returned one is returned too; a short ranking holds every positive-scoring scope recipe |
| RecipeSearchService.TopHoldsBetter | app/services/recipe_search_service.rb:33-35 | a scope recipe that scores more than some entry of a ranking is in the ranking |
| RecipeSearchService.ShortTopHoldsAll | app/services/recipe_search_service.rb:33-35 | a ranking shorter than limit holds every positive-scoring scope recipe |
| RecipeSearchService.RankedResultsComplete | app/services/recipe_search_service.rb:15-36 | nothing better is left out: a filtered recipe that scores more than a returned one is returned too; a short result holds every positive-scoring filtered recipe |
| RecipeSearchService.RecipeInTop | app/services/recipe_search_service.rb:33-35 | a positive-scoring recipe is in a ranking that is short or that holds a lower score |
| RecipeSearchService.UnscoredResults | app/services/recipe_search_service.rb:20-23 | with no terms: at most limit filtered recipes from the input, and with no max time exactly the first min(limit, n) recipes in input order |
| RecipeSearchService.SearchService.Call | app/services/recipe_search_service.rb:10-39 | limit defaults to 5; without terms, the first limit filtered recipes; with terms, the recipes of a top-limit ranking of the positively scored filtered recipes; results holds the answer |
| Ranking.Positive | app/services/recipe_search_service.rb:33 | keeps candidates from the input whose score is positive; with PositiveKeeps and PositiveAppend, exactly the positive ones, every copy, in input order |
| Ranking.PositiveKeeps | app/services/recipe_search_service.rb:33 | every positive candidate survives the selection |
| Ranking.PositiveAppend | app/services/recipe_search_service.rb:33 | the selection keeps input order and every copy: it distributes over concatenation |
| Ranking.SortedCons | app/services/recipe_search_service.rb:34 | an entry no lower than the head of a sorted list can go in front of it |
| Ranking.Insert | app/services/recipe_search_service.rb:34 | inserting into a sorted list keeps it sorted and adds exactly the one entry |
| Ranking.SortByScore | app/services/recipe_search_service.rb:34 | the result is in non-increasing score order and is a permutation of the input |
| Ranking.First | app/services/recipe_search_service.rb:35 | the first min(n, length) elements, as a prefix |
| Ranking.TopByScore | app/services/recipe_search_service.rb:34-35 | sorting then taking the first n gives a top-n ranking |
| Ranking.IsTop | app/services/recipe_search_service.rb:34-35 | what `sort_by { -score }.first(n)` may return: min(n, size) candidates, in non-increasing score order, none left out scoring above one taken; see TopProperties |
| Ranking.TopOfSorted | app/services/recipe_search_service.rb:34-35 | the first n of a sorted list are a top-n ranking of it |
| Ranking.SortedSuffixBelow | app/services/recipe_search_service.rb:34-35 | in a sorted list, nothing after position k scores more than anything before it |
| Ranking.Items | app/services/recipe_search_service.rb:36 | one item per entry, the entry's own, in the same order |
| Ranking.TopProperties | app/services/recipe_search_service.rb:33-35 | a ranking has at most n entries, all candidates, in non-increasing score order; a candidate scoring more than an entry is taken every time it occurs; a short ranking is all of the candidates |
| RecipesHelper.SearchPieces | app/helpers/recipes_helper.rb:5 | one piece per split field, each stripped, lower-case and comma-free, with blank pieces kept |
| RecipesHelper.IngredientMatchesSearch | app/helpers/recipes_helper.rb:2-11 | the answer is nil exactly when the query is nil or blank |
| RecipesHelper.AnyRelated | app/helpers/recipes_helper.rb:8-10 | some piece and the lower-cased ingredient contain one another |
| RecipesHelper.IngredientHighlightClasses | app/helpers/recipes_helper.rb:13-24 | neutral classes exactly for nil, green exactly for true, red exactly for false |
| RecipesHelper.HighlightDeterminesMatch | app/helpers/recipes_helper.rb:16-23 | the three class pairs are distinct, so the classes determine the match answer |
| RecipesHelper.MatchesSearchIgnoresCase | app/helpers/recipes_helper.rb:5-6 | neither the ingredient's case nor the query's case changes the answer |
| RecipesHelper.BlankPieceMatchesAll | app/helpers/recipes_helper.rb:5-10 | a blank piece between commas makes every ingredient match |
| RecipesHelper.IngredientMatchesItself | app/helpers/recipes_helper.rb:5-10 | a non-blank, comma-free ingredient searched by its own name matches |
| RecipesHelper.StrippedInside | app/helpers/recipes_helper.rb:5-9 | the lower-cased strip of a text occurs inside the lower-cased text |
| RecipesHelper.PiecesAreTerms | app/helpers/recipes_helper.rb:5 | with no blank piece, the helper's pieces are exactly the service's parsed terms |
| RecipesHelper.HighlightAgreesWithScore | app/helpers/recipes_helper.rb:8-10 | with no blank piece, some ingredient shows as matching exactly when the recipe's match count is positive |
| Text.LowerCharKeepsKind | app/services/recipe_search_service.rb:49 | downcase keeps spaces, strip characters and commas, and leaves no upper-case letter |
| Text.Lower | app/services/recipe_search_service.rb:49 | ASCII `downcase` character by character; see LowerFixedPoint and LowerIdempotent |
| Text.LowerAll | app/services/recipe_search_service.rb:56 | `map(&:downcase)`; see LowerAllIdempotent |
| Text.Blank | app/services/recipe_search_service.rb:44 | `blank?` on a string: empty or ASCII whitespace only; see BlankLower and BlankStripped |
| Text.Contains | app/services/recipe_search_service.rb:62 | `include?`; see ContainsAt |
| Text.Join | app/services/recipe_search_service.rb:47 | `Array#join(",")`, not called by the code; the inverse of split, used to state the parse round trip; see SplitJoin |
| Text.ToI | app/services/recipe_search_service.rb:6 | `to_i`: leading whitespace, an optional sign, then the leading digits, 0 without any; see ToIDecimalText |
| Text.LowerFixedPoint | app/services/recipe_search_service.rb:49 | downcase produces lower-case text and leaves lower-case text unchanged |
| Text.LowerIdempotent | app/services/recipe_search_service.rb:56 | downcasing twice is downcasing once |
| Text.LowerAllIdempotent | app/services/recipe_search_service.rb:56 | mapping downcase twice is mapping it once |
| Text.LowerSplits | app/services/recipe_search_service.rb:49 | downcase distributes over concatenation |
| Text.LowerKeepsComma | app/services/recipe_search_service.rb:49 | downcase introduces no comma |
| Text.LowerSlice | app/services/recipe_search_service.rb:49 | downcase commutes with taking a slice |
| Text.BlankLower | app/services/recipe_search_service.rb:44 | a text is blank exactly when its lower-cased form is |
| Text.FirstKept | app/services/recipe_search_service.rb:48 | the first position from i that strip keeps; everything before it is stripped |
| Text.LastKept | app/services/recipe_search_service.rb:48 | the end of the kept part; everything after it is stripped |
| Text.Strip | app/services/recipe_search_service.rb:48 | the result has no whitespace or NUL at either end and is no longer than the input |
| Text.StripKeepsMiddle | app/services/recipe_search_service.rb:48 | strip removes only strip characters, and only at the two ends |
| Text.StripNoComma | app/services/recipe_search_service.rb:48 | strip introduces no comma |
| Text.StripStripped | app/services/recipe_search_service.rb:48 | strip leaves stripped text unchanged |
| Text.FirstKeptLower | app/services/recipe_search_service.rb:48-49 | downcase does not move the start of the kept part |
| Text.LastKeptLower | app/services/recipe_search_service.rb:48-49 | downcase does not move the end of the kept part |
| Text.StripLower | app/services/recipe_search_service.rb:48-49 | strip and downcase commute |
| Text.BlankStrip | app/services/recipe_search_service.rb:48-50 | stripping blank text gives blank text |
| Text.BlankStripped | app/services/recipe_search_service.rb:48-50 | stripped text is blank exactly when it is empty |
| Text.ContainsAt | app/services/recipe_search_service.rb:62 | `include?` holds exactly when the needle is the slice at some position |
| Text.ContainsEmpty | app/helpers/recipes_helper.rb:9 | every text includes the empty string |
| Text.SplitFields | app/services/recipe_search_service.rb:47 | at least one field, none holding a comma |
| Text.DropTrailingEmpty | app/services/recipe_search_service.rb:47 | a prefix of the fields whose last field is not empty, and everything dropped is empty |
| Text.Split | app/services/recipe_search_service.rb:47 | the fields hold no comma, and the last one is not empty |
| Text.JoinHead | app/services/recipe_search_service.rb:47 | a comma-join starts with its first part |
| Text.JoinSplitFields | app/services/recipe_search_service.rb:47 | joining the fields of a text with commas gives the text back |
| Text.SplitFieldsAfterPlainPrefix | app/services/recipe_search_service.rb:47 | a comma-free prefix joins the first field |
| Text.SplitFieldsJoin | app/services/recipe_search_service.rb:47 | the fields of comma-free parts joined with commas are the parts |
| Text.SplitJoin | app/services/recipe_search_service.rb:47 | split undoes join when no part holds a comma and the last part is not empty |
| Text.SplitFieldsCons | app/services/recipe_search_service.rb:47 | a comma opens a new field, and any other character joins the first field |
| Text.SplitFieldsLower | app/services/recipe_search_service.rb:47-49 | the fields of the lower-cased text are the lower-cased fields |
| Text.SplitFieldsLowerStep | app/services/recipe_search_service.rb:47-49 | lower-casing one more leading character keeps the fields lower-cased |
| Text.LowerAllCons | app/services/recipe_search_service.rb:56 | mapping downcase distributes over a leading element |
| Text.SplitFieldsLowerJoin | app/services/recipe_search_service.rb:47-49 | lower-casing a character that joins the first field keeps the fields lower-cased |
| Text.DropTrailingEmptyLower | app/services/recipe_search_service.rb:47-49 | dropping trailing empty fields commutes with downcase |
| Text.SplitLower | app/services/recipe_search_service.rb:47-49 | split(",") and downcase commute |
| Text.SkipSpace | app/services/recipe_search_service.rb:6 | `to_i` drops a prefix made only of whitespace and stops at the first non-space: the result is a suffix starting with a non-space |
| Text.LeadingDigits | app/services/recipe_search_service.rb:6 | `to_i` reads the longest all-digit prefix |
| Text.Digits | app/services/recipe_search_service.rb:6 | the decimal text of a natural number is non-empty and all digits |
| Text.DigitsValueOfDigits | app/services/recipe_search_service.rb:6 | reading back the digits of n gives n |
| Text.ToIDecimalText | app/services/recipe_search_service.rb:6 | `to_i` reads back the decimal text of every integer |
| Text.AllDigitsLeading | app/services/recipe_search_service.rb:6 | an all-digit text is its own leading digits |
| Scenarios.TimeShortcutExample | app/services/recipe_search_service.rb:15-23 | with max time 25 and no terms, recipes of 10, 25, 30 and 40 minutes give the 10- and 25-minute ones, in order |
| Scenarios.RepeatedTermExample | app/services/recipe_search_service.rb:56-77 | the terms "eggs", "eggs" against the single ingredient "Eggs" count 2 matches, so the formula receives efficiency 2 and coverage 1 |

## Left out

- The floating-point formula `(efficiency ** 0.7) * (coverage ** 0.3) * 100` and `round(2)` are not modelled; the formula is a parameter. So the fixture scores 46.35, 26.33, 61.56 and 66.67 are not stated.
- ActiveRecord is not modelled: `Recipe.all`, the SQL `where`, `limit` applied by the database, and the database's row order. An input sequence replaces them.
- A NULL `total_time`, which SQL `total_time <= ?` would exclude, is not modelled; every recipe has an integer total time.
- A negative `limit` is not modelled; the limit is a natural number. On the no-terms path it would go to the database's `LIMIT`, and otherwise `first` would raise.
- The Unicode behaviour of `downcase` (non-ASCII letters) and of `[[:space:]]` in `blank?` (non-ASCII spaces) is not modelled; both cover ASCII only. `strip`, which removes only NUL and ASCII whitespace, is modelled exactly.
- `to_i` reading underscores between digits (`"1_0"` is 10) is not modelled.
- RecipeSearchService.SearchService.Call: the order of tied scores is not fixed. Any non-increasing ordering is allowed, because `sort_by` is not stable. The model's own insertion sort is one admissible ordering.
- The concrete parse `"  EGGS , Flour  , , BUTTER "` giving `["eggs","flour","butter"]` is not stated as a lemma of its own. The general lemmas cover each step: `ParseKeepsPieces` and `RejectBlankKeeps` keep every non-blank piece, `RejectBlankSkips` and `RejectBlankAppend` drop blank pieces and keep order, and `NormalizedPiece` strips and lower-cases each piece.
- The import service, the seed script, the controller with its pagination, and the model's wrappers around the service are not part of this model.
