# SpiceTrail recipe search — a Dafny model

SpiceTrail is a React front end over a public recipe catalogue (TheMealDB). This project models
the logic inside its components, with the network abstracted into values:

- **App** (`app.dfy`): the page's session state (search text, selected category with `""`
  meaning none, results, loading flag, open recipe, categories, recent searches, featured
  recipes) and its transitions — submitting a search (blank-term guard, name branch,
  category branch with per-identifier lookups and a case-insensitive name post-filter,
  failure path), returning home, and the two loads run on mount. A `Catalogue` value answers
  the requests of one load or one submission: a reply is `Unavailable` (the request or the JSON parsing threw) or the
  collection field of the body, which may be null or absent. The page's events are folded
  over a session and a session invariant is proved for every event sequence.
- **Recent searches** (`recent.dfy`): dedup-and-promote, then keep five.
- **Recipe detail overlay** (`modal.dfy`): the ingredient list from twenty numbered
  ingredient/measure slots, the instruction steps split at `"\r\n"`, the optional sections.
- **Recipe card** (`card.dfy`): the at most two trimmed tag chips.
- Support: `text.dfy` (the string operations the components call: `trim`, `toLowerCase`,
  `includes` and `split`, plus `join` to state the round trips of `split`), `seqs.dfy` (order-preserving `filter`, `slice(0, n)`),
  `catalogue.dfy` (the recipe record and catalogue replies), `options.dfy`.

Behaviour of the code worth knowing:

- A failed search does **not** empty the result list: `recipes` and `recentSearches` keep
  their previous values and only `loading` is cleared (src/App.tsx:91-95).
- The recent list is updated only after a search whose requests all succeeded, not after
  every attempt (src/App.tsx:87-90 sit inside the `try`).
- In the category branch the result order is deterministic: `Promise.all` keeps the order of
  the category listing.
- A failed category load leaves the category list as it was (empty on mount).
- The post-filter lower-cases the raw, untrimmed term, and the recent list stores it raw.

## Model

| member | source | states |
|---|---|---|
| App.ResetToHome | src/App.tsx:24-29 | clears search, results, selected category and open recipe; recent searches, categories, featured recipes and the loading flag are untouched |
| App.ResetToHomeReturnsHome | src/App.tsx:24-29 | after returning home the featured section shows, the home button is hidden, no "No recipes found" panel, and a second reset changes nothing |
| App.LoadCategories | src/App.tsx:46-54 | the category names of a usable reply replace the list; an unavailable or null reply leaves it; no other field changes |
| App.FeaturedPicks | src/App.tsx:33-39 | the batch fails exactly when one featured search is unavailable; otherwise one `meals?.[0]` per dish, in dish order |
| Catalogue.FirstMeal | src/App.tsx:37 | `meals?.[0]` is present iff `meals` is non-null and non-empty, and then is its first meal |
| App.Present | src/App.tsx:40 | `filter(Boolean)`: exactly the found recipes, as an order-preserving subsequence of the picks at the positions that hold a recipe |
| App.LoadFeatured | src/App.tsx:31-44 | a failed batch changes nothing; otherwise the featured list is exactly the found first meals, in dish order; only the featured field changes |
| App.Mount | src/App.tsx:56-59 | on mount only the category list and the featured row are filled, each from its own load; search, results, loading flag, open recipe, category and recent list keep their initial values |
| App.LookupAll | src/App.tsx:71-77 | the fan-out succeeds iff every lookup yields a recipe (an unavailable reply, a null or an empty `meals` fails it) and then holds lookup i's recipe at position i |
| App.LookedUp | src/App.tsx:73-75 | one lookup yields a recipe iff the request succeeds with a non-empty `meals`, and then it is `meals[0]` |
| App.CategorySearch | src/App.tsx:68-80 | every recipe of a category result matches the term case-insensitively |
| App.NameSearch | src/App.tsx:81-85 | fails iff the request fails; otherwise the catalogue's `meals` verbatim, or `[]` when null or absent |
| App.Fetch | src/App.tsx:68-85 | with no category the request fails iff the name search is unavailable; with a category every result matches the term and an unavailable or null listing fails it (the per-case lemmas carry the rest) |
| App.StartSearch | src/App.tsx:61-65 | a blank term returns the state unchanged; any other term sets `loading` and nothing else |
| App.FinishSearch | src/App.tsx:86-95 | `loading` ends false; on failure nothing else changes; on success results and recent list are replaced and nothing else changes |
| App.SearchRecipes | src/App.tsx:61-96 | blank term is a no-op; otherwise `loading` ends false; only results, recent list and `loading` can change; the recent list is kept or becomes the recorded one |
| App.SearchBlankIsNoOp | src/App.tsx:63 | a whitespace-only term leaves every field unchanged |
| App.SearchRecordsTerm | src/App.tsx:87-90 | after a successful search the recent list has 1..5 entries, starts with the raw term, holds it once, and continues with the previous list without it, cut to four |
| App.SearchByName | src/App.tsx:81-90 | with no category the results are exactly `meals` or `[]`, and the term is recorded even with zero results |
| App.ZeroResultSearch | src/App.tsx:210 | a null `meals` gives no results, records the term first and shows "No recipes found" |
| App.SearchByCategory | src/App.tsx:68-80 | with a category the results are the order-preserving subsequence of the looked-up recipes, in listing order, keeping position i iff its lower-cased name contains the lower-cased term |
| App.CategorySearchSettles | src/App.tsx:68-90 | when every lookup of a category listing answers, the results are the name-filtered lookups and the term is recorded |
| App.SearchFailureKeepsState | src/App.tsx:91-95 | when any request fails only `loading` changes, to false |
| App.Apply | src/App.tsx:104-223 | no event touches categories or featured recipes; only a submission touches the loading flag and recent list; only a submission or the home button replaces the results |
| App.CategoryListingFailure | src/App.tsx:69-72 | an unavailable or null category listing fails the whole search |
| App.CategoryLookupFailure | src/App.tsx:71-76 | one failed lookup fails the whole search: no partial results |
| App.MountValid | src/App.tsx:56-59 | the state after the mount loads satisfies the session invariant |
| App.ApplyPreservesValid | src/App.tsx:61-96 | each user event keeps the invariant: not loading, at most five recent entries, no duplicates, no blank entry |
| App.SearchPreservesValid | src/App.tsx:61-96 | a submission from a valid state, successful or failed, ends in a valid state |
| App.RecentUpdateValid | src/App.tsx:87-90 | keeping the recent list or recording a non-blank term keeps it short, duplicate-free and free of blank entries |
| App.RunPreservesValid | src/App.tsx:61-96 | every sequence of user events from a valid state ends in a valid state |
| RecentSearches.Without | src/App.tsx:88 | `prev.filter(s => s !== term)`: the term is gone, every entry comes from `prev`, every other entry of `prev` is kept |
| Seqs.Filter | src/App.tsx:88 | `filter` keeps only elements satisfying the test and keeps every element that does; FilterSelectsPositions carries the order |
| Seqs.Take | src/App.tsx:88 | `slice(0, n)` is a prefix of length min(n, length) |
| RecentSearches.Record | src/App.tsx:88 | 1..5 entries, the term first and exactly once, then the previous entries without the term, cut to four |
| RecentSearches.RecordKeepsOrder | src/App.tsx:88 | the entries after the first keep the previous list's relative order, keeping position i iff it differs from the term |
| RecentSearches.RecordNoDuplicates | src/App.tsx:88 | a duplicate-free list stays duplicate-free |
| RecentSearches.RecordDrawsFromPrevious | src/App.tsx:88 | every entry is the term or came from the previous list |
| RecentSearches.RecordIdempotent | src/App.tsx:88 | recording the same term twice in a row equals recording it once |
| RecentSearches.WithoutOfRecord | src/App.tsx:88 | removing the term from a recorded list leaves exactly the entries after its head |
| RecentSearches.RecordDistinguishesWhitespace | src/App.tsx:88 | "cake" and " cake" are separate entries |
| Text.Trim | src/App.tsx:63 | `trim` cuts exactly a whitespace prefix and suffix and leaves neither end whitespace |
| Text.Lower | src/App.tsx:79 | `toLowerCase` keeps the length and lower-cases each character in place (ASCII letters) |
| Text.BlankIffAllWhitespace | src/App.tsx:63 | `!s.trim()` holds iff every character is whitespace |
| Text.TrimIdempotent | src/components/RecipeCard.tsx:45 | trimming a trimmed string changes nothing |
| Text.IndexOf | src/App.tsx:79 | the leftmost occurrence, or none exactly when there is no occurrence |
| Text.ContainsIffOccurs | src/App.tsx:79 | `includes` holds iff the term occurs at some position; the empty term is contained everywhere |
| Text.ContainsIgnoringCase | src/App.tsx:79 | the name test holds iff the lower-cased term occurs somewhere in the lower-cased name |
| Text.ContainsIgnoringCaseIsCaseBlind | src/App.tsx:79 | the name match does not depend on the letter case of name or term |
| Text.SplitPiecesAvoidSeparator | src/components/RecipeModal.tsx:19 | no piece of a split contains the separator |
| Text.JoinSplit | src/components/RecipeModal.tsx:19 | joining the pieces with the separator restores the string |
| Text.SplitWithoutSeparator | src/components/RecipeModal.tsx:19 | a string without the separator is a single piece |
| Text.Split | src/components/RecipeModal.tsx:19 | `split` with a non-empty separator yields at least one piece; SplitPiecesAvoidSeparator, JoinSplit and SplitJoin carry the rest |
| Text.SplitJoin | src/components/RecipeCard.tsx:40 | with a one-character separator, separator-free pieces that join to a string are its split |
| RecipeModal.Ingredients | src/components/RecipeModal.tsx:11-16 | at most 20 entries, each with a non-empty ingredient and measure |
| RecipeModal.IngredientSlots | src/components/RecipeModal.tsx:11-16 | the entries come from strictly increasing slots in 1..20, copied verbatim, and slot n is listed iff both its ingredient and its measure are non-empty |
| RecipeModal.WhitespaceSlotIsListed | src/components/RecipeModal.tsx:16 | whitespace-only values are truthy, so their slot is listed untrimmed |
| RecipeModal.Steps | src/components/RecipeModal.tsx:18-20 | no more steps than pieces, and no step is all whitespace |
| RecipeModal.StepsArePieces | src/components/RecipeModal.tsx:18-20 | the steps are, in order and untrimmed, exactly the pieces of the `"\r\n"` split that are not all whitespace; the pieces rejoin to the instructions |
| RecipeModal.SingleStepWithoutSeparator | src/components/RecipeModal.tsx:19 | without `"\r\n"` (lone line feeds allowed) the text is one step, or none when blank |
| RecipeModal.View | src/components/RecipeModal.tsx:26-121 | tags badge iff `strTags` non-empty, video section iff `strYoutube` non-empty, steps numbered 1..n in order |
| RecipeCard.Tags | src/components/RecipeCard.tsx:38-45 | no chips for an absent or empty `strTags`; otherwise 1..2 chips, chip k the trimmed k-th comma piece |
| RecipeCard.TagsAreTrimmed | src/components/RecipeCard.tsx:45 | every chip is its own trim |
| RecipeCard.TagsWithoutComma | src/components/RecipeCard.tsx:40-45 | a non-empty tag string without a comma gives exactly one chip |
| RecipeCard.TagPiecesRejoin | src/components/RecipeCard.tsx:40 | the comma pieces rejoin to the tag string |
| RecipeCard.TagsKeepEmptyPieces | src/components/RecipeCard.tsx:40 | empty pieces are not dropped: `a,,b` shows `a` and the empty string |
| RecipeCard.SplitDoubleComma | src/components/RecipeCard.tsx:40 | the comma split of `a,,b` is `a`, an empty piece, `b` |

## Left out

- HTTP and JSON: requests, URL building (no encoding of the term) and parsing are not modelled; each reply is an input value, and a thrown fetch or parse is `Unavailable`.
- Concurrency: `Promise.all` and `async`/`await` are modelled as an order-preserving sequential map whose result is applied atomically; overlapping or stale submissions are not handled by the code and not modelled. Within one submission the same identifier always gets the same reply; each submission carries its own catalogue replies.
- React machinery (`useState`, `useEffect`, re-rendering, batching) is abstracted into pure state transitions.
- The recent-search chip click (src/App.tsx:147-149) is not modelled: it calls `searchRecipes` with the stale `search` value of the current closure, which depends on React's update semantics.
- src/components/CategoryFilter.tsx is presentation only (button highlighting); choosing a category is the `CategoryChosen` event.
- Layout, CSS classes, icons, image URLs and `console.error` logging are left out.
- Text.Lower: lower-cases ASCII letters only, not the full Unicode case mapping of `toLowerCase`.
- Text.IsWhitespace: a fixed set (the ECMAScript WhiteSpace and LineTerminator code points with the Unicode Zs space separators), not tied to a Unicode version.
- The `Recipe` type file is not part of this model; the record's fields are those the components read. `strMeal` and `strInstructions` are taken to be strings (a null there would throw in the source).
