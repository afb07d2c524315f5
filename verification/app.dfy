/** The top-level page: its session state and the transitions the page performs on it.
    Each catalogue request is answered by the `Catalogue` value passed in; an asynchronous
    operation is modelled by the state it leaves once every awaited request has settled. */
module App {
  import opened Options
  import opened Seqs
  import opened Text
  import opened Catalogue
  import RecentSearches

  /** The page's state hooks. `selectedCategory == ""` means no category is selected. */
  datatype Session = Session(
    search: string,
    recipes: seq<Recipe>,
    loading: bool,
    selectedRecipe: Option<Recipe>,
    categories: seq<string>,
    selectedCategory: string,
    recentSearches: seq<string>,
    featuredRecipes: seq<Recipe>)

  /** The state of the first render. */
  const Initial: Session := Session("", [], false, None, [], "", [], [])

  /** The dish names searched for on mount to fill the featured row. */
  const FeaturedDishes: seq<string> := ["Tandoori chicken", "Pizza Express Margherita", "Vegan Chocolate Cake"]

  // ---------------------------------------------------------------------------------------
  // What the page shows, as a function of the state

  /** The home button in the header. */
  predicate ShowsHomeButton(s: Session) {
    |s.search| > 0 || |s.recipes| > 0 || |s.selectedCategory| > 0
  }

  /** The featured-recipes section. */
  predicate ShowsFeatured(s: Session) {
    |s.search| == 0 && |s.recipes| == 0
  }

  /** The "No recipes found" panel. */
  predicate ShowsNoResults(s: Session) {
    |s.recipes| == 0 && !s.loading && |s.search| > 0
  }

  // ---------------------------------------------------------------------------------------
  // Returning home

  /** The home button: clears the query, the results, the category and the open recipe. */
  function ResetToHome(s: Session): (r: Session)
    ensures r.search == "" && r.recipes == [] && r.selectedCategory == "" && r.selectedRecipe == None
    ensures r.recentSearches == s.recentSearches && r.categories == s.categories
    ensures r.featuredRecipes == s.featuredRecipes && r.loading == s.loading
  {
    s.(search := "", recipes := [], selectedCategory := "", selectedRecipe := None)
  }

  /** After returning home the featured section is back, the home button is gone, and pressing
      it again changes nothing. */
  lemma ResetToHomeReturnsHome(s: Session)
    ensures ShowsFeatured(ResetToHome(s)) && !ShowsHomeButton(ResetToHome(s))
    ensures !ShowsNoResults(ResetToHome(s))
    ensures ResetToHome(ResetToHome(s)) == ResetToHome(s)
  {
  }

  // ---------------------------------------------------------------------------------------
  // Loading on mount

  /** `data.categories.map(cat => cat.strCategory)`: a null or absent field throws, and a
      failure leaves the categories as they were. */
  function LoadCategories(s: Session, c: Catalogue): (r: Session)
    ensures r.categories == (if c.listCategories.Received? && c.listCategories.items.Some?
                             then c.listCategories.items.value else s.categories)
    ensures r.(categories := s.categories) == s
  {
    match c.listCategories
    case Received(Some(names)) => s.(categories := names)
    case _ => s
  }

  /** `Promise.all` over the featured searches, each yielding `data.meals?.[0]`: one unavailable
      reply fails the whole batch; a null, absent or empty `meals` yields `undefined`. */
  function FeaturedPicks(replies: seq<Reply<Recipe>>): (r: Option<seq<Option<Recipe>>>)
    ensures r.None? <==> exists i :: 0 <= i < |replies| && replies[i].Unavailable?
    ensures r.Some? ==> |r.value| == |replies|
    ensures r.Some? ==> forall i :: 0 <= i < |replies| ==> r.value[i] == FirstMeal(replies[i].items)
    decreases |replies|
  {
    if |replies| == 0 then Some([])
    else match replies[0]
      case Unavailable => None
      case Received(meals) =>
        match FeaturedPicks(replies[1..])
        case None => None
        case Some(rest) => Some([FirstMeal(meals)] + rest)
  }

  /** `filter(Boolean)` on the picks: the recipes that were found, in dish order. */
  function Present(picks: seq<Option<Recipe>>): (r: seq<Recipe>)
    ensures |r| == |Filter(picks, IsSome)| <= |picks|
    ensures forall k :: 0 <= k < |r| ==> Filter(picks, IsSome)[k] == Some(r[k])
    ensures forall i :: 0 <= i < |picks| && picks[i].Some? ==> picks[i].value in r
    ensures SelectedBy(Wrapped(r), picks, Positions(picks, IsSome))
    ensures forall i :: 0 <= i < |picks| ==> (picks[i].Some? <==> i in Positions(picks, IsSome))
  {
    var kept := Filter(picks, IsSome);
    var r := seq(|kept|, k requires 0 <= k < |kept| => kept[k].value);
    UnwrappedPicks(picks, kept, r);
    r
  }

  /** The values unwrapped from the kept picks rewrap to them, so they stand at the positions
      of the picks that hold a recipe, in order. */
  lemma UnwrappedPicks(picks: seq<Option<Recipe>>, kept: seq<Option<Recipe>>, r: seq<Recipe>)
    requires kept == Filter(picks, IsSome)
    requires |r| == |kept| && forall k :: 0 <= k < |kept| ==> kept[k].Some? && r[k] == kept[k].value
    ensures SelectedBy(Wrapped(r), picks, Positions(picks, IsSome))
    ensures forall i :: 0 <= i < |picks| && picks[i].Some? ==> picks[i].value in r
  {
    assert Wrapped(r) == kept;
    FilterSelectsPositions(picks, IsSome);
    UnwrappedPicksComplete(picks, kept, r);
  }

  /** Every found recipe is among the unwrapped values. */
  lemma UnwrappedPicksComplete(picks: seq<Option<Recipe>>, kept: seq<Option<Recipe>>, r: seq<Recipe>)
    requires kept == Filter(picks, IsSome)
    requires |r| == |kept| && forall k :: 0 <= k < |kept| ==> kept[k].Some? && r[k] == kept[k].value
    ensures forall i :: 0 <= i < |picks| && picks[i].Some? ==> picks[i].value in r
  {
    forall i | 0 <= i < |picks| && picks[i].Some? ensures picks[i].value in r {
      assert IsSome(picks[i]);
      var k :| 0 <= k < |kept| && kept[k] == picks[i];
      assert r[k] == picks[i].value;
    }
  }

  /** Each recipe wrapped back into a present optional value. */
  function Wrapped(rs: seq<Recipe>): (os: seq<Option<Recipe>>)
    ensures |os| == |rs|
    ensures forall k :: 0 <= k < |rs| ==> os[k] == Some(rs[k])
  {
    seq(|rs|, k requires 0 <= k < |rs| => Some(rs[k]))
  }

  /** The replies to the featured searches, in dish order. */
  function FeaturedReplies(c: Catalogue): (replies: seq<Reply<Recipe>>)
    ensures |replies| == |FeaturedDishes|
    ensures forall i :: 0 <= i < |FeaturedDishes| ==> replies[i] == c.searchByName(FeaturedDishes[i])
  {
    seq(|FeaturedDishes|, i requires 0 <= i < |FeaturedDishes| => c.searchByName(FeaturedDishes[i]))
  }

  /** The featured row after mount: on failure nothing changes; otherwise it holds the first
      meal of every dish search that found one, in dish order, and nothing else changes. */
  function LoadFeatured(s: Session, c: Catalogue): (r: Session)
    ensures r.(featuredRecipes := s.featuredRecipes) == s
    ensures |r.featuredRecipes| <= |FeaturedDishes| || r.featuredRecipes == s.featuredRecipes
    ensures FeaturedPicks(FeaturedReplies(c)).None? ==> r == s
    ensures FeaturedPicks(FeaturedReplies(c)).Some? ==>
      forall i :: 0 <= i < |FeaturedDishes| && FirstMeal(FeaturedReplies(c)[i].items).Some? ==>
        FirstMeal(FeaturedReplies(c)[i].items).value in r.featuredRecipes
    ensures FeaturedPicks(FeaturedReplies(c)).Some? ==>
      r.featuredRecipes == Present(FeaturedPicks(FeaturedReplies(c)).value)
  {
    match FeaturedPicks(FeaturedReplies(c))
    case None => s
    case Some(picks) => s.(featuredRecipes := Present(picks))
  }

  /** The effect run once on mount: only the category list and the featured row are filled;
      the page starts with no search, no results, nothing loading and no recent searches. */
  function Mount(c: Catalogue): (r: Session)
    ensures r.(categories := Initial.categories, featuredRecipes := Initial.featuredRecipes) == Initial
    ensures r.categories == (if c.listCategories.Received? && c.listCategories.items.Some?
                             then c.listCategories.items.value else [])
    ensures FeaturedPicks(FeaturedReplies(c)).Some? ==>
      r.featuredRecipes == Present(FeaturedPicks(FeaturedReplies(c)).value)
    ensures FeaturedPicks(FeaturedReplies(c)).None? ==> r.featuredRecipes == []
  {
    LoadFeatured(LoadCategories(Initial, c), c)
  }

  // ---------------------------------------------------------------------------------------
  // Searching

  /** One by-identifier lookup as the category branch uses it. `data.meals[0]` throws on a
      null `meals`; an empty `meals` gives `undefined`, on which the name filter then throws.
      Either way, like an unavailable reply, the lookup yields no recipe and the search fails. */
  function LookedUp(reply: Reply<Recipe>): (r: Option<Recipe>)
    ensures r.Some? <==> reply.Received? && reply.items.Some? && |reply.items.value| > 0
    ensures r.Some? ==> r.value == reply.items.value[0]
  {
    match reply
    case Unavailable => None
    case Received(meals) => FirstMeal(meals)
  }

  /** The fan-out of lookups joined by `Promise.all`: it succeeds only when every lookup does,
      and then holds one recipe per listed identifier, in listing order. */
  function LookupAll(listing: seq<MealSummary>, lookup: string -> Reply<Recipe>): (r: Option<seq<Recipe>>)
    ensures r.Some? <==> forall i :: 0 <= i < |listing| ==> LookedUp(lookup(listing[i].idMeal)).Some?
    ensures r.Some? ==> |r.value| == |listing|
    ensures r.Some? ==> forall i :: 0 <= i < |listing| ==> Some(r.value[i]) == LookedUp(lookup(listing[i].idMeal))
    decreases |listing|
  {
    if |listing| == 0 then Some([])
    else match LookedUp(lookup(listing[0].idMeal))
      case None => None
      case Some(first) =>
        match LookupAll(listing[1..], lookup)
        case None => None
        case Some(rest) => Some([first] + rest)
  }

  /** The client-side post-filter: the lower-cased name contains the lower-cased raw term. */
  function NameMatches(term: string): Recipe -> bool {
    (recipe: Recipe) => ContainsIgnoringCase(recipe.strMeal, term)
  }

  /** The category branch: list the category, look every listed identifier up, keep the recipes
      whose name matches. `None` when any step throws (a null listing throws at `.map`). */
  function CategorySearch(term: string, category: string, c: Catalogue): (r: Option<seq<Recipe>>)
    ensures r.Some? ==> forall k :: 0 <= k < |r.value| ==> NameMatches(term)(r.value[k])
  {
    match c.filterByCategory(category)
    case Unavailable => None
    case Received(None) => None
    case Received(Some(listing)) =>
      match LookupAll(listing, c.lookupById)
      case None => None
      case Some(full) => Some(Filter(full, NameMatches(term)))
  }

  /** The name branch: the catalogue's `meals`, or `[]` when it is null or absent. */
  function NameSearch(term: string, c: Catalogue): (r: Option<seq<Recipe>>)
    ensures r.None? <==> c.searchByName(term).Unavailable?
    ensures r.Some? && c.searchByName(term).items.Some? ==> r.value == c.searchByName(term).items.value
    ensures r.Some? && c.searchByName(term).items.None? ==> r.value == []
  {
    match c.searchByName(term)
    case Unavailable => None
    case Received(meals) => Some(meals.GetOr([]))
  }

  /** The awaited part of a search: a category selected (a non-empty string) picks the
      category branch. `None` is the catch path. */
  function Fetch(term: string, category: string, c: Catalogue): (r: Option<seq<Recipe>>)
    ensures |category| == 0 ==> (r.None? <==> c.searchByName(term).Unavailable?)
    ensures |category| > 0 && r.Some? ==> forall k :: 0 <= k < |r.value| ==> NameMatches(term)(r.value[k])
    ensures |category| > 0 && !(c.filterByCategory(category).Received? && c.filterByCategory(category).items.Some?) ==> r.None?
  {
    if |category| > 0 then CategorySearch(term, category, c) else NameSearch(term, c)
  }

  /** The synchronous start of a submission: a blank term returns at once, any other term
      sets the loading flag before the first request. */
  function StartSearch(s: Session): (r: Session)
    ensures IsBlank(s.search) ==> r == s
    ensures !IsBlank(s.search) ==> r.loading && r.(loading := s.loading) == s
  {
    if IsBlank(s.search) then s else s.(loading := true)
  }

  /** The settled end of a submission: on success the results and the recent list are
      replaced; in every case the loading flag is cleared (`finally`). */
  function FinishSearch(s: Session, outcome: Option<seq<Recipe>>): (r: Session)
    ensures !r.loading
    ensures outcome.None? ==> r == s.(loading := false)
    ensures outcome.Some? ==> r.recipes == outcome.value
    ensures outcome.Some? ==> r.recentSearches == RecentSearches.Record(s.recentSearches, s.search)
    ensures r.(recipes := s.recipes, recentSearches := s.recentSearches, loading := s.loading) == s
  {
    match outcome
    case None => s.(loading := false)
    case Some(found) =>
      s.(recipes := found, recentSearches := RecentSearches.Record(s.recentSearches, s.search), loading := false)
  }

  /** Submitting the search form. */
  function SearchRecipes(s: Session, c: Catalogue): (r: Session)
    ensures IsBlank(s.search) ==> r == s
    ensures !IsBlank(s.search) ==> !r.loading
    ensures r.(recipes := s.recipes, recentSearches := s.recentSearches, loading := s.loading) == s
    ensures r.recentSearches == s.recentSearches || r.recentSearches == RecentSearches.Record(s.recentSearches, s.search)
  {
    if IsBlank(s.search) then s
    else FinishSearch(StartSearch(s), Fetch(s.search, s.selectedCategory, c))
  }

  /** A blank or whitespace-only term is a no-op: no field changes and no request is made. */
  lemma SearchBlankIsNoOp(s: Session, c: Catalogue)
    requires AllWhitespace(s.search)
    ensures SearchRecipes(s, c) == s
  {
    BlankIffAllWhitespace(s.search);
  }

  /** After a successful search the recent list has at most five entries, starts with the raw
      submitted term, holds it once, and the other entries are the previous ones without it. */
  lemma SearchRecordsTerm(s: Session, c: Catalogue)
    requires !IsBlank(s.search)
    requires Fetch(s.search, s.selectedCategory, c).Some?
    ensures var r := SearchRecipes(s, c).recentSearches;
      && 1 <= |r| <= RecentSearches.Limit && r[0] == s.search && multiset(r)[s.search] == 1
      && r[1..] == Take(RecentSearches.Without(s.recentSearches, s.search), RecentSearches.Limit - 1)
  {
  }

  /** With no category the results are exactly the catalogue's `meals`, or `[]` when that is
      null or absent; a search with no results still records the term. */
  lemma {:induction false} SearchByName(s: Session, c: Catalogue)
    requires !IsBlank(s.search) && s.selectedCategory == ""
    requires c.searchByName(s.search).Received?
    ensures SearchRecipes(s, c).recipes == c.searchByName(s.search).items.GetOr([])
    ensures SearchRecipes(s, c).recentSearches == RecentSearches.Record(s.recentSearches, s.search)
    ensures !SearchRecipes(s, c).loading
  {
  }

  /** A name search the catalogue answers with a null `meals` leaves no results, records the
      term first in the recent list, and shows the "No recipes found" panel. */
  lemma ZeroResultSearch(s: Session, c: Catalogue)
    requires !IsBlank(s.search) && s.selectedCategory == ""
    requires c.searchByName(s.search) == Received(None)
    ensures SearchRecipes(s, c).recipes == []
    ensures SearchRecipes(s, c).recentSearches[0] == s.search
    ensures ShowsNoResults(SearchRecipes(s, c))
  {
  }

  /** With a category selected and every request answered, the results are the looked-up
      recipes, in listing order, whose lower-cased name contains the lower-cased term: an
      order-preserving subsequence that keeps position i exactly when recipe i matches. */
  lemma SearchByCategory(s: Session, c: Catalogue, listing: seq<MealSummary>)
    requires !IsBlank(s.search) && |s.selectedCategory| > 0
    requires c.filterByCategory(s.selectedCategory) == Received(Some(listing))
    requires forall i :: 0 <= i < |listing| ==> LookedUp(c.lookupById(listing[i].idMeal)).Some?
    ensures var full := LookupAll(listing, c.lookupById).value;
      var keep := Positions(full, NameMatches(s.search));
      && |full| == |listing|
      && (forall i :: 0 <= i < |listing| ==> Some(full[i]) == LookedUp(c.lookupById(listing[i].idMeal)))
      && SelectedBy(SearchRecipes(s, c).recipes, full, keep)
      && (forall i :: 0 <= i < |full| ==> (i in keep <==> ContainsIgnoringCase(full[i].strMeal, s.search)))
    ensures SearchRecipes(s, c).recentSearches == RecentSearches.Record(s.recentSearches, s.search)
  {
    var full := LookupAll(listing, c.lookupById).value;
    CategorySearchSettles(s, c, listing);
    FilterSelectsPositions(full, NameMatches(s.search));
  }

  /** With every lookup answered, the search settles with the name-filtered lookups. */
  lemma CategorySearchSettles(s: Session, c: Catalogue, listing: seq<MealSummary>)
    requires !IsBlank(s.search) && |s.selectedCategory| > 0
    requires c.filterByCategory(s.selectedCategory) == Received(Some(listing))
    requires LookupAll(listing, c.lookupById).Some?
    ensures SearchRecipes(s, c).recipes == Filter(LookupAll(listing, c.lookupById).value, NameMatches(s.search))
    ensures SearchRecipes(s, c).recentSearches == RecentSearches.Record(s.recentSearches, s.search)
  {
    var found := Filter(LookupAll(listing, c.lookupById).value, NameMatches(s.search));
    assert Fetch(s.search, s.selectedCategory, c) == Some(found);
  }

  /** A failed request anywhere in the search (the catalogue unreachable, a null category
      listing, one failed lookup) leaves results and recent searches as they were; only the
      loading flag is cleared. */
  lemma SearchFailureKeepsState(s: Session, c: Catalogue)
    requires !IsBlank(s.search)
    requires Fetch(s.search, s.selectedCategory, c).None?
    ensures SearchRecipes(s, c) == s.(loading := false)
  {
  }

  /** A category search fails as a whole when the listing is unavailable or null. */
  lemma CategoryListingFailure(s: Session, c: Catalogue)
    requires |s.selectedCategory| > 0
    requires c.filterByCategory(s.selectedCategory).Unavailable? || c.filterByCategory(s.selectedCategory).items.None?
    ensures Fetch(s.search, s.selectedCategory, c).None?
  {
  }

  /** A category search fails as a whole when any single lookup fails: no partial results. */
  lemma CategoryLookupFailure(s: Session, c: Catalogue, listing: seq<MealSummary>, i: nat)
    requires |s.selectedCategory| > 0
    requires c.filterByCategory(s.selectedCategory) == Received(Some(listing))
    requires i < |listing| && LookedUp(c.lookupById(listing[i].idMeal)).None?
    ensures Fetch(s.search, s.selectedCategory, c).None?
  {
  }

  // ---------------------------------------------------------------------------------------
  // The session as a sequence of user events

  datatype Event =
    | Typed(text: string)             // the search input changes
    | Submitted(answers: Catalogue)   // the search form is submitted; the catalogue's replies to it
    | CategoryChosen(category: string) // a category button, "" for "All"
    | RecipeOpened(recipe: Recipe)    // a card is clicked
    | RecipeClosed                    // the detail overlay is closed
    | HomeClicked                     // the home button

  /** One user event. Categories and featured recipes are never touched after mount; only a
      submission touches the loading flag and the recent list, and only a submission or the
      home button replaces the results. */
  function Apply(s: Session, e: Event): (r: Session)
    ensures r.categories == s.categories && r.featuredRecipes == s.featuredRecipes
    ensures !e.Submitted? ==> r.loading == s.loading && r.recentSearches == s.recentSearches
    ensures !e.Submitted? && !e.HomeClicked? ==> r.recipes == s.recipes
  {
    match e
    case Typed(text) => s.(search := text)
    case Submitted(c) => SearchRecipes(s, c)
    case CategoryChosen(category) => s.(selectedCategory := category)
    case RecipeOpened(recipe) => s.(selectedRecipe := Some(recipe))
    case RecipeClosed => s.(selectedRecipe := None)
    case HomeClicked => ResetToHome(s)
  }

  /** A session: the events in order, each submission answered by its own catalogue replies. */
  function Run(s: Session, events: seq<Event>): Session
    decreases |events|
  {
    if |events| == 0 then s else Run(Apply(s, events[0]), events[1..])
  }

  /** What holds between events: nothing is loading, and the recent list is short, free of
      duplicates and free of blank terms. */
  ghost predicate Valid(s: Session) {
    && !s.loading
    && |s.recentSearches| <= RecentSearches.Limit
    && NoDuplicates(s.recentSearches)
    && forall k :: 0 <= k < |s.recentSearches| ==> !IsBlank(s.recentSearches[k])
  }

  lemma MountValid(c: Catalogue)
    ensures Valid(Mount(c))
  {
  }

  lemma ApplyPreservesValid(s: Session, e: Event)
    requires Valid(s)
    ensures Valid(Apply(s, e))
  {
    if e.Submitted? {
      SearchPreservesValid(s, e.answers);
    }
  }

  lemma SearchPreservesValid(s: Session, c: Catalogue)
    requires Valid(s)
    ensures Valid(SearchRecipes(s, c))
  {
    var r := SearchRecipes(s, c);
    if !IsBlank(s.search) {
      RecentUpdateValid(s.recentSearches, r.recentSearches, s.search);
    }
  }

  /** Keeping the recent list, or recording a non-blank term in it, keeps it short, free of
      duplicates and free of blank entries. */
  lemma RecentUpdateValid(prev: seq<string>, next: seq<string>, term: string)
    requires |prev| <= RecentSearches.Limit && NoDuplicates(prev)
    requires forall k :: 0 <= k < |prev| ==> !IsBlank(prev[k])
    requires !IsBlank(term)
    requires next == prev || next == RecentSearches.Record(prev, term)
    ensures |next| <= RecentSearches.Limit && NoDuplicates(next)
    ensures forall k :: 0 <= k < |next| ==> !IsBlank(next[k])
  {
    if next != prev {
      RecentSearches.RecordNoDuplicates(prev, term);
      RecentSearches.RecordDrawsFromPrevious(prev, term);
    }
  }

  /** Every session that starts from a valid state stays valid, whatever the user does. */
  lemma {:induction false} RunPreservesValid(s: Session, events: seq<Event>)
    requires Valid(s)
    ensures Valid(Run(s, events))
    decreases |events|
  {
    if |events| > 0 {
      ApplyPreservesValid(s, events[0]);
      RunPreservesValid(Apply(s, events[0]), events[1..]);
    }
  }
}
