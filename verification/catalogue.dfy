/** The records the remote recipe catalogue returns, and its replies as values.
    A reply is either `Unavailable` (the request or the JSON parsing threw) or the
    collection field of the JSON body, which may be `null` or absent (`None`). */
module Catalogue {
  import opened Options

  /** One catalogue meal. `strTags` and `strYoutube` may be null or absent. Ingredient and
      measure slot n (`strIngredient<n>`, `strMeasure<n>`, n = 1, 2, ...) is at index n - 1;
      a slot beyond the end of the sequence is an absent property. */
  datatype Recipe = Recipe(
    idMeal: string,
    strMeal: string,
    strCategory: string,
    strArea: string,
    strMealThumb: string,
    strTags: Option<string>,
    strInstructions: string,
    strYoutube: Option<string>,
    ingredients: seq<Option<string>>,
    measures: seq<Option<string>>)

  /** An entry of the category listing: only the identifier is used. */
  datatype MealSummary = MealSummary(idMeal: string, strMeal: string, strMealThumb: string)

  /** A reply whose JSON body holds one collection field (`meals` or `categories`). */
  datatype Reply<T> = Unavailable | Received(items: Option<seq<T>>)

  /** The catalogue as seen by the front end: the four request shapes it issues. The URLs are
      built from the raw strings, so each request is a function of the raw string. */
  datatype Catalogue = Catalogue(
    searchByName: string -> Reply<Recipe>,
    filterByCategory: string -> Reply<MealSummary>,
    lookupById: string -> Reply<Recipe>,
    listCategories: Reply<string>)

  /** JavaScript truthiness of an optional string: present and not empty. */
  predicate Truthy(o: Option<string>) {
    o.Some? && |o.value| > 0
  }

  /** `meals?.[0]`: the first meal, or nothing when `meals` is null, absent or empty. */
  function FirstMeal(meals: Option<seq<Recipe>>): (r: Option<Recipe>)
    ensures r.Some? <==> meals.Some? && |meals.value| > 0
    ensures r.Some? ==> r.value == meals.value[0]
  {
    if meals.Some? && |meals.value| > 0 then Some(meals.value[0]) else None
  }
}
