/** The records the match engine reads and produces. */
module Recipes {

  /** One row of the recipe corpus. `ingredients` and `directions` are the serialized display
      payloads, carried through unchanged; `ner` is the parsed list of normalised ingredient names. */
  datatype Recipe = Recipe(title: string, ingredients: string, directions: string, ner: seq<string>)

  /** A corpus row admitted for some combination of search terms, with the two columns the engine
      adds to it. `index` is the row's position in the corpus. */
  datatype Row = Row(index: nat, recipe: Recipe, matchedCount: nat, ingredientCount: nat)

  /** The four columns the engine returns for each result. */
  datatype Match = Match(title: string, ingredients: string, directions: string, matchedCount: nat)

  /** The coarse similarity filter: whether corpus row `index` is similar enough (cosine similarity
      of weighted term vectors at least 0.1) to the query made of `combination`. */
  type CoarseFilter = (seq<string>, nat) -> bool

  datatype SearchError = MissingColumn(name: string)

  datatype Result<T> = Ok(value: T) | Err(error: SearchError)
}
