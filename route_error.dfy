/** The errors the routing core throws, as values. */
module RouteErrors {

  datatype RouteError =
      /**
       * `notSupportedInRR(segment, char)`: a route segment of `routeId` contains `*`, `:` or `/`,
       * which React Router paths cannot express.
       */
    | UnsupportedCharacter(segment: string, routeId: string, character: char)
      /** `PrefixLookupTrie.add("")`: "Cannot add empty string to PrefixLookupTrie". */
    | EmptyTrieValue
}
