/** The scraped symbol records that every script of the pipeline reads and
    rewrites. */
module Dataset {

  /** One symbol card: its title, the ideology labels it is associated with
      (the "Ideology" field), its location chips (opaque to the pipeline) and
      its image paths. */
  datatype SymbolRecord = SymbolRecord(
    title: string,
    ideology: seq<string>,
    location: seq<string>,
    images: seq<string>)

  /** Python's `len(xs) == len(set(xs))`. */
  predicate NoDuplicates<T(==)>(xs: seq<T>) {
    forall i, j :: 0 <= i < j < |xs| ==> xs[i] != xs[j]
  }
}
