/**
 * The shapes the Google Scholar client returns, reduced to the keys the two
 * scripts read. The client itself (`search_author_id`, `fill`) is not part of
 * this model: what one call produced is an input value.
 */
module Scholarly {

  import opened Wrappers
  import opened Values

  /**
   * One entry of an author's `publications` list. Each field is `None` when
   * its key is absent from the entry, and `Some(v)` when present (even with
   * `v == Null`).
   */
  datatype Publication = Publication(
    pubId: Option<Value>,
    authorPubId: Option<Value>,
    bib: Option<map<Value, Value>>,
    numCitations: Option<Value>)

  /**
   * A filled author record: its `publications` list when that key is present,
   * and whether the record has any other key.
   */
  datatype Author = Author(publications: Option<seq<Publication>>, hasOtherKeys: bool)

  /** Python truthiness of the author dict: it is false only when the dict is empty. */
  predicate AuthorTruthy(a: Author) {
    a.publications.Some? || a.hasOtherKeys
  }

  /** What one lookup-and-fill call did: it raised, or it returned an author record. */
  datatype FetchOutcome = FetchRaised | Fetched(author: Author)
}
