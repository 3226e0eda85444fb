/** A row of the `books` table, reduced to the columns the search logic reads or writes. */
module Catalog {
  import opened Wrappers

  /**
   * `relevanceScore` is not a column: `rankByRelevance` adds it to each
   * result; it is None until then.
   */
  datatype Book = Book(id: int, title: string, summary: string, content: string, relevanceScore: Option<int>)
}
