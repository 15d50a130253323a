/** The records the content store keeps and the search returns. */
module Types {

  /** An optional value: a field that may be absent, or a lookup that may miss. */
  datatype Option<T> = None | Some(value: T)

  /** Metadata extracted from a page; every field is present or absent on its own. */
  datatype URLMetadata = URLMetadata(
    description: Option<string>,
    keywords: Option<seq<string>>,
    author: Option<string>,
    lastModified: Option<string>)

  /** A fetched page: its url (the cache key), title, extracted text, metadata and fetch time in milliseconds. */
  datatype URLContent = URLContent(
    url: string,
    title: string,
    content: string,
    metadata: URLMetadata,
    timestamp: int)

  /** One search hit: the trimmed snippet, its score and the snippet wrapped in ellipses. */
  datatype SearchResult = SearchResult(
    content: string,
    relevance: int,
    context: string)
}
