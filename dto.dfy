/** The records the connector returns. Every field the source declares nullable is an
    `Option`; `categories` is never null, so it is a plain sequence. */
module Dto {
  import opened Wrappers

  datatype RssFeedItem = RssFeedItem(
    title: Option<string>,
    link: Option<string>,
    description: Option<string>,
    /** The publication date as ISO 8601 text. */
    publishedDate: Option<string>,
    author: Option<string>,
    categories: seq<string>,
    guid: Option<string>)

  datatype FeedMetadata = FeedMetadata(
    title: Option<string>,
    description: Option<string>,
    link: Option<string>,
    lastBuildDate: Option<string>)

  datatype RssFeedResult = RssFeedResult(
    items: seq<RssFeedItem>,
    totalItems: int,
    filteredItems: int,
    metadata: FeedMetadata)
}
