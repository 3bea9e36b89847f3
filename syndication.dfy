/** The parsed feed as the syndication library hands it over: only the getters the
    connector calls, each of which may return `null` (`None`). A `java.util.Date` is its
    count of milliseconds since the epoch. */
module Syndication {
  import opened Wrappers

  type EpochMillis = int

  datatype SyndCategory = SyndCategory(name: Option<string>)

  datatype SyndContent = SyndContent(value: Option<string>)

  datatype SyndEntry = SyndEntry(
    title: Option<string>,
    link: Option<string>,
    description: Option<SyndContent>,
    publishedDate: Option<EpochMillis>,
    updatedDate: Option<EpochMillis>,
    author: Option<string>,
    /** The category list, itself possibly null and possibly holding null elements. */
    categories: Option<seq<Option<SyndCategory>>>,
    uri: Option<string>)

  datatype SyndFeed = SyndFeed(
    title: Option<string>,
    description: Option<string>,
    link: Option<string>,
    publishedDate: Option<EpochMillis>,
    entries: seq<SyndEntry>)
}
