/** The records of the page: an entry, a topic page, and the user's options. */
module Types {
  import opened Wrappers
  import opened Dates

  /**
   * One entry of a topic. Besides the declared `Entry` fields this carries
   * `isFavorite` and `authorSlug`, which extraction also fills in.
   */
  datatype Entry = Entry(
    id: int,
    content: string,
    entryDate: DateTime,
    author: string,
    authorId: int,
    authorAvatar: Option<string>,
    isPinned: bool,
    isPinnedOnProfile: bool,
    isFavorite: bool,
    authorSlug: string,
    favoriteCount: int,
    commentCount: int)

  /** One page of a topic: its entries in page order and the page cursor. */
  datatype Topic = Topic(entries: seq<Entry>, currentPage: int, pageCount: int)

  /** The three feature switches read once at start-up. */
  datatype YesilOptions = YesilOptions(
    fetchEntriesDynamically: bool,
    updateCurrentEntries: bool,
    highlightChanges: bool)

  /** The orders a topic can be listed in; `Historical` is the `undefined` member, the default order. */
  datatype Sort = Popular | Nice | DailyNice | Historical

  /** The `a` query parameter that names each order; the historical order has none. */
  function SortName(s: Sort): Option<string> {
    match s
    case Popular => Some("popular")
    case Nice => Some("nice")
    case DailyNice => Some("dailynice")
    case Historical => None
  }
}
