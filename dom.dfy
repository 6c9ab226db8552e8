/**
 * The parts of the page's document the core reads and writes, as values.
 * Text that the browser would parse or serialise (inner HTML, attribute
 * values) is kept as the string that was written.
 */
module Dom {
  import opened Wrappers

  /** The `a.favorite-count` counter of an entry: its text and whether it is displayed. */
  datatype FavoriteCounter = FavoriteCounter(text: string, shown: bool)

  /**
   * One `li#entry-item` element: whether it is an `li`, its `data-*`
   * attributes under their dataset names (`data-author-id` is `authorId`),
   * the text of `.entry-date`, the inner HTML of `div.content`, the `src` of
   * the avatar image, the `href` of `a.entry-author` and the favorite
   * counter; None where the element is absent.
   */
  datatype ItemNode = ItemNode(
    isListItem: bool,
    dataset: map<string, string>,
    dateText: Option<string>,
    content: Option<string>,
    avatarSrc: Option<string>,
    authorHref: Option<string>,
    favoriteCount: Option<FavoriteCounter>)

  /** A child of `ul#entry-item-list`: an entry item, or a "N. SAYFA" page separator. */
  datatype ViewNode = EntryItem(item: ItemNode) | Separator(pageLabel: int)

  /** The `.pager` of a topic page as extraction sees it: a `div` or not, and its two attributes. */
  datatype PagerNode = PagerNode(isDiv: bool, currentPage: Option<int>, pageCount: Option<int>)

  /**
   * A document to extract a topic from: its pager, and the `li#entry-item`
   * elements of `ul#entry-item-list` in document order (None: there is no list).
   */
  datatype Document = Document(pager: Option<PagerNode>, items: Option<seq<ItemNode>>)

  /** The page `select` of a pager: its option labels in order and the selected index (-1: none). */
  datatype PageSelect = PageSelect(labels: seq<string>, selected: int)

  /** The `a.last` link: its text and the page its `href` points to. */
  datatype LastLink = LastLink(text: string, page: int)

  /**
   * A live `div.pager`: its two data attributes, its page select, and the
   * pages the `a.prev` and `a.next` links point to; None where absent.
   */
  datatype Pager = Pager(
    currentPage: int,
    pageCount: int,
    select: Option<PageSelect>,
    prevPage: Option<int>,
    nextPage: Option<int>,
    last: Option<LastLink>)

  /**
   * An element the highlight queue can hold, named by the position of its
   * entry item in the list: the content, the favorite counter, or the item.
   */
  datatype ElementRef = ContentOf(pos: nat) | FavoriteCountOf(pos: nat) | ItemAt(pos: nat) {
    function Position(): nat {
      match this
      case ContentOf(p) => p
      case FavoriteCountOf(p) => p
      case ItemAt(p) => p
    }
  }

  /** A bounding client rectangle. */
  datatype Rect = Rect(top: real, left: real, bottom: real, right: real)

  /** The window's inner size and the document element's client size. */
  datatype Window = Window(innerHeight: real, innerWidth: real, clientHeight: real, clientWidth: real)
}
