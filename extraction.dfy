/**
 * `parseTopicPage`: turn a topic page's document into a topic (its entries
 * in document order and its page cursor), nothing (no entries, or a date that
 * is missing or not strictly valid), or an exception.
 */
module Extraction {
  import opened Wrappers
  import opened Text
  import opened Dates
  import opened Types
  import opened Dom
  import opened Utils

  /** What one `li#entry-item` yields: an entry, an early `return` (no topic), or an exception. */
  datatype ItemOutcome = ItemOk(entry: Entry) | ItemAbort | ItemThrow(thrown: Thrown)

  /** What all the items yield: every entry, or the first item that did not give one and what it gave. */
  datatype EntriesOutcome = AllOk(entries: seq<Entry>) | StoppedAt(index: nat, outcome: ItemOutcome)

  /** The result of `parseTopicPage`: a topic, `undefined`, or an exception. */
  datatype Extraction = Found(topic: Topic) | NotFound | Threw(thrown: Thrown)

  /** `assertGuard<EksiEntryDataset>`: the seven attributes the type declares are present. */
  predicate HasEntryDataset(ds: map<string, string>) {
    && "id" in ds && "author" in ds && "authorId" in ds && "ispinned" in ds
    && "ispinnedonprofile" in ds && "favoriteCount" in ds && "commentCount" in ds
  }

  /** `dataset[key]`: the attribute's text, or `undefined`. */
  function DatasetValue(ds: map<string, string>, key: string): JsValue {
    if key in ds then Str(ds[key]) else Undefined
  }

  /** `.entry-date` text `?.split("~")?.[0]?.trim()`: the publish date, before any edit range. */
  function PublishDateText(item: ItemNode): Option<string> {
    match item.dateText
    case None => None
    case Some(t) => Some(Trim(BeforeFirst(t, '~')))
  }

  /**
   * One iteration of the extraction loop. In order: an element that is not
   * an `li` throws; a dataset without the declared attributes fails typia's
   * guard; a missing or empty publish date, or one that is valid in neither
   * strict format, ends the whole call without a topic; a missing author link
   * is a null dereference; a numeric attribute that is not a number, or a
   * missing content element, fails typia's `assert<Entry>`.
   */
  function ExtractItem(item: ItemNode): (r: ItemOutcome)
  {
    if !item.isListItem then ItemThrow(YesilError(ElementWrongType))
    else if !HasEntryDataset(item.dataset) then ItemThrow(TypeGuardError)
    else
      var ds := item.dataset;
      var dateText := PublishDateText(item);
      if dateText.None? || dateText.value == "" then ItemAbort
      else
        var date := ParseStrict(dateText.value);
        if date.None? then ItemAbort
        else if item.authorHref.None? then ItemThrow(TypeError)
        else
          var id := ParseInt(ds["id"]);
          var authorId := ParseInt(ds["authorId"]);
          var commentCount := ParseInt(ds["commentCount"]);
          var favoriteCount := ParseInt(ds["favoriteCount"]);
          if id.None? || authorId.None? || commentCount.None? || favoriteCount.None? || item.content.None?
          then ItemThrow(TypeGuardError)
          else ItemOk(Entry(
            id.value,
            item.content.value,
            date.value,
            ds["author"],
            authorId.value,
            item.avatarSrc,
            StringToBoolean(Str(ds["ispinned"])),
            StringToBoolean(Str(ds["ispinnedonprofile"])),
            StringToBoolean(DatasetValue(ds, "isfavorite")),
            AfterLast(item.authorHref.value, '/'),
            favoriteCount.value,
            commentCount.value))
  }

  /**
   * An item yields an entry only when it is an `li` with the declared
   * attributes, its publish date parses strictly to the entry's date, its
   * author link ends with the entry's slug, and the entry's numbers are those
   * its attributes parse to.
   */
  lemma ExtractedEntry(item: ItemNode)
    requires ExtractItem(item).ItemOk?
    ensures var e := ExtractItem(item).entry;
      && item.isListItem && HasEntryDataset(item.dataset)
      && PublishDateText(item).Some? && ParseStrict(PublishDateText(item).value) == Some(e.entryDate)
      && IsValidDateTime(e.entryDate)
      && item.content == Some(e.content) && item.avatarSrc == e.authorAvatar
      && item.authorHref.Some? && '/' !in e.authorSlug
      && e.authorSlug == item.authorHref.value[|item.authorHref.value| - |e.authorSlug|..]
      && ParseInt(item.dataset["id"]) == Some(e.id) && ParseInt(item.dataset["authorId"]) == Some(e.authorId)
      && ParseInt(item.dataset["favoriteCount"]) == Some(e.favoriteCount)
      && ParseInt(item.dataset["commentCount"]) == Some(e.commentCount)
      && e.author == item.dataset["author"]
      && e.isPinned == StringToBoolean(Str(item.dataset["ispinned"]))
      && e.isPinnedOnProfile == StringToBoolean(Str(item.dataset["ispinnedonprofile"]))
      && e.isFavorite == StringToBoolean(DatasetValue(item.dataset, "isfavorite"))
  {
  }

  /** What each item yields, in document order. */
  function ItemOutcomes(items: seq<ItemNode>): (os: seq<ItemOutcome>)
    ensures |os| == |items|
  {
    if items == [] then [] else [ExtractItem(items[0])] + ItemOutcomes(items[1..])
  }

  /** The `i`-th outcome is what the `i`-th item yields. */
  lemma {:induction false} ItemOutcomeAt(items: seq<ItemNode>, i: nat)
    requires i < |items|
    ensures ItemOutcomes(items)[i] == ExtractItem(items[i])
  {
    if i > 0 {
      ItemOutcomeAt(items[1..], i - 1);
    }
  }

  lemma ItemOutcomesAll(items: seq<ItemNode>)
    ensures forall i :: 0 <= i < |items| ==> ItemOutcomes(items)[i] == ExtractItem(items[i])
  {
    forall i | 0 <= i < |items| {
      ItemOutcomeAt(items, i);
    }
  }

  /** Walk the outcomes in order: all their entries, or where and how the first failure happened. */
  function Collect(os: seq<ItemOutcome>): (r: EntriesOutcome)
    ensures r.AllOk? ==>
      |r.entries| == |os| && forall i :: 0 <= i < |os| ==> os[i] == ItemOk(r.entries[i])
    ensures r.StoppedAt? ==>
      && r.index < |os| && os[r.index] == r.outcome && !r.outcome.ItemOk?
      && forall j :: 0 <= j < r.index ==> os[j].ItemOk?
  {
    if os == [] then AllOk([])
    else
      match os[0]
      case ItemOk(e) =>
        (match Collect(os[1..])
         case AllOk(es) => AllOk([e] + es)
         case StoppedAt(k, o) => StoppedAt(k + 1, o))
      case o => StoppedAt(0, o)
  }

  /** The pager's `currentpage` and `pagecount`, 1 and 1 when there is no `div` pager. */
  function PagerValues(pager: Option<PagerNode>): Result<(int, int), Thrown> {
    if pager.None? || !pager.value.isDiv then Success((1, 1))
    else if pager.value.currentPage.None? || pager.value.pageCount.None? then Failure(TypeGuardError)
    else Success((pager.value.currentPage.value, pager.value.pageCount.value))
  }

  /** `parseTopicPage` as a value. */
  function ExtractTopic(doc: Document): Extraction {
    var pages := PagerValues(doc.pager);
    if pages.Failure? then Threw(pages.error)
    else if doc.items.None? || |doc.items.value| == 0 then NotFound
    else
      match Collect(ItemOutcomes(doc.items.value))
      case AllOk(es) => Found(Topic(es, pages.value.0, pages.value.1))
      case StoppedAt(_, o) => if o.ItemThrow? then Threw(o.thrown) else NotFound
  }

  /** The body of the loop over the items: extract the `i`-th. */
  method ExtractItemAt(items: seq<ItemNode>, i: nat) returns (outcome: ItemOutcome)
    requires i < |items|
    ensures outcome == ItemOutcomes(items)[i]
  {
    ItemOutcomeAt(items, i);
    outcome := ExtractItem(items[i]);
  }

  /** The `for … of` loop over the items: extract each in turn, stopping at the first that gives no entry. */
  method ParseItems(items: seq<ItemNode>) returns (r: EntriesOutcome)
    ensures r == Collect(ItemOutcomes(items))
  {
    ghost var os := ItemOutcomes(items);
    var entries: seq<Entry> := [];
    var i := 0;
    while i < |items|
      invariant 0 <= i <= |items| && |entries| == i
      invariant forall j :: 0 <= j < i ==> os[j] == ItemOk(entries[j])
    {
      var outcome := ExtractItemAt(items, i);
      if !outcome.ItemOk? {
        CollectStopsAt(os, i);
        return StoppedAt(i, outcome);
      }
      entries := entries + [outcome.entry];
      i := i + 1;
    }
    CollectAllOk(os, entries);
    return AllOk(entries);
  }

  /** `parseTopicPage`: read the pager, then walk the items, returning early on the first failure. */
  method ParseTopicPage(doc: Document) returns (r: Extraction)
    ensures r == ExtractTopic(doc)
  {
    var currentPage, pageCount := 1, 1;
    if doc.pager.Some? && doc.pager.value.isDiv {
      if doc.pager.value.currentPage.None? || doc.pager.value.pageCount.None? {
        return Threw(TypeGuardError);
      }
      currentPage := doc.pager.value.currentPage.value;
      pageCount := doc.pager.value.pageCount.value;
    }
    if doc.items.None? || |doc.items.value| == 0 {
      return NotFound;
    }
    var outcome := ParseItems(doc.items.value);
    match outcome {
      case AllOk(entries) =>
        return Found(Topic(entries, currentPage, pageCount));
      case StoppedAt(_, o) =>
        return if o.ItemThrow? then Threw(o.thrown) else NotFound;
    }
  }

  /** The walk stops at the first outcome that is not an entry. */
  lemma CollectStopsAt(os: seq<ItemOutcome>, k: nat)
    requires k < |os| && !os[k].ItemOk?
    requires forall j :: 0 <= j < k ==> os[j].ItemOk?
    ensures Collect(os) == StoppedAt(k, os[k])
  {
    var r := Collect(os);
  }

  /** When every outcome is an entry, the walk yields exactly those entries. */
  lemma CollectAllOk(os: seq<ItemOutcome>, entries: seq<Entry>)
    requires |entries| == |os|
    requires forall j :: 0 <= j < |os| ==> os[j] == ItemOk(entries[j])
    ensures Collect(os) == AllOk(entries)
  {
    var r := Collect(os);
    if r.AllOk? {
      assert r.entries == entries;
    }
  }

  /**
   * A topic is found exactly when the pager reads, there is at least one
   * item and every item yields an entry; its entries are then one per item,
   * in document order, with no sorting or deduplication, and its cursor is
   * the pager's, or page 1 of 1 when there is no pager.
   */
  lemma ExtractTopicFound(doc: Document)
    ensures ExtractTopic(doc).Found? <==>
      && PagerValues(doc.pager).Success?
      && doc.items.Some? && |doc.items.value| > 0
      && forall i :: 0 <= i < |doc.items.value| ==> ExtractItem(doc.items.value[i]).ItemOk?
    ensures ExtractTopic(doc).Found? ==>
      var t := ExtractTopic(doc).topic;
      && |t.entries| == |doc.items.value|
      && (forall i :: 0 <= i < |t.entries| ==> ExtractItem(doc.items.value[i]) == ItemOk(t.entries[i]))
      && (doc.pager.None? ==> t.currentPage == 1 && t.pageCount == 1)
  {
    if PagerValues(doc.pager).Success? && doc.items.Some? && |doc.items.value| > 0 {
      var items := doc.items.value;
      var os := ItemOutcomes(items);
      ItemOutcomesAll(items);
      var r := Collect(os);
    }
  }

  /** The first item that yields no entry decides the call: no topic for a bad date, its exception otherwise. */
  lemma FirstFailureDecides(doc: Document, k: nat)
    requires PagerValues(doc.pager).Success?
    requires doc.items.Some? && k < |doc.items.value|
    requires forall j :: 0 <= j < k ==> ExtractItem(doc.items.value[j]).ItemOk?
    requires !ExtractItem(doc.items.value[k]).ItemOk?
    ensures ExtractItem(doc.items.value[k]).ItemAbort? ==> ExtractTopic(doc) == NotFound
    ensures ExtractItem(doc.items.value[k]).ItemThrow? ==> ExtractTopic(doc) == Threw(ExtractItem(doc.items.value[k]).thrown)
  {
    var items := doc.items.value;
    var os := ItemOutcomes(items);
    ItemOutcomesAll(items);
    assert forall j :: 0 <= j < k ==> os[j].ItemOk?;
    assert os[k] == ExtractItem(items[k]);
    CollectStopsAt(os, k);
    assert Collect(os) == StoppedAt(k, ExtractItem(items[k]));
  }

  lemma AllItemsExtract(doc: Document, entries: seq<Entry>)
    requires PagerValues(doc.pager).Success?
    requires doc.items.Some? && |doc.items.value| > 0 && |entries| == |doc.items.value|
    requires forall j :: 0 <= j < |entries| ==> ExtractItem(doc.items.value[j]) == ItemOk(entries[j])
    ensures ExtractTopic(doc) == Found(Topic(entries, PagerValues(doc.pager).value.0, PagerValues(doc.pager).value.1))
  {
    var items := doc.items.value;
    OutcomesOk(items, entries);
    CollectAllOk(ItemOutcomes(items), entries);
  }

  lemma OutcomesOk(items: seq<ItemNode>, entries: seq<Entry>)
    requires |entries| == |items|
    requires forall j :: 0 <= j < |entries| ==> ExtractItem(items[j]) == ItemOk(entries[j])
    ensures forall j :: 0 <= j < |items| ==> ItemOutcomes(items)[j] == ItemOk(entries[j])
  {
    ItemOutcomesAll(items);
  }

  /**
   * A single item whose publish date is missing, empty or not strictly
   * valid keeps the whole call from producing a topic.
   */
  lemma BadDateSpoilsPage(doc: Document, k: nat)
    requires doc.items.Some? && k < |doc.items.value|
    requires var t := PublishDateText(doc.items.value[k]); t.None? || t.value == "" || ParseStrict(t.value).None?
    ensures !ExtractTopic(doc).Found?
  {
    ExtractTopicFound(doc);
    var item := doc.items.value[k];
    assert !ExtractItem(item).ItemOk?;
  }

  /** The date text the template writes reads back, after split and trim, as the formatted date. */
  lemma CreatedDateText(e: Entry)
    requires IsValidDateTime(e.entryDate)
    ensures PublishDateText(CreateEntryElement(e)) == Some(FormatDateTime(e.entryDate))
  {
    FormattedCharacters(e.entryDate);
    FormattedEnds(e.entryDate);
    TrimmedDate(FormatDateTime(e.entryDate));
  }

  /** A text of digits and separators that starts and ends with a digit comes back from between the template's indents. */
  lemma TrimmedDate(f: string)
    requires forall i :: 0 <= i < |f| ==> IsDigit(f[i]) || f[i] == '.' || f[i] == ' ' || f[i] == ':'
    requires |f| > 0 && IsDigit(f[0]) && IsDigit(f[|f| - 1])
    ensures Trim(BeforeFirst(DateIndent + f + DateOutdent, '~')) == f
  {
    var text := DateIndent + f + DateOutdent;
    NoTildeAround(f);
    assert BeforeFirst(text, '~') == text;
    TrimIndents(f);
  }

  lemma TrimIndents(f: string)
    requires |f| > 0 && IsDigit(f[0]) && IsDigit(f[|f| - 1])
    ensures Trim(DateIndent + f + DateOutdent) == f
  {
    IndentIsWhitespace();
    TrimAround(DateIndent, f, DateOutdent);
  }

  lemma IndentIsWhitespace()
    ensures forall i :: 0 <= i < |DateIndent| ==> IsWhitespace(DateIndent[i])
    ensures forall i :: 0 <= i < |DateOutdent| ==> IsWhitespace(DateOutdent[i])
  {
  }

  /** Between the template's line breaks and tabs, a formatted date holds no `~`. */
  lemma NoTildeAround(f: string)
    requires forall i :: 0 <= i < |f| ==> IsDigit(f[i]) || f[i] == '.' || f[i] == ' ' || f[i] == ':'
    ensures '~' !in DateIndent + f + DateOutdent
  {
    var text := DateIndent + f + DateOutdent;
    forall i | 0 <= i < |text| ensures text[i] != '~' {
      if |DateIndent| <= i < |DateIndent| + |f| {
        assert text[i] == f[i - |DateIndent|];
      }
    }
  }

  /** The attributes the template writes are the ones the guard asks for, holding the entry's values as text. */
  lemma CreatedDataset(e: Entry)
    ensures var ds := CreateEntryElement(e).dataset;
      && HasEntryDataset(ds)
      && ds["id"] == IntToString(e.id) && ds["authorId"] == IntToString(e.authorId)
      && ds["commentCount"] == IntToString(e.commentCount) && ds["favoriteCount"] == IntToString(e.favoriteCount)
      && ds["author"] == e.author
      && ds["ispinned"] == BoolToString(e.isPinned) && ds["ispinnedonprofile"] == BoolToString(e.isPinnedOnProfile)
      && DatasetValue(ds, "isfavorite") == Str(BoolToString(e.isFavorite))
  {
  }

  /**
   * The element `createEntryElement` writes for an entry reads back as that
   * entry: ids and counts through `toString`/`parseInt`, flags through
   * `String`/`stringToBoolean`, the date through "DD.MM.YYYY HH:mm" and the
   * strict parse, the slug through the author link. An absent avatar comes
   * back as the text "undefined" the template writes for it.
   */
  lemma CreateEntryElementRoundTrip(e: Entry)
    requires IsValidDateTime(e.entryDate) && '/' !in e.authorSlug
    ensures ExtractItem(CreateEntryElement(e)) == ItemOk(e.(authorAvatar := Some(e.authorAvatar.GetOr("undefined"))))
  {
    CreatedFields(e);
    CreatedDate(e);
  }

  /** What the extraction reads from a created element's attributes and author link is the entry's own values. */
  lemma CreatedFields(e: Entry)
    requires '/' !in e.authorSlug
    ensures var item := CreateEntryElement(e);
      && item.isListItem && HasEntryDataset(item.dataset)
      && ParseInt(item.dataset["id"]) == Some(e.id) && ParseInt(item.dataset["authorId"]) == Some(e.authorId)
      && ParseInt(item.dataset["favoriteCount"]) == Some(e.favoriteCount)
      && ParseInt(item.dataset["commentCount"]) == Some(e.commentCount)
      && item.dataset["author"] == e.author
      && StringToBoolean(Str(item.dataset["ispinned"])) == e.isPinned
      && StringToBoolean(Str(item.dataset["ispinnedonprofile"])) == e.isPinnedOnProfile
      && StringToBoolean(DatasetValue(item.dataset, "isfavorite")) == e.isFavorite
      && item.authorHref.Some? && AfterLast(item.authorHref.value, '/') == e.authorSlug
  {
    CreatedDataset(e);
    IntToStringRoundTrip(e.id);
    IntToStringRoundTrip(e.authorId);
    IntToStringRoundTrip(e.commentCount);
    IntToStringRoundTrip(e.favoriteCount);
    AfterLastOfSuffix("/biri/", e.authorSlug, '/');
  }

  /** The publish date of a created element parses strictly back to the entry's date. */
  lemma CreatedDate(e: Entry)
    requires IsValidDateTime(e.entryDate)
    ensures var t := PublishDateText(CreateEntryElement(e));
      t.Some? && t.value != "" && ParseStrict(t.value) == Some(e.entryDate)
  {
    CreatedDateText(e);
    FormatDateTimeRoundTrip(e.entryDate);
    FormattedEnds(e.entryDate);
  }

  /** A page rendered from entries by the template extracts to the same entries, in order. */
  lemma RenderedPageRoundTrip(es: seq<Entry>, currentPage: int, pageCount: int)
    requires |es| > 0
    requires forall i :: 0 <= i < |es| ==>
      IsValidDateTime(es[i].entryDate) && '/' !in es[i].authorSlug && es[i].authorAvatar.Some?
    ensures ExtractTopic(Document(Some(PagerNode(true, Some(currentPage), Some(pageCount))),
      Some(seq(|es|, i requires 0 <= i < |es| => CreateEntryElement(es[i])))))
      == Found(Topic(es, currentPage, pageCount))
  {
    var items := seq(|es|, i requires 0 <= i < |es| => CreateEntryElement(es[i]));
    var doc := Document(Some(PagerNode(true, Some(currentPage), Some(pageCount))), Some(items));
    forall j | 0 <= j < |es| ensures ExtractItem(items[j]) == ItemOk(es[j]) {
      CreateEntryElementRoundTrip(es[j]);
      assert es[j].(authorAvatar := Some(es[j].authorAvatar.GetOr("undefined"))) == es[j];
    }
    AllItemsExtract(doc, es);
  }
}
