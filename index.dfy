/**
 * The `Yesil` class: the state it keeps between polls and the methods that
 * update it in place. Each method is proved to change the object exactly as
 * the matching function of module Sync says, so what is proved about those
 * functions holds of the class.
 */
module Index {
  import opened Wrappers
  import opened Text
  import opened Types
  import opened Dom
  import opened Utils
  import Extraction
  import opened Sync

  /** The polling period: the stored setting read with `parseInt`, 5000 when it is absent, not a number or zero. */
  function IntervalPeriod(setting: Option<string>): (r: int)
    ensures r != 0
  {
    var v := ParseInt(setting.GetOr("5000"));
    if v.Some? && v.value != 0 then v.value else 5000
  }

  /** A nonzero period written as text is read back as that period. */
  lemma IntervalPeriodRoundTrip(n: int)
    requires n != 0
    ensures IntervalPeriod(Some(IntToString(n))) == n
  {
    IntToStringRoundTrip(n);
  }

  /** With no setting, or one that is not a number, or zero, the period is 5000. */
  lemma IntervalPeriodFallback()
    ensures IntervalPeriod(None) == 5000
    ensures IntervalPeriod(Some("0")) == 5000
    ensures IntervalPeriod(Some("")) == 5000
    ensures IntervalPeriod(Some("fast")) == 5000
  {
    assert ParseInt("0") == Some(0) by {
      assert AllDigits("0");
    }
    assert !IsDigit('f');
    assert IntToString(5000) == "5000";
    IntervalPeriodRoundTrip(5000);
  }

  /** The page is a topic page (its path without the first '/' looks like a slug) or an entry page. */
  predicate Applicable(pathname: string) {
    IsEksiSlug(RemoveFirst(pathname, '/')) || IsEksiEntryPath(pathname)
  }

  /** The live list's children at start-up: one entry item per `li#entry-item` element. */
  function ListView(items: seq<ItemNode>): (v: seq<ViewNode>)
    ensures |v| == |items| && forall i :: 0 <= i < |v| ==> v[i] == EntryItem(items[i])
  {
    seq(|items|, i requires 0 <= i < |items| => EntryItem(items[i]))
  }

  /**
   * `assert<Sort>` applied to the `a` query parameter as the address bar
   * gives it: an absent parameter is `null`, which is not a member of `Sort`
   * (whose default member is `undefined`), so only the three named orders pass.
   */
  function SortGuard(a: Option<string>): (r: Result<Sort, Thrown>)
    ensures r.Failure? <==> (a.None? || a.value !in {"popular", "nice", "dailynice"})
    ensures r.Failure? ==> r.error == TypeGuardError
    ensures r.Success? ==> SortName(r.value) == a && r.value != Historical
  {
    match a
    case Some("popular") => Success(Popular)
    case Some("nice") => Success(Nice)
    case Some("dailynice") => Success(DailyNice)
    case _ => Failure(TypeGuardError)
  }

  /** Every named order passes the guard and comes back as itself. */
  lemma SortGuardRoundTrip(s: Sort)
    requires s != Historical
    ensures SortGuard(SortName(s)) == Success(s)
  {
  }

  /**
   * The constructor's guard and set-up: read the polling period, refuse with
   * NOT_APPLICABLE a page that is neither a topic nor an entry page, parse
   * the page's own document (its exception propagates), refuse with
   * NOT_APPLICABLE a page without entries, check the `a` query parameter
   * against `Sort` (a guard failure propagates), and otherwise build the
   * object from the parsed page, the address, the live list and the live pagers.
   * The `day` parameter is checked against `string | null`, which every
   * value `get` returns passes, so it is stored as it is.
   */
  method Create(options: YesilOptions, intervalSetting: Option<string>, pathname: string,
                sortParam: Option<string>, dayParam: Option<string>, body: Document, livePagers: seq<Pager>)
    returns (r: Result<Yesil, Thrown>)
    ensures !Applicable(pathname) ==> r == Failure(YesilError(NotApplicable))
    ensures Applicable(pathname) ==> match Extraction.ExtractTopic(body)
      case Threw(t) => r == Failure(t)
      case NotFound => r == Failure(YesilError(NotApplicable))
      case Found(page) =>
        if SortGuard(sortParam).Failure? then r == Failure(TypeGuardError)
        else
          && r.Success? && fresh(r.value)
          && r.value.options == options && r.value.intervalPeriod == IntervalPeriod(intervalSetting)
          && r.value.slug == RemoveFirst(pathname, '/')
          && r.value.sort == SortGuard(sortParam).value && r.value.day == dayParam
          && r.value.polls == (options.fetchEntriesDynamically || options.updateCurrentEntries)
          && body.items.Some?
          && r.value.State() == SyncState(page.entries, page.currentPage, page.pageCount, false, [], [],
            ListView(body.items.value), livePagers, None)
  {
    var period := IntervalPeriod(intervalSetting);
    var slug := RemoveFirst(pathname, '/');
    if !(IsEksiSlug(slug) || IsEksiEntryPath(pathname)) {
      return Failure(YesilError(NotApplicable));
    }
    var parsed := Extraction.ParseTopicPage(body);
    match parsed {
      case Threw(t) =>
        return Failure(t);
      case NotFound =>
        return Failure(YesilError(NotApplicable));
      case Found(page) =>
        var sort := SortGuard(sortParam);
        if sort.Failure? {
          return Failure(sort.error);
        }
        Extraction.ExtractTopicFound(body);
        var y := new Yesil(options, period, slug, sort.value, dayParam, page, ListView(body.items.value), livePagers);
        return Success(y);
    }
  }

  class Yesil {
    const options: YesilOptions
    const intervalPeriod: int
    /** Whether the constructor started the polling timer. */
    const polls: bool
    /** The page's path without its first '/'. */
    const slug: string
    const sort: Sort
    /** The `day` query parameter, if any. */
    const day: Option<string>
    var entries: seq<Entry>
    var currentPage: int
    var pageCount: int
    var newEntriesFromNewPage: bool
    var highlightElementQueue: seq<ElementRef>
    /** The elements highlighted so far, in the order they were. */
    var highlighted: seq<ElementRef>
    /** The children of the live `ul#entry-item-list`. */
    var view: seq<ViewNode>
    /** The live `div.pager` elements, in document order. */
    var pagers: seq<Pager>
    /** The `p` parameter last written to the address bar, if any. */
    var addressPage: Option<int>

    /** The object's fields as a value of module Sync. */
    function State(): SyncState
      reads this
    {
      SyncState(entries, currentPage, pageCount, newEntriesFromNewPage,
        highlightElementQueue, highlighted, view, pagers, addressPage)
    }

    /** What one poll works with: the options, the viewport and `createEntryElement`. */
    function EnvFor(vp: Viewport): Env {
      Env(options, vp, CreateEntryElement)
    }

    /**
     * The part of the constructor after the page was accepted: the cursor
     * and the entries come from the page, the flag is clear, the queue is
     * empty, and the timer is started when fetching or updating is on.
     */
    constructor (options: YesilOptions, intervalPeriod: int, slug: string, sort: Sort, day: Option<string>,
                 page: Topic, view: seq<ViewNode>, pagers: seq<Pager>)
      ensures this.options == options && this.intervalPeriod == intervalPeriod
      ensures this.slug == slug && this.sort == sort && this.day == day
      ensures polls == (options.fetchEntriesDynamically || options.updateCurrentEntries)
      ensures State() == SyncState(page.entries, page.currentPage, page.pageCount, false, [], [], view, pagers, None)
    {
      this.options := options;
      this.intervalPeriod := intervalPeriod;
      this.slug := slug;
      this.sort := sort;
      this.day := day;
      this.polls := options.fetchEntriesDynamically || options.updateCurrentEntries;
      this.entries := page.entries;
      this.currentPage := page.currentPage;
      this.pageCount := page.pageCount;
      this.newEntriesFromNewPage := false;
      this.highlightElementQueue := [];
      this.highlighted := [];
      this.view := view;
      this.pagers := pagers;
      this.addressPage := None;
    }

    /**
     * `checkHighlightElements`: walk the queue by index, highlighting and
     * splicing out each visible element.
     */
    method CheckHighlightElements(vp: Viewport)
      modifies this
      ensures State() == CheckHighlights(old(State()), vp)
    {
      var s0 := State();
      var q := highlightElementQueue;
      var h := highlighted;
      var i := 0;
      PassBegins(q, h, vp);
      while i < |q|
        invariant State() == s0
        invariant PassDoneUpTo(s0.queue, s0.highlighted, q, h, i, vp)
        decreases |q| - i + 1
      {
        var el := q[i];
        if IsElementInViewport(vp.rectOf(el), vp.window) {
          PassStep(s0.queue, s0.highlighted, q, h, i, vp);
          h := h + [el];
          q := q[..i] + q[i + 1..];
        } else {
          PassStep(s0.queue, s0.highlighted, q, h, i, vp);
        }
        i := i + 1;
      }
      PassEnds(s0.queue, s0.highlighted, q, h, i, vp);
      highlightElementQueue := q;
      highlighted := h;
    }

    /** `highlightElement`: nothing when highlighting is off; otherwise enqueue the element and run a pass. */
    method HighlightElement(el: ElementRef, vp: Viewport)
      modifies this
      ensures State() == Highlight(old(State()), el, EnvFor(vp))
    {
      if !options.highlightChanges {
        return;
      }
      highlightElementQueue := highlightElementQueue + [el];
      CheckHighlightElements(vp);
    }

    /** `updateEntryElement`: patch the entry's item in place; nothing when it is not in the list. */
    method UpdateEntryElement(e: Entry, vp: Viewport)
      modifies this
      ensures State() == PatchEntry(old(State()), e, EnvFor(vp))
    {
      var k := FindItem(view, e.id);
      if k < 0 {
        return;
      }
      var item := view[k].item;
      if item.content.Some? && item.content.value != e.content {
        view := view[k := EntryItem(item.(content := Some(e.content)))];
        HighlightElement(ContentOf(k), vp);
      }
      item := view[k].item;
      var text := IntToString(e.favoriteCount);
      if item.favoriteCount.Some? && e.favoriteCount != 0 && item.favoriteCount.value.text != text {
        view := view[k := EntryItem(item.(favoriteCount := Some(FavoriteCounter(text, true))))];
        HighlightElement(FavoriteCountOf(k), vp);
      }
    }

    /** `addEntryElement`: append the entry's new item to the list and highlight it. */
    method AddEntryElement(e: Entry, vp: Viewport)
      modifies this
      ensures State() == Render(old(State()), e, EnvFor(vp))
    {
      var el := CreateEntryElement(e);
      view := view + [EntryItem(el)];
      HighlightElement(ItemAt(|view| - 1), vp);
    }

    /** One iteration of `refreshPage`'s loop over the fetched entries. */
    method MergeEntry(e: Entry, pageCount: int, vp: Viewport)
      modifies this
      ensures State() == MergeStep(old(State()), e, pageCount, EnvFor(vp))
    {
      if FindEntry(entries, e.id).Some? {
        if options.updateCurrentEntries {
          UpdateEntryElement(e, vp);
        }
      } else if options.fetchEntriesDynamically {
        if newEntriesFromNewPage {
          view := view + [Separator(pageCount)];
          newEntriesFromNewPage := false;
        }
        AddEntryElement(e, vp);
        entries := entries + [e];
      }
    }

    /**
     * `refreshPage`, given the document fetched for the current page: parse
     * it, merge its entries, then (fetching on) follow the cursor and
     * rewrite the pagers when the page count changed.
     */
    method RefreshPage(doc: Document, vp: Viewport) returns (err: Option<Thrown>)
      modifies this
      ensures (State(), err) == Poll(old(State()), Extraction.ExtractTopic(doc), EnvFor(vp))
    {
      var fetched := Extraction.ParseTopicPage(doc);
      if fetched.NotFound? {
        return None;
      }
      if fetched.Threw? {
        return Some(fetched.thrown);
      }
      var page := fetched.topic;
      MergeFetchedEntries(page.entries, page.pageCount, vp);
      if !options.fetchEntriesDynamically {
        return None;
      }
      var failure := FollowPages(page);
      if failure.Some? {
        return Some(YesilError(failure.value));
      }
      return None;
    }

    /** `refreshPage`'s loop over the fetched entries. */
    method MergeFetchedEntries(es: seq<Entry>, pageCount: int, vp: Viewport)
      modifies this
      ensures State() == Merge(old(State()), es, pageCount, EnvFor(vp))
    {
      ghost var s0 := State();
      var i := 0;
      while i < |es|
        invariant 0 <= i <= |es|
        invariant Merge(s0, es, pageCount, EnvFor(vp)) == Merge(State(), es[i..], pageCount, EnvFor(vp))
      {
        ghost var before := State();
        MergeEntry(es[i], pageCount, vp);
        MergeUnfold(before, es, i, pageCount, EnvFor(vp));
        i := i + 1;
      }
      assert es[i..] == [];
    }

    /**
     * The cursor step of `refreshPage`: take the fetched cursor, move to a
     * page that appeared while on the last one, and rewrite the pagers when
     * the page count changed.
     */
    method FollowPages(page: Topic) returns (err: Option<YesilErrorType>)
      modifies this
      ensures (State(), err) == TrackPages(old(State()), page)
    {
      var oldPage := currentPage;
      var oldPageCount := pageCount;
      currentPage := page.currentPage;
      pageCount := page.pageCount;
      if oldPage == oldPageCount && pageCount > oldPageCount {
        currentPage := currentPage + 1;
        newEntriesFromNewPage := true;
        addressPage := Some(currentPage);
      }
      if oldPageCount != pageCount {
        err := UpdatePaginations(currentPage, pageCount);
      } else {
        err := None;
      }
    }

    /**
     * `updatePaginations`: rewrite every pager in document order, stopping
     * with ELEMENT_NOT_FOUND at the first one that has no select.
     */
    method UpdatePaginations(cur: int, count: int) returns (err: Option<YesilErrorType>)
      modifies this
      ensures State() == old(State()).(pagers := pagers)
      ensures (pagers, err) == UpdatePagers(old(pagers), cur, count)
    {
      ghost var p0 := pagers;
      var j := 0;
      PagersFrom(p0, cur, count);
      while j < |pagers|
        invariant 0 <= j <= |pagers|
        invariant State() == old(State()).(pagers := pagers)
        invariant PagersDoneUpTo(p0, pagers, j, cur, count)
      {
        ghost var before := pagers;
        err := UpdatePagination(j, cur, count);
        PagersStep(p0, before, pagers, j, cur, count);
        if err.Some? {
          return;
        }
        j := j + 1;
      }
      PagersAllDone(p0, pagers, cur, count);
      return None;
    }

    /**
     * One pager of `updatePaginations`: write its two data attributes, then
     * (when it has a select) add the missing page options, select the current
     * page and rewrite the prev, next and last links.
     */
    method UpdatePagination(j: nat, cur: int, count: int) returns (err: Option<YesilErrorType>)
      requires j < |pagers|
      modifies this
      ensures State() == old(State()).(pagers := pagers)
      ensures err == if old(pagers)[j].select.None? then Some(ElementNotFound) else None
      ensures pagers == old(pagers)[j := if old(pagers)[j].select.None?
        then old(pagers)[j].(currentPage := cur, pageCount := count)
        else UpdatePager(old(pagers)[j], cur, count)]
    {
      var p := pagers[j].(currentPage := cur, pageCount := count);
      pagers := pagers[j := p];
      if p.select.None? {
        return Some(ElementNotFound);
      }
      FillPageSelect(j, cur, count);
      p := pagers[j];
      if p.prevPage.Some? {
        p := p.(prevPage := Some(cur - 1));
      }
      if p.nextPage.Some? {
        p := p.(nextPage := Some(cur + 1));
      } else if cur != count {
        p := p.(nextPage := Some(cur + 1));
      }
      if p.last.Some? {
        p := p.(last := Some(LastLink(IntToString(count), count)));
      }
      pagers := pagers[j := p];
      return None;
    }

    /** The select loop of one pager: pages 1 to `count`, in order. */
    method FillPageSelect(j: nat, cur: int, count: int)
      requires j < |pagers| && pagers[j].select.Some?
      modifies this
      ensures State() == old(State()).(pagers := pagers)
      ensures pagers == old(pagers)[j := old(pagers)[j].(select := Some(SelectPages(old(pagers)[j].select.value, cur, count)))]
    {
      ghost var sel0 := pagers[j].select.value;
      ghost var mid := pagers;
      var page := 1;
      while page <= count
        invariant 1 <= page <= if count >= 1 then count + 1 else 1
        invariant State() == old(State()).(pagers := pagers)
        invariant pagers == mid[j := mid[j].(select := Some(SelectPages(sel0, cur, page - 1)))]
      {
        NextPageOption(j, page, cur, sel0, mid);
        page := page + 1;
      }
      SelectPagesDone(sel0, cur, count, page);
    }

    /** One iteration of the select loop, from the select after pages 1 to `page - 1`. */
    method NextPageOption(j: nat, page: int, cur: int, ghost sel0: PageSelect, ghost mid: seq<Pager>)
      requires page >= 1 && j < |mid| && mid[j].select.Some?
      requires pagers == mid[j := mid[j].(select := Some(SelectPages(sel0, cur, page - 1)))]
      modifies this
      ensures State() == old(State()).(pagers := pagers)
      ensures pagers == mid[j := mid[j].(select := Some(SelectPages(sel0, cur, page)))]
    {
      SelectPageOption(j, page, cur);
      SelectPagesNext(sel0, cur, page);
    }

    /**
     * One page of the select loop: look the option up with the XPath
     * `//option[text()='<page>']` narrowed to this pager's select, append it
     * when missing, and select it when it is the current page.
     */
    method SelectPageOption(j: nat, page: int, cur: int)
      requires j < |pagers| && pagers[j].select.Some?
      modifies this
      ensures State() == old(State()).(pagers := pagers)
      ensures pagers == old(pagers)[j := old(pagers)[j].(select := Some(SelectStep(old(pagers)[j].select.value, page, cur)))]
    {
      var text := IntToString(page);
      var nodes := Labelled(pagers, text);
      var found := GetElementByXpath(nodes, Some(j), (pj: int, n: (int, int)) => n.0 == pj);
      XpathFindsOption(pagers, text, j, found);
      var sel := pagers[j].select.value;
      var at: int;
      if found.None? {
        at := |sel.labels|;
        sel := sel.(labels := sel.labels + [text]);
      } else {
        at := found.value.1;
      }
      if IntToString(cur) == sel.labels[at] {
        sel := sel.(selected := at);
      }
      pagers := pagers[j := pagers[j].(select := Some(sel))];
    }
  }

  /**
   * The pass over `q0` has reached index `i` of the current queue `q`, with
   * `h` highlighted so far: what is left to do, done, gives the whole
   * pass's outcome. Past the end (a splice at the last index), it is done.
   */
  ghost predicate PassDoneUpTo(q0: seq<ElementRef>, h0: seq<ElementRef>, q: seq<ElementRef>, h: seq<ElementRef>, i: int, vp: Viewport) {
    && 0 <= i <= |q| + 1
    && (i <= |q| ==>
      && Survivors(q0, vp) == q[..i] + Survivors(q[i..], vp)
      && h0 + Hits(q0, vp) == h + Hits(q[i..], vp))
    && (i > |q| ==> Survivors(q0, vp) == q && h0 + Hits(q0, vp) == h)
  }

  lemma PassBegins(q: seq<ElementRef>, h: seq<ElementRef>, vp: Viewport)
    ensures PassDoneUpTo(q, h, q, h, 0, vp)
  {
    assert q[..0] == [] && q[0..] == q;
  }

  lemma PassStep(q0: seq<ElementRef>, h0: seq<ElementRef>, q: seq<ElementRef>, h: seq<ElementRef>, i: nat, vp: Viewport)
    requires i < |q| && PassDoneUpTo(q0, h0, q, h, i, vp)
    ensures Visible(vp, q[i]) ==> PassDoneUpTo(q0, h0, q[..i] + q[i + 1..], h + [q[i]], i + 1, vp)
    ensures !Visible(vp, q[i]) ==> PassDoneUpTo(q0, h0, q, h, i + 1, vp)
  {
    if Visible(vp, q[i]) {
      PassStepHit(q0, h0, q, h, i, vp);
    } else {
      PassKeeps(q, i, vp);
    }
  }

  lemma PassStepHit(q0: seq<ElementRef>, h0: seq<ElementRef>, q: seq<ElementRef>, h: seq<ElementRef>, i: nat, vp: Viewport)
    requires i < |q| && Visible(vp, q[i])
    requires Survivors(q0, vp) == q[..i] + Survivors(q[i..], vp)
    requires h0 + Hits(q0, vp) == h + Hits(q[i..], vp)
    ensures PassDoneUpTo(q0, h0, q[..i] + q[i + 1..], h + [q[i]], i + 1, vp)
  {
    PassRemoves(q, i, vp);
    var q' := q[..i] + q[i + 1..];
    var rest := if i + 1 <= |q'| then Hits(q'[i + 1..], vp) else [];
    assert h0 + Hits(q0, vp) == h + ([q[i]] + rest);
    assert h + ([q[i]] + rest) == (h + [q[i]]) + rest;
    if i + 1 <= |q'| {
      assert Survivors(q0, vp) == q'[..i + 1] + Survivors(q'[i + 1..], vp);
    } else {
      assert Survivors(q0, vp) == q';
      assert (h + [q[i]]) + rest == h + [q[i]];
    }
  }

  lemma PassEnds(q0: seq<ElementRef>, h0: seq<ElementRef>, q: seq<ElementRef>, h: seq<ElementRef>, i: int, vp: Viewport)
    requires i >= |q| && PassDoneUpTo(q0, h0, q, h, i, vp)
    ensures Survivors(q0, vp) == q && h0 + Hits(q0, vp) == h
  {
    if i <= |q| {
      assert q[..i] == q && q[i..] == [];
    }
  }

  /** The pass at a visible element: it is highlighted, and the next one slides into its slot unseen. */
  lemma PassRemoves(q: seq<ElementRef>, i: nat, vp: Viewport)
    requires i < |q| && Visible(vp, q[i])
    ensures var q' := q[..i] + q[i + 1..];
      && q[..i] + Survivors(q[i..], vp)
        == (if i + 1 <= |q'| then q'[..i + 1] + Survivors(q'[i + 1..], vp) else q')
      && Hits(q[i..], vp) == [q[i]] + (if i + 1 <= |q'| then Hits(q'[i + 1..], vp) else [])
  {
    var q' := q[..i] + q[i + 1..];
    if i + 1 < |q| {
      assert q[i..][2..] == q'[i + 1..];
      assert q'[..i + 1] == q[..i] + [q[i + 1]];
    } else {
      assert q' == q[..i];
    }
  }

  /** The pass at an element out of view: it stays and the pass moves on. */
  lemma PassKeeps(q: seq<ElementRef>, i: nat, vp: Viewport)
    requires i < |q| && !Visible(vp, q[i])
    ensures q[..i] + Survivors(q[i..], vp) == q[..i + 1] + Survivors(q[i + 1..], vp)
    ensures Hits(q[i..], vp) == Hits(q[i + 1..], vp)
  {
    assert q[i..][1..] == q[i + 1..];
    assert q[..i + 1] == q[..i] + [q[i]];
  }

  lemma MergeUnfold(s: SyncState, es: seq<Entry>, i: nat, pageCount: int, env: Env)
    requires i < |es|
    ensures Merge(s, es[i..], pageCount, env) == Merge(MergeStep(s, es[i], pageCount, env), es[i + 1..], pageCount, env)
  {
    assert es[i..][1..] == es[i + 1..];
  }

  lemma UpdatePagersUnfold(p0: seq<Pager>, before: seq<Pager>, j: nat, cur: int, count: int)
    requires j < |p0| == |before| && before[j..] == p0[j..]
    ensures var u := UpdatePagers(p0[j..], cur, count);
      if p0[j].select.None? then
        u == ([p0[j].(currentPage := cur, pageCount := count)] + p0[j + 1..], Some(ElementNotFound))
      else
        u == ([UpdatePager(p0[j], cur, count)] + UpdatePagers(p0[j + 1..], cur, count).0, UpdatePagers(p0[j + 1..], cur, count).1)
  {
    assert p0[j..][0] == p0[j];
    assert p0[j..][1..] == p0[j + 1..];
  }

  // ---------------------------------------------------------------------
  // The XPath lookup of a page option
  // ---------------------------------------------------------------------

  /** The option labels of a pager's select; none when it has no select. */
  function OptionsOf(p: Pager): seq<string> {
    if p.select.Some? then p.select.value.labels else []
  }

  /** The options among `labels` whose text is `text`, as (pager, option) positions in order, the first at `base`. */
  function Positions(labels: seq<string>, text: string, j: int, base: int): seq<(int, int)> {
    if labels == [] then []
    else (if labels[0] == text then [(j, base)] else []) + Positions(labels[1..], text, j, base + 1)
  }

  /** What `//option[text()='<text>']` selects in the document: every pager's matching options, in document order. */
  function Labelled(pagers: seq<Pager>, text: string): seq<(int, int)> {
    if pagers == [] then []
    else Labelled(pagers[..|pagers| - 1], text) + Positions(OptionsOf(pagers[|pagers| - 1]), text, |pagers| - 1, 0)
  }

  /** The first node of pager `j`, or -1. */
  function FirstOf(nodes: seq<(int, int)>, j: int): (k: int)
    ensures -1 <= k < |nodes|
    ensures k == -1 <==> forall i :: 0 <= i < |nodes| ==> nodes[i].0 != j
    ensures k >= 0 ==> nodes[k].0 == j && forall i :: 0 <= i < k ==> nodes[i].0 != j
  {
    if nodes == [] then -1
    else if nodes[0].0 == j then 0
    else
      var k := FirstOf(nodes[1..], j);
      if k < 0 then -1 else k + 1
  }

  lemma {:induction false} PositionsFacts(labels: seq<string>, text: string, j: int, base: int)
    ensures var ps := Positions(labels, text, j, base);
      && (forall i :: 0 <= i < |ps| ==> ps[i].0 == j)
      && (ps == [] <==> IndexOf(labels, text) < 0)
      && (ps != [] ==> ps[0] == (j, base + IndexOf(labels, text)))
  {
    if labels != [] {
      PositionsFacts(labels[1..], text, j, base + 1);
    }
  }

  lemma {:induction false} LabelledBelow(pagers: seq<Pager>, text: string)
    ensures forall i :: 0 <= i < |Labelled(pagers, text)| ==> 0 <= Labelled(pagers, text)[i].0 < |pagers|
  {
    if pagers != [] {
      var n := |pagers| - 1;
      LabelledBelow(pagers[..n], text);
      PositionsFacts(OptionsOf(pagers[n]), text, n, 0);
    }
  }

  /** In document order, the first option of pager `j` labelled `text` is its select's first such option. */
  lemma {:induction false} LabelledFirst(pagers: seq<Pager>, text: string, j: int)
    requires 0 <= j < |pagers|
    ensures var nodes := Labelled(pagers, text);
      var k := FirstOf(nodes, j);
      && (k < 0 <==> IndexOf(OptionsOf(pagers[j]), text) < 0)
      && (k >= 0 ==> nodes[k] == (j, IndexOf(OptionsOf(pagers[j]), text)))
  {
    var n := |pagers| - 1;
    if j == n {
      LabelledFirstLast(pagers, text);
    } else {
      LabelledFirst(pagers[..n], text, j);
      assert pagers[..n][j] == pagers[j];
      LabelledFirstEarlier(pagers, text, j, IndexOf(OptionsOf(pagers[j]), text));
    }
  }

  /** LabelledFirst for the last pager: its nodes come after all the others'. */
  lemma LabelledFirstLast(pagers: seq<Pager>, text: string)
    requires pagers != []
    ensures var nodes := Labelled(pagers, text);
      var j := |pagers| - 1;
      var k := FirstOf(nodes, j);
      && (k < 0 <==> IndexOf(OptionsOf(pagers[j]), text) < 0)
      && (k >= 0 ==> nodes[k] == (j, IndexOf(OptionsOf(pagers[j]), text)))
  {
    var n := |pagers| - 1;
    var init := pagers[..n];
    var tail := Positions(OptionsOf(pagers[n]), text, n, 0);
    PositionsFacts(OptionsOf(pagers[n]), text, n, 0);
    var a := Labelled(init, text);
    assert Labelled(pagers, text) == a + tail;
    LabelledBelow(init, text);
    FirstOfAfter(a, tail, n);
  }

  /** An earlier pager's first node stays first once the last pager's nodes follow. */
  lemma LabelledFirstEarlier(pagers: seq<Pager>, text: string, j: int, idx: int)
    requires 0 <= j < |pagers| - 1
    requires var a := Labelled(pagers[..|pagers| - 1], text);
      (FirstOf(a, j) < 0 <==> idx < 0) && (FirstOf(a, j) >= 0 ==> a[FirstOf(a, j)] == (j, idx))
    ensures var nodes := Labelled(pagers, text);
      (FirstOf(nodes, j) < 0 <==> idx < 0) && (FirstOf(nodes, j) >= 0 ==> nodes[FirstOf(nodes, j)] == (j, idx))
  {
    var n := |pagers| - 1;
    var tail := Positions(OptionsOf(pagers[n]), text, n, 0);
    PositionsFacts(OptionsOf(pagers[n]), text, n, 0);
    var a := Labelled(pagers[..n], text);
    assert Labelled(pagers, text) == a + tail;
    FirstOfBefore(a, tail, j);
    var k := FirstOf(a, j);
    if k >= 0 {
      assert (a + tail)[k] == a[k];
    }
  }

  lemma FirstOfAfter(a: seq<(int, int)>, b: seq<(int, int)>, j: int)
    requires forall i :: 0 <= i < |a| ==> a[i].0 != j
    requires forall i :: 0 <= i < |b| ==> b[i].0 == j
    ensures FirstOf(a + b, j) == if b == [] then -1 else |a|
    ensures b != [] ==> (a + b)[|a|] == b[0]
  {
    if b == [] {
      assert a + b == a;
    } else {
      assert (a + b)[|a|] == b[0];
    }
  }

  lemma FirstOfBefore(a: seq<(int, int)>, b: seq<(int, int)>, j: int)
    requires forall i :: 0 <= i < |b| ==> b[i].0 != j
    ensures FirstOf(a + b, j) == FirstOf(a, j)
  {
    var k := FirstOf(a, j);
    if k >= 0 {
      assert (a + b)[k] == a[k];
    } else {
      assert forall i :: 0 <= i < |a + b| ==> (a + b)[i] == if i < |a| then a[i] else b[i - |a|];
    }
  }

  /** What `getElementByXpath` returns for a page's option, narrowed to pager `j`, is that select's first such option. */
  lemma XpathFindsOption(pagers: seq<Pager>, text: string, j: nat, found: Option<(int, int)>)
    requires j < |pagers|
    requires var nodes := Labelled(pagers, text);
      && (found.None? <==> forall k :: 0 <= k < |nodes| ==> nodes[k].0 != j)
      && (found.Some? ==> exists k :: (0 <= k < |nodes| && found.value == nodes[k] && nodes[k].0 == j
            && forall i :: 0 <= i < k ==> nodes[i].0 != j))
    ensures found.None? <==> IndexOf(OptionsOf(pagers[j]), text) < 0
    ensures found.Some? ==> found.value == (j, IndexOf(OptionsOf(pagers[j]), text))
  {
    var nodes := Labelled(pagers, text);
    LabelledFirst(pagers, text, j);
    if found.Some? {
      var k :| 0 <= k < |nodes| && found.value == nodes[k] && nodes[k].0 == j
        && forall i :: 0 <= i < k ==> nodes[i].0 != j;
      var f := FirstOf(nodes, j);
      assert !(f < k) && !(k < f);
    }
  }

  /** The first `j` pagers are rewritten and the rest are as they were, on the way to `UpdatePagers(p0, ...)`. */
  ghost predicate PagersDoneUpTo(p0: seq<Pager>, pagers: seq<Pager>, j: nat, cur: int, count: int) {
    && j <= |pagers| == |p0|
    && pagers[j..] == p0[j..]
    && UpdatePagers(p0, cur, count).0 == pagers[..j] + UpdatePagers(p0[j..], cur, count).0
    && UpdatePagers(p0, cur, count).1 == UpdatePagers(p0[j..], cur, count).1
  }

  lemma PagersFrom(p0: seq<Pager>, cur: int, count: int)
    ensures PagersDoneUpTo(p0, p0, 0, cur, count)
  {
    assert p0[0..] == p0;
  }

  lemma PagersAllDone(p0: seq<Pager>, pagers: seq<Pager>, cur: int, count: int)
    requires PagersDoneUpTo(p0, pagers, |pagers|, cur, count)
    ensures (pagers, None) == UpdatePagers(p0, cur, count)
  {
    assert pagers[..|pagers|] == pagers && p0[|p0|..] == [];
    var u := UpdatePagers(p0, cur, count);
    assert UpdatePagers(p0[|p0|..], cur, count) == ([], None);
    assert u.0 == pagers && u.1 == None;
    assert u == (u.0, u.1);
  }

  /** One pager more: either the walk goes on, or it stopped at a pager without select with the final outcome. */
  lemma PagersStep(p0: seq<Pager>, before: seq<Pager>, after: seq<Pager>, j: nat, cur: int, count: int)
    requires j < |before| && PagersDoneUpTo(p0, before, j, cur, count)
    requires after == before[j := if before[j].select.None?
        then before[j].(currentPage := cur, pageCount := count)
        else UpdatePager(before[j], cur, count)]
    ensures before[j].select.Some? ==> PagersDoneUpTo(p0, after, j + 1, cur, count)
    ensures before[j].select.None? ==> (after, Some(ElementNotFound)) == UpdatePagers(p0, cur, count)
  {
    UpdatePagersUnfold(p0, before, j, cur, count);
    assert before[j] == p0[j];
    var a := after[j];
    assert after[..j + 1] == before[..j] + [a];
    assert after[j + 1..] == p0[j + 1..];
    var full := UpdatePagers(p0, cur, count);
    var tail := UpdatePagers(p0[j..], cur, count);
    if before[j].select.None? {
      assert tail.0 == [a] + p0[j + 1..];
      assert full.0 == before[..j] + ([a] + p0[j + 1..]);
      assert after == before[..j] + [a] + p0[j + 1..];
      assert full.0 == after && full.1 == Some(ElementNotFound);
      assert full == (full.0, full.1);
    } else {
      var rest := UpdatePagers(p0[j + 1..], cur, count);
      assert tail.0 == [a] + rest.0;
      assert full.0 == before[..j] + ([a] + rest.0);
      assert full.0 == after[..j + 1] + rest.0;
    }
  }

  lemma SelectPagesNext(sel: PageSelect, cur: int, n: int)
    requires n >= 1
    ensures SelectPages(sel, cur, n) == SelectStep(SelectPages(sel, cur, n - 1), n, cur)
  {
  }

  lemma SelectPagesDone(sel: PageSelect, cur: int, count: int, page: int)
    requires page == if count >= 1 then count + 1 else 1
    ensures SelectPages(sel, cur, page - 1) == SelectPages(sel, cur, count)
  {
  }
}
