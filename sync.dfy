/**
 * One poll of the `Yesil` class as a function of its state: merging a
 * fetched page into the rendered list (`refreshPage`, `updateEntryElement`,
 * `addEntryElement`), tracking the page cursor and rewriting the pagers
 * (`updatePaginations`), and the highlight queue (`highlightElement`,
 * `checkHighlightElements`). The class in module Index is proved to change
 * its fields exactly as these functions say.
 */
module Sync {
  import opened Wrappers
  import opened Text
  import opened Types
  import opened Dom
  import opened Utils
  import Extraction

  /**
   * Everything a poll reads or writes: the in-memory entries, the page
   * cursor, the new-page flag, the highlight queue, the elements highlighted
   * so far (in the order they were), the children of `ul#entry-item-list`,
   * the `div.pager` elements, and the `p` parameter last written to the URL.
   */
  datatype SyncState = SyncState(
    entries: seq<Entry>,
    currentPage: int,
    pageCount: int,
    newEntriesFromNewPage: bool,
    queue: seq<ElementRef>,
    highlighted: seq<ElementRef>,
    view: seq<ViewNode>,
    pagers: seq<Pager>,
    addressPage: Option<int>)

  /** Where each element is on screen and how large the window is, for the length of one poll. */
  datatype Viewport = Viewport(rectOf: ElementRef -> Rect, window: Window)

  /**
   * What a poll works with besides the state: the user's options, the
   * viewport, and the element factory (`createEntryElement`) that renders a
   * new entry.
   */
  datatype Env = Env(opts: YesilOptions, vp: Viewport, template: Entry -> ItemNode)

  predicate Visible(vp: Viewport, el: ElementRef) {
    IsElementInViewport(vp.rectOf(el), vp.window)
  }

  // ---------------------------------------------------------------------
  // The highlight queue
  // ---------------------------------------------------------------------

  /**
   * The queue `checkHighlightElements` leaves. It walks the queue by index
   * and splices out each visible element; the element that slides into the
   * freed slot is not looked at in that pass and stays.
   */
  function Survivors(q: seq<ElementRef>, vp: Viewport): seq<ElementRef> {
    if q == [] then []
    else if Visible(vp, q[0]) then (if |q| == 1 then [] else [q[1]] + Survivors(q[2..], vp))
    else [q[0]] + Survivors(q[1..], vp)
  }

  /** The elements that pass highlights (and removes), in order. */
  function Hits(q: seq<ElementRef>, vp: Viewport): seq<ElementRef> {
    if q == [] then []
    else if Visible(vp, q[0]) then [q[0]] + (if |q| == 1 then [] else Hits(q[2..], vp))
    else Hits(q[1..], vp)
  }

  /** `checkHighlightElements`: highlight and drop what the pass finds visible. */
  function CheckHighlights(s: SyncState, vp: Viewport): SyncState {
    s.(queue := Survivors(s.queue, vp), highlighted := s.highlighted + Hits(s.queue, vp))
  }

  /** `highlightElement`: nothing when highlighting is off, else enqueue and run a pass. */
  function Highlight(s: SyncState, el: ElementRef, env: Env): (r: SyncState)
    ensures !env.opts.highlightChanges ==> r == s
    ensures r.(queue := s.queue, highlighted := s.highlighted) == s
  {
    if !env.opts.highlightChanges then s else CheckHighlights(s.(queue := s.queue + [el]), env.vp)
  }

  /** `sub` is `q` with some elements left out, the rest in their order. */
  ghost predicate IsSubsequence<T>(sub: seq<T>, q: seq<T>)
    decreases |q|
  {
    sub == [] || (q != [] && ((sub[0] == q[0] && IsSubsequence(sub[1..], q[1..])) || IsSubsequence(sub, q[1..])))
  }

  /** What a pass leaves keeps its relative order, and the queue never grows. */
  lemma {:induction false} SurvivorsKeepOrder(q: seq<ElementRef>, vp: Viewport)
    ensures IsSubsequence(Survivors(q, vp), q)
    ensures |Survivors(q, vp)| <= |q|
  {
    if q == [] {
    } else if Visible(vp, q[0]) {
      if |q| > 1 {
        var rest := Survivors(q[2..], vp);
        SurvivorsKeepOrder(q[2..], vp);
        assert q[1..][1..] == q[2..];
        assert ([q[1]] + rest)[1..] == rest;
        assert IsSubsequence([q[1]] + rest, q[1..]);
      }
    } else {
      var rest := Survivors(q[1..], vp);
      SurvivorsKeepOrder(q[1..], vp);
      assert ([q[0]] + rest)[1..] == rest;
    }
  }

  /** A pass removes exactly what it highlights. */
  lemma {:induction false} CheckPartitionsQueue(q: seq<ElementRef>, vp: Viewport)
    ensures multiset(Survivors(q, vp)) + multiset(Hits(q, vp)) == multiset(q)
    decreases |q|, 1
  {
    if q != [] {
      PartitionStep(q, vp);
    }
  }

  /** The first step of the pass, with the rest of the queue by induction. */
  lemma {:induction false} PartitionStep(q: seq<ElementRef>, vp: Viewport)
    requires q != []
    ensures multiset(Survivors(q, vp)) + multiset(Hits(q, vp)) == multiset(q)
    decreases |q|, 0
  {
    if !Visible(vp, q[0]) {
      var rest := q[1..];
      CheckPartitionsQueue(rest, vp);
      assert q == [q[0]] + rest;
      KeptHead(q[0], rest, Survivors(rest, vp), Hits(rest, vp));
    } else if |q| > 1 {
      var rest := q[2..];
      CheckPartitionsQueue(rest, vp);
      assert q == [q[0]] + ([q[1]] + rest);
      HitHead(q[0], q[1], rest, Survivors(rest, vp), Hits(rest, vp));
    }
  }

  /** Multiset bookkeeping for a kept head element. */
  lemma KeptHead(x: ElementRef, rest: seq<ElementRef>, kept: seq<ElementRef>, hit: seq<ElementRef>)
    requires multiset(kept) + multiset(hit) == multiset(rest)
    ensures multiset([x] + kept) + multiset(hit) == multiset([x] + rest)
  {
  }

  /** Multiset bookkeeping for a highlighted head element whose successor slides into its slot. */
  lemma HitHead(x: ElementRef, y: ElementRef, rest: seq<ElementRef>, kept: seq<ElementRef>, hit: seq<ElementRef>)
    requires multiset(kept) + multiset(hit) == multiset(rest)
    ensures multiset([y] + kept) + multiset([x] + hit) == multiset([x] + ([y] + rest))
  {
  }

  /** A pass highlights only elements that are visible. */
  lemma {:induction false} HitsAreVisible(q: seq<ElementRef>, vp: Viewport)
    ensures forall x :: x in Hits(q, vp) ==> Visible(vp, x)
  {
    if q != [] {
      if Visible(vp, q[0]) {
        if |q| > 1 {
          HitsAreVisible(q[2..], vp);
        }
      } else {
        HitsAreVisible(q[1..], vp);
      }
    }
  }

  /** An element that is not visible is never removed: it is still queued after the pass. */
  lemma {:induction false} InvisibleSurvives(q: seq<ElementRef>, vp: Viewport, x: ElementRef)
    requires x in q && !Visible(vp, x)
    ensures x in Survivors(q, vp)
  {
    if q[0] == x {
    } else if Visible(vp, q[0]) {
      if q[1] != x {
        InvisibleSurvives(q[2..], vp, x);
      }
    } else {
      InvisibleSurvives(q[1..], vp, x);
    }
  }

  /** With nothing visible, a pass changes nothing and highlights nothing. */
  lemma {:induction false} NothingVisibleKeepsQueue(q: seq<ElementRef>, vp: Viewport)
    requires forall i :: 0 <= i < |q| ==> !Visible(vp, q[i])
    ensures Survivors(q, vp) == q && Hits(q, vp) == []
  {
    if q != [] {
      NothingVisibleKeepsQueue(q[1..], vp);
      assert q == [q[0]] + q[1..];
    }
  }

  /** With something visible, a pass removes at least one element. */
  lemma {:induction false} VisibleShrinksQueue(q: seq<ElementRef>, vp: Viewport, i: nat)
    requires i < |q| && Visible(vp, q[i])
    ensures |Survivors(q, vp)| < |q|
  {
    if Visible(vp, q[0]) {
      if |q| > 1 {
        SurvivorsKeepOrder(q[2..], vp);
      }
    } else {
      VisibleShrinksQueue(q[1..], vp, i - 1);
    }
  }

  /** A pass shortens the queue exactly when something in it is visible. */
  lemma CheckProgress(q: seq<ElementRef>, vp: Viewport)
    ensures (exists i :: 0 <= i < |q| && Visible(vp, q[i])) <==> |Survivors(q, vp)| < |q|
  {
    if i :| 0 <= i < |q| && Visible(vp, q[i]) {
      VisibleShrinksQueue(q, vp, i);
    } else {
      NothingVisibleKeepsQueue(q, vp);
    }
  }

  /** Two visible elements in a row: the first is highlighted, the second slides into its slot and waits. */
  lemma CheckSkipsShiftedElement(a: ElementRef, b: ElementRef, vp: Viewport)
    requires Visible(vp, a) && Visible(vp, b)
    ensures Survivors([a, b], vp) == [b] && Hits([a, b], vp) == [a]
  {
    assert [a, b][2..] == [];
  }

  // ---------------------------------------------------------------------
  // Finding entries and rendered items
  // ---------------------------------------------------------------------

  /** `this.entries.find((oe) => oe.id === id)`: the first in-memory entry with that id. */
  function FindEntry(entries: seq<Entry>, id: int): (r: Option<Entry>)
    ensures r.None? <==> forall i :: 0 <= i < |entries| ==> entries[i].id != id
    ensures r.Some? ==> r.value in entries && r.value.id == id
  {
    if entries == [] then None
    else if entries[0].id == id then Some(entries[0])
    else FindEntry(entries[1..], id)
  }

  /** The ids of the in-memory entries. */
  function Ids(entries: seq<Entry>): set<int> {
    if entries == [] then {} else Ids(entries[..|entries| - 1]) + {entries[|entries| - 1].id}
  }

  lemma {:induction false} IdsMembers(entries: seq<Entry>, id: int)
    ensures id in Ids(entries) <==> exists i :: 0 <= i < |entries| && entries[i].id == id
  {
    if entries != [] {
      var init := entries[..|entries| - 1];
      IdsMembers(init, id);
      if exists i :: 0 <= i < |init| && init[i].id == id {
        var i :| 0 <= i < |init| && init[i].id == id;
        assert entries[i] == init[i];
      }
      if exists i :: 0 <= i < |entries| && entries[i].id == id {
        var i :| 0 <= i < |entries| && entries[i].id == id;
        if i < |init| {
          assert entries[i] == init[i];
        }
      }
    }
  }

  /** The node matches `li#entry-item[data-id='<id>']`. */
  predicate IsItemFor(n: ViewNode, id: int) {
    n.EntryItem? && n.item.isListItem && "id" in n.item.dataset && n.item.dataset["id"] == IntToString(id)
  }

  /** `document.querySelector` for an entry's item: the position of the first match, or -1. */
  function FindItem(view: seq<ViewNode>, id: int): (k: int)
    ensures -1 <= k < |view|
    ensures k == -1 <==> forall i :: 0 <= i < |view| ==> !IsItemFor(view[i], id)
    ensures k >= 0 ==> IsItemFor(view[k], id) && forall i :: 0 <= i < k ==> !IsItemFor(view[i], id)
  {
    if view == [] then -1
    else if IsItemFor(view[0], id) then 0
    else
      var k := FindItem(view[1..], id);
      if k < 0 then -1 else k + 1
  }

  // ---------------------------------------------------------------------
  // Patching and appending items
  // ---------------------------------------------------------------------

  /** The `div.content` step of `updateEntryElement`: rewrite and highlight it when it differs. */
  function PatchContent(s: SyncState, k: nat, e: Entry, env: Env): SyncState
    requires k < |s.view| && s.view[k].EntryItem?
  {
    var item := s.view[k].item;
    if item.content.Some? && item.content.value != e.content then
      Highlight(s.(view := s.view[k := EntryItem(item.(content := Some(e.content)))]), ContentOf(k), env)
    else s
  }

  /**
   * The `.favorite-count` step of `updateEntryElement`: when the counter
   * exists, the count is not zero and its text differs, write the count,
   * show the counter and highlight it.
   */
  function PatchFavoriteCount(s: SyncState, k: nat, e: Entry, env: Env): SyncState
    requires k < |s.view| && s.view[k].EntryItem?
  {
    var item := s.view[k].item;
    var text := IntToString(e.favoriteCount);
    if item.favoriteCount.Some? && e.favoriteCount != 0 && item.favoriteCount.value.text != text then
      Highlight(s.(view := s.view[k := EntryItem(item.(favoriteCount := Some(FavoriteCounter(text, true))))]),
        FavoriteCountOf(k), env)
    else s
  }

  /** `updateEntryElement`: patch the entry's rendered item in place; nothing when it is not rendered. */
  function PatchEntry(s: SyncState, e: Entry, env: Env): SyncState {
    var k := FindItem(s.view, e.id);
    if k < 0 then s
    else PatchFavoriteCount(PatchContent(s, k, e, env), k, e, env)
  }

  /** `addEntryElement`: append the template's item for the entry and highlight it. */
  function Render(s: SyncState, e: Entry, env: Env): SyncState {
    Highlight(s.(view := s.view + [EntryItem(env.template(e))]), ItemAt(|s.view|), env)
  }

  /** The separator step: a "N. SAYFA" item, labelled with the fetched page count, and the flag cleared. */
  function InsertSeparator(s: SyncState, pageCount: int): SyncState {
    s.(view := s.view + [Separator(pageCount)], newEntriesFromNewPage := false)
  }

  /**
   * One iteration of `refreshPage`'s loop. A known id is patched when
   * updating is on and skipped otherwise; an unknown one, when fetching is
   * on, gets the pending separator first, is rendered and is pushed onto the
   * in-memory entries, so a later duplicate in the same page counts as known.
   */
  function MergeStep(s: SyncState, e: Entry, pageCount: int, env: Env): SyncState {
    if FindEntry(s.entries, e.id).Some? then
      if env.opts.updateCurrentEntries then PatchEntry(s, e, env) else s
    else if env.opts.fetchEntriesDynamically then
      var s1 := if s.newEntriesFromNewPage then InsertSeparator(s, pageCount) else s;
      var s2 := Render(s1, e, env);
      s2.(entries := s2.entries + [e])
    else s
  }

  /** `refreshPage`'s loop over the fetched entries, in fetched order. */
  function Merge(s: SyncState, es: seq<Entry>, pageCount: int, env: Env): SyncState
    decreases |es|
  {
    if es == [] then s else Merge(MergeStep(s, es[0], pageCount, env), es[1..], pageCount, env)
  }

  // ---------------------------------------------------------------------
  // What a merge does: reference definitions and their proofs
  // ---------------------------------------------------------------------

  /**
   * The entries a merge should append: each fetched entry whose id is
   * neither known beforehand nor carried by an earlier fetched entry, in
   * fetched order.
   */
  function Fresh(known: set<int>, es: seq<Entry>): seq<Entry>
    decreases |es|
  {
    if es == [] then []
    else if es[0].id in known then Fresh(known, es[1..])
    else [es[0]] + Fresh(known + {es[0].id}, es[1..])
  }

  /** A node with what patching may rewrite (content and favorite counter) erased. */
  function Shape(n: ViewNode): ViewNode {
    match n
    case EntryItem(item) => EntryItem(item.(content := None, favoriteCount := None))
    case Separator(_) => n
  }

  /** Two lists with the same nodes, up to content and favorite counters. */
  predicate SameShape(v: seq<ViewNode>, w: seq<ViewNode>) {
    |v| == |w| && forall i :: 0 <= i < |v| ==> Shape(v[i]) == Shape(w[i])
  }

  /** The template's items for some entries. */
  function Items(es: seq<Entry>, template: Entry -> ItemNode): seq<ViewNode> {
    if es == [] then [] else [EntryItem(template(es[0]))] + Items(es[1..], template)
  }

  /** What a merge appends to the list: nothing, or the separator when one is pending followed by the new items. */
  function Rendered(pending: bool, pageCount: int, added: seq<Entry>, template: Entry -> ItemNode): seq<ViewNode> {
    if added == [] then [] else (if pending then [Separator(pageCount)] else []) + Items(added, template)
  }

  lemma IdsAppend(entries: seq<Entry>, e: Entry)
    ensures Ids(entries + [e]) == Ids(entries) + {e.id}
  {
    assert (entries + [e])[..|entries|] == entries;
  }

  lemma ItemsCons(e: Entry, es: seq<Entry>, template: Entry -> ItemNode)
    ensures Items([e] + es, template) == [EntryItem(template(e))] + Items(es, template)
  {
    assert ([e] + es)[1..] == es;
  }

  lemma SameShapeAppend(v: seq<ViewNode>, w: seq<ViewNode>, x: seq<ViewNode>)
    requires SameShape(v, w)
    ensures SameShape(v + x, w + x)
  {
    assert forall i :: |v| <= i < |v + x| ==> (v + x)[i] == x[i - |v|] == (w + x)[i];
  }

  /**
   * The content step rewrites at most the content of item `k`, to the
   * entry's, and nothing else but the queue and highlights; it changes
   * nothing when the content is absent or already the entry's.
   */
  lemma PatchContentStep(s: SyncState, k: nat, e: Entry, env: Env)
    requires k < |s.view| && s.view[k].EntryItem?
    ensures var r := PatchContent(s, k, e, env);
      && r.(queue := s.queue, highlighted := s.highlighted, view := s.view) == s
      && |r.view| == |s.view|
      && (forall i :: 0 <= i < |s.view| && i != k ==> r.view[i] == s.view[i])
      && r.view[k].EntryItem?
      && r.view[k].item == s.view[k].item.(content := r.view[k].item.content)
      && (r.view[k].item.content.None? <==> s.view[k].item.content.None?)
      && (r.view[k].item.content.None? || r.view[k].item.content.value == e.content)
      && (s.view[k].item.content.None? || s.view[k].item.content.value == e.content ==> r == s)
  {
  }

  /**
   * The counter step rewrites at most the favorite counter of item `k`, so
   * that it is absent, the count is zero or it reads the count, and nothing
   * else but the queue and highlights. It changes nothing when the counter is
   * absent, the count is zero or the counter already reads it; otherwise the
   * counter reads the count and is shown.
   */
  lemma PatchFavoriteCountStep(s: SyncState, k: nat, e: Entry, env: Env)
    requires k < |s.view| && s.view[k].EntryItem?
    ensures var r := PatchFavoriteCount(s, k, e, env);
      && r.(queue := s.queue, highlighted := s.highlighted, view := s.view) == s
      && |r.view| == |s.view|
      && (forall i :: 0 <= i < |s.view| && i != k ==> r.view[i] == s.view[i])
      && r.view[k].EntryItem?
      && r.view[k].item == s.view[k].item.(favoriteCount := r.view[k].item.favoriteCount)
      && (r.view[k].item.favoriteCount.None? <==> s.view[k].item.favoriteCount.None?)
      && (r.view[k].item.favoriteCount.None? || e.favoriteCount == 0
          || r.view[k].item.favoriteCount.value.text == IntToString(e.favoriteCount))
      && (if s.view[k].item.favoriteCount.None? || e.favoriteCount == 0
            || s.view[k].item.favoriteCount.value.text == IntToString(e.favoriteCount)
          then r == s
          else r.view[k].item.favoriteCount == Some(FavoriteCounter(IntToString(e.favoriteCount), true)))
  {
  }

  /** Rewriting only the content and counter of item `k` keeps the list's shape. */
  lemma PatchedSameShape(v: seq<ViewNode>, w: seq<ViewNode>, k: nat)
    requires |v| == |w| && k < |w| && v[k].EntryItem? && w[k].EntryItem?
    requires forall i :: 0 <= i < |w| && i != k ==> v[i] == w[i]
    requires v[k].item == w[k].item.(content := v[k].item.content, favoriteCount := v[k].item.favoriteCount)
    ensures SameShape(v, w)
  {
    assert Shape(v[k]) == Shape(w[k]);
  }

  /** Patching a rendered item leaves everything but the list, queue and highlights alone, and the list's shape too. */
  lemma PatchEntryFrame(s: SyncState, e: Entry, env: Env)
    ensures var r := PatchEntry(s, e, env);
      r.(queue := s.queue, highlighted := s.highlighted, view := s.view) == s && SameShape(r.view, s.view)
  {
    var k := FindItem(s.view, e.id);
    if k >= 0 {
      var s1 := PatchContent(s, k, e, env);
      PatchContentStep(s, k, e, env);
      var s2 := PatchFavoriteCount(s1, k, e, env);
      PatchFavoriteCountStep(s1, k, e, env);
      PatchedSameShape(s2.view, s.view, k);
    }
  }

  /** One step appends the entry exactly when fetching is on and its id is not yet known. */
  lemma MergeStepEntries(s: SyncState, e: Entry, pageCount: int, env: Env)
    ensures MergeStep(s, e, pageCount, env).entries
      == s.entries + (if env.opts.fetchEntriesDynamically && e.id !in Ids(s.entries) then [e] else [])
  {
    IdsMembers(s.entries, e.id);
    if FindEntry(s.entries, e.id).Some? {
      PatchEntryFrame(s, e, env);
    }
  }

  /**
   * A merge appends to the in-memory entries exactly the fresh fetched
   * entries, in fetched order, when fetching is on, and nothing otherwise:
   * the entries already there are never rewritten.
   */
  lemma {:induction false} MergeEntries(s: SyncState, es: seq<Entry>, pageCount: int, env: Env)
    ensures Merge(s, es, pageCount, env).entries
      == s.entries + (if env.opts.fetchEntriesDynamically then Fresh(Ids(s.entries), es) else [])
    decreases |es|
  {
    if es != [] {
      var e, rest := es[0], es[1..];
      var s1 := MergeStep(s, e, pageCount, env);
      assert Merge(s, es, pageCount, env) == Merge(s1, rest, pageCount, env);
      MergeStepEntries(s, e, pageCount, env);
      MergeEntries(s1, rest, pageCount, env);
      if !env.opts.fetchEntriesDynamically {
        assert s1.entries == s.entries;
      } else if e.id in Ids(s.entries) {
        assert s1.entries == s.entries;
        assert Fresh(Ids(s.entries), es) == Fresh(Ids(s.entries), rest);
      } else {
        assert s1.entries == s.entries + [e];
        IdsAppend(s.entries, e);
        var later := Fresh(Ids(s1.entries), rest);
        assert Fresh(Ids(s.entries), es) == [e] + later;
        assert Merge(s1, rest, pageCount, env).entries == (s.entries + [e]) + later;
        assert (s.entries + [e]) + later == s.entries + ([e] + later);
      }
    }
  }

  /**
   * One step, seen from the list: a known id only patches in place; a new
   * one, when fetching is on, appends the pending separator (clearing the
   * flag) and the template's item; nothing else changes the list, the flag,
   * the cursor, the pagers or the address.
   */
  lemma MergeStepView(s: SyncState, e: Entry, pageCount: int, env: Env)
    ensures var r := MergeStep(s, e, pageCount, env);
      && r.currentPage == s.currentPage && r.pageCount == s.pageCount
      && r.pagers == s.pagers && r.addressPage == s.addressPage
      && (if env.opts.fetchEntriesDynamically && e.id !in Ids(s.entries) then
            && r.view == s.view + Rendered(s.newEntriesFromNewPage, pageCount, [e], env.template)
            && !r.newEntriesFromNewPage
          else
            SameShape(r.view, s.view) && r.newEntriesFromNewPage == s.newEntriesFromNewPage)
  {
    IdsMembers(s.entries, e.id);
    if FindEntry(s.entries, e.id).Some? {
      PatchEntryFrame(s, e, env);
    } else if env.opts.fetchEntriesDynamically {
      ItemsCons(e, [], env.template);
      assert [e] + [] == [e];
    }
  }

  /**
   * A merge, seen from the list: up to content and favorite counters, the
   * list afterwards is the list before followed, when fetching is on and
   * something was fresh, by the pending separator and one template item per
   * fresh entry in fetched order. The flag is cleared exactly when that
   * happened; the cursor, the pagers and the address are not touched.
   */
  lemma {:induction false} MergeView(s: SyncState, es: seq<Entry>, pageCount: int, env: Env)
    ensures MergeViewHolds(s, es, pageCount, env)
    decreases |es|, 1
  {
    if es == [] {
      assert s.view + [] == s.view;
    } else if env.opts.fetchEntriesDynamically && es[0].id !in Ids(s.entries) {
      MergeViewAppending(s, es, pageCount, env);
    } else {
      MergeViewPatching(s, es, pageCount, env);
    }
  }

  /** What MergeView states about a merge of `es` into `s`. */
  ghost predicate MergeViewHolds(s: SyncState, es: seq<Entry>, pageCount: int, env: Env) {
    var r := Merge(s, es, pageCount, env);
    var added := if env.opts.fetchEntriesDynamically then Fresh(Ids(s.entries), es) else [];
    && SameShape(r.view, s.view + Rendered(s.newEntriesFromNewPage, pageCount, added, env.template))
    && r.newEntriesFromNewPage == (s.newEntriesFromNewPage && added == [])
    && r.currentPage == s.currentPage && r.pageCount == s.pageCount
    && r.pagers == s.pagers && r.addressPage == s.addressPage
  }

  /** The step of MergeView where the first entry is new and gets appended. */
  lemma {:induction false} MergeViewAppending(s: SyncState, es: seq<Entry>, pageCount: int, env: Env)
    requires es != [] && env.opts.fetchEntriesDynamically && es[0].id !in Ids(s.entries)
    ensures MergeViewHolds(s, es, pageCount, env)
    decreases |es|, 0
  {
    var e := es[0];
    var s1 := MergeStep(s, e, pageCount, env);
    MergeStepView(s, e, pageCount, env);
    MergeStepEntries(s, e, pageCount, env);
    MergeView(s1, es[1..], pageCount, env);
    IdsAppend(s.entries, e);
    var rest := Fresh(Ids(s.entries) + {e.id}, es[1..]);
    assert Fresh(Ids(s.entries), es) == [e] + rest;
    var head := Rendered(s.newEntriesFromNewPage, pageCount, [e], env.template);
    var tail := Rendered(false, pageCount, rest, env.template);
    RenderedCons(s.newEntriesFromNewPage, pageCount, e, rest, env.template);
    assert s1.view == s.view + head;
    var r := Merge(s1, es[1..], pageCount, env);
    assert r == Merge(s, es, pageCount, env);
    SameShapeShift(r.view, s1.view, s.view, head, tail);
  }

  lemma SameShapeShift(v: seq<ViewNode>, w: seq<ViewNode>, u: seq<ViewNode>, head: seq<ViewNode>, tail: seq<ViewNode>)
    requires SameShape(v, w + tail) && w == u + head
    ensures SameShape(v, u + (head + tail))
  {
    assert u + (head + tail) == w + tail;
  }

  lemma RenderedCons(pending: bool, pageCount: int, e: Entry, rest: seq<Entry>, template: Entry -> ItemNode)
    ensures Rendered(pending, pageCount, [e] + rest, template)
      == Rendered(pending, pageCount, [e], template) + Rendered(false, pageCount, rest, template)
  {
    var sep: seq<ViewNode> := if pending then [Separator(pageCount)] else [];
    var item := EntryItem(template(e));
    ItemsCons(e, rest, template);
    ItemsCons(e, [], template);
    assert [e] + [] == [e];
    assert Items([e], template) == [item];
    if rest == [] {
      assert [e] + rest == [e];
    } else {
      assert Rendered(false, pageCount, rest, template) == Items(rest, template);
      assert Rendered(pending, pageCount, [e] + rest, template) == sep + ([item] + Items(rest, template));
      assert sep + ([item] + Items(rest, template)) == (sep + [item]) + Items(rest, template);
    }
  }

  /** The step of MergeView where the first entry is known (or fetching is off) and at most patches. */
  lemma {:induction false} MergeViewPatching(s: SyncState, es: seq<Entry>, pageCount: int, env: Env)
    requires es != [] && !(env.opts.fetchEntriesDynamically && es[0].id !in Ids(s.entries))
    ensures MergeViewHolds(s, es, pageCount, env)
    decreases |es|, 0
  {
    var e := es[0];
    var s1 := MergeStep(s, e, pageCount, env);
    MergeStepView(s, e, pageCount, env);
    MergeStepEntries(s, e, pageCount, env);
    MergeView(s1, es[1..], pageCount, env);
    var added := if env.opts.fetchEntriesDynamically then Fresh(Ids(s.entries), es) else [];
    assert s1.entries == s.entries;
    SameShapeAppend(s1.view, s.view, Rendered(s.newEntriesFromNewPage, pageCount, added, env.template));
  }

  // ---------------------------------------------------------------------
  // Patching settles an item
  // ---------------------------------------------------------------------

  /**
   * The item shows the entry as far as `updateEntryElement` looks: its
   * content, when it has one, is the entry's, and its counter, when it has
   * one and the count is not zero, reads the count.
   */
  predicate Reflects(item: ItemNode, e: Entry) {
    && (item.content.None? || item.content.value == e.content)
    && (item.favoriteCount.None? || e.favoriteCount == 0 || item.favoriteCount.value.text == IntToString(e.favoriteCount))
  }

  /** The entry's item, if one is rendered, reflects the entry. */
  predicate Settled(view: seq<ViewNode>, e: Entry) {
    var k := FindItem(view, e.id);
    k < 0 || Reflects(view[k].item, e)
  }

  lemma FindItemSameShape(v: seq<ViewNode>, w: seq<ViewNode>, id: int)
    requires SameShape(v, w)
    ensures FindItem(v, id) == FindItem(w, id)
  {
    forall i | 0 <= i < |v|
      ensures IsItemFor(v[i], id) <==> IsItemFor(w[i], id)
    {
      assert Shape(v[i]) == Shape(w[i]);
    }
  }

  /** After a patch, the entry's item reflects the entry. */
  lemma PatchSettles(s: SyncState, e: Entry, env: Env)
    ensures Settled(PatchEntry(s, e, env).view, e)
  {
    var k := FindItem(s.view, e.id);
    if k >= 0 {
      var s1 := PatchContent(s, k, e, env);
      PatchContentStep(s, k, e, env);
      var s2 := PatchFavoriteCount(s1, k, e, env);
      PatchFavoriteCountStep(s1, k, e, env);
      PatchedSameShape(s2.view, s.view, k);
      FindItemSameShape(s2.view, s.view, e.id);
      assert s2.view[k].item.content == s1.view[k].item.content;
      assert Reflects(s2.view[k].item, e);
    }
  }

  /** Patching an item that already reflects the entry changes nothing: no write, no highlight. */
  lemma SettledPatchIsNoOp(s: SyncState, e: Entry, env: Env)
    requires Settled(s.view, e)
    ensures PatchEntry(s, e, env) == s
  {
  }

  /** `updateEntryElement` is idempotent. */
  lemma PatchIdempotent(s: SyncState, e: Entry, env: Env)
    ensures PatchEntry(PatchEntry(s, e, env), e, env) == PatchEntry(s, e, env)
  {
    PatchSettles(s, e, env);
    SettledPatchIsNoOp(PatchEntry(s, e, env), e, env);
  }

  /** Patching one entry leaves another entry's item as it was. */
  lemma PatchKeepsOtherSettled(s: SyncState, e: Entry, f: Entry, env: Env)
    requires e.id != f.id && Settled(s.view, f)
    ensures Settled(PatchEntry(s, e, env).view, f)
  {
    var r := PatchEntry(s, e, env);
    PatchEntryFrame(s, e, env);
    FindItemSameShape(r.view, s.view, f.id);
    var j := FindItem(s.view, f.id);
    if j >= 0 {
      IntToStringInjective(e.id, f.id);
      PatchKeepsOtherItem(s, e, j, env);
    }
  }

  /** Patching an entry rewrites only that entry's item. */
  lemma PatchKeepsOtherItem(s: SyncState, e: Entry, j: nat, env: Env)
    requires j < |s.view| && !IsItemFor(s.view[j], e.id)
    ensures j < |PatchEntry(s, e, env).view| && PatchEntry(s, e, env).view[j] == s.view[j]
  {
    var k := FindItem(s.view, e.id);
    if k >= 0 {
      var s1 := PatchContent(s, k, e, env);
      assert s1.view[j] == s.view[j];
    }
  }

  /** Fetched entries with pairwise different ids. */
  predicate DistinctIds(es: seq<Entry>) {
    forall i, j :: 0 <= i < j < |es| ==> es[i].id != es[j].id
  }

  /** With fetching off, a merge of entries that do not carry `f`'s id keeps `f` settled. */
  lemma {:induction false} MergeKeepsSettled(s: SyncState, es: seq<Entry>, pageCount: int, env: Env, f: Entry)
    requires !env.opts.fetchEntriesDynamically
    requires forall i :: 0 <= i < |es| ==> es[i].id != f.id
    requires Settled(s.view, f)
    ensures Settled(Merge(s, es, pageCount, env).view, f)
    decreases |es|
  {
    if es != [] {
      var s1 := MergeStep(s, es[0], pageCount, env);
      if FindEntry(s.entries, es[0].id).Some? && env.opts.updateCurrentEntries {
        PatchKeepsOtherSettled(s, es[0], f, env);
      }
      MergeKeepsSettled(s1, es[1..], pageCount, env, f);
    }
  }

  /**
   * With fetching off and updating on, a merge of entries with distinct
   * ids leaves every known entry's item reflecting the fetched entry.
   */
  lemma {:induction false} MergeSettles(s: SyncState, es: seq<Entry>, pageCount: int, env: Env)
    requires !env.opts.fetchEntriesDynamically && env.opts.updateCurrentEntries
    requires DistinctIds(es)
    ensures forall i :: 0 <= i < |es| && es[i].id in Ids(s.entries) ==> Settled(Merge(s, es, pageCount, env).view, es[i])
    decreases |es|
  {
    if es != [] {
      var s1 := MergeStep(s, es[0], pageCount, env);
      var r := Merge(s, es, pageCount, env);
      MergeStepEntries(s, es[0], pageCount, env);
      assert s1.entries == s.entries;
      MergeSettles(s1, es[1..], pageCount, env);
      assert forall i :: 1 <= i < |es| ==> es[i] == es[1..][i - 1];
      if es[0].id in Ids(s.entries) {
        IdsMembers(s.entries, es[0].id);
        PatchSettles(s, es[0], env);
        MergeKeepsSettled(s1, es[1..], pageCount, env, es[0]);
      }
    }
  }

  /**
   * With fetching off, a merge changes nothing when updating is off, or
   * when every known fetched entry is already reflected by its item.
   */
  lemma {:induction false} MergeSettledIsNoOp(s: SyncState, es: seq<Entry>, pageCount: int, env: Env)
    requires !env.opts.fetchEntriesDynamically
    requires env.opts.updateCurrentEntries ==>
      forall i :: 0 <= i < |es| && es[i].id in Ids(s.entries) ==> Settled(s.view, es[i])
    ensures Merge(s, es, pageCount, env) == s
    decreases |es|
  {
    if es != [] {
      IdsMembers(s.entries, es[0].id);
      if FindEntry(s.entries, es[0].id).Some? && env.opts.updateCurrentEntries {
        SettledPatchIsNoOp(s, es[0], env);
      }
      assert MergeStep(s, es[0], pageCount, env) == s;
      assert forall i :: 1 <= i < |es| ==> es[i] == es[1..][i - 1];
      MergeSettledIsNoOp(s, es[1..], pageCount, env);
    }
  }

  // ---------------------------------------------------------------------
  // Rewriting the pagers
  // ---------------------------------------------------------------------

  /** The option of a select labelled `text` that the XPath lookup finds: the first one, or -1. */
  function IndexOf(labels: seq<string>, text: string): (k: int)
    ensures -1 <= k < |labels|
    ensures k == -1 <==> text !in labels
    ensures k >= 0 ==> labels[k] == text && forall i :: 0 <= i < k ==> labels[i] != text
  {
    if labels == [] then -1
    else if labels[0] == text then 0
    else
      var k := IndexOf(labels[1..], text);
      if k < 0 then -1 else k + 1
  }

  /**
   * One page of `updatePaginations`' select loop: find the option labelled
   * with the page, appending one when there is none, and select it when its
   * label is the current page (selecting one deselects the others).
   */
  function SelectStep(sel: PageSelect, page: int, cur: int): PageSelect {
    var text := IntToString(page);
    var k := IndexOf(sel.labels, text);
    var labels := if k < 0 then sel.labels + [text] else sel.labels;
    var at := if k < 0 then |sel.labels| else k;
    PageSelect(labels, if IntToString(cur) == labels[at] then at else sel.selected)
  }

  /** The select loop over pages 1 to `n` in order; none when `n` is not positive. */
  function SelectPages(sel: PageSelect, cur: int, n: int): PageSelect
    decreases n
  {
    if n <= 0 then sel else SelectStep(SelectPages(sel, cur, n - 1), n, cur)
  }

  /** The labels of pages 1 to `n` that are not among `labels`, in ascending order. */
  function Missing(labels: seq<string>, n: int): seq<string>
    decreases n
  {
    if n <= 0 then [] else Missing(labels, n - 1) + (if IntToString(n) in labels then [] else [IntToString(n)])
  }

  lemma {:induction false} MissingBelow(labels: seq<string>, n: int, m: int)
    requires m > n
    ensures IntToString(m) !in Missing(labels, n)
    decreases n
  {
    if n > 0 {
      MissingBelow(labels, n - 1, m);
      IntToStringInjective(n, m);
    }
  }

  /** The select loop keeps the options there and appends exactly the missing pages, in ascending order. */
  lemma {:induction false} SelectPagesLabels(sel: PageSelect, cur: int, n: int)
    ensures SelectPages(sel, cur, n).labels == sel.labels + Missing(sel.labels, n)
    decreases n
  {
    if n <= 0 {
      assert sel.labels + [] == sel.labels;
    } else {
      var prev := SelectPages(sel, cur, n - 1);
      SelectPagesLabels(sel, cur, n - 1);
      var text := IntToString(n);
      var missing := Missing(sel.labels, n - 1);
      SelectStepFacts(prev, n, cur);
      MissingBelow(sel.labels, n - 1, n);
      AppendMissing(sel.labels, missing, text, prev.labels, SelectPages(sel, cur, n).labels);
      assert Missing(sel.labels, n) == missing + (if text in sel.labels then [] else [text]);
    }
  }

  /** Appending a label to the options when they lack it appends it to the missing labels when the original options lack it. */
  lemma AppendMissing(base: seq<string>, missing: seq<string>, text: string, before: seq<string>, after: seq<string>)
    requires before == base + missing && text !in missing
    requires after == before + (if text in before then [] else [text])
    ensures after == base + (missing + (if text in base then [] else [text]))
  {
    if text in base {
      assert text in before;
      assert missing + [] == missing;
    } else {
      assert text !in before;
      assert (base + missing) + [text] == base + (missing + [text]);
    }
  }

  /** After the select loop, every page from 1 to `n` has an option. */
  lemma {:induction false} SelectPagesCovers(sel: PageSelect, cur: int, n: int)
    ensures forall p :: 1 <= p <= n ==> IntToString(p) in SelectPages(sel, cur, n).labels
    decreases n
  {
    if n > 0 {
      var prev := SelectPages(sel, cur, n - 1);
      SelectPagesCovers(sel, cur, n - 1);
      SelectStepFacts(prev, n, cur);
      var next := SelectPages(sel, cur, n);
      assert prev.labels <= next.labels && IntToString(n) in next.labels;
      forall p | 1 <= p <= n
        ensures IntToString(p) in next.labels
      {
        if p < n {
          assert IntToString(p) in prev.labels;
        }
      }
    }
  }

  /**
   * After the select loop, the selected option is labelled with the current
   * page when that is one of pages 1 to `n`; otherwise the selection is
   * what it was.
   */
  lemma {:induction false} SelectPagesSelected(sel: PageSelect, cur: int, n: int)
    ensures var r := SelectPages(sel, cur, n);
      if 1 <= cur <= n then 0 <= r.selected < |r.labels| && r.labels[r.selected] == IntToString(cur)
      else r.selected == sel.selected
    decreases n
  {
    if n > 0 {
      var prev := SelectPages(sel, cur, n - 1);
      SelectPagesSelected(sel, cur, n - 1);
      SelectStepFacts(prev, n, cur);
      var next := SelectPages(sel, cur, n);
      IntToStringInjective(cur, n);
      if 1 <= cur < n {
        assert next.selected == prev.selected;
        assert next.labels[prev.selected] == prev.labels[prev.selected];
      }
    }
  }

  /**
   * One step of the select loop appends its page's option when no option
   * reads as it, and selects that option exactly when it reads as the
   * current page.
   */
  lemma SelectStepFacts(sel: PageSelect, page: int, cur: int)
    ensures var text := IntToString(page);
      var next := SelectStep(sel, page, cur);
      && next.labels == sel.labels + (if text in sel.labels then [] else [text])
      && sel.labels <= next.labels && text in next.labels
      && (IntToString(cur) == text ==> 0 <= next.selected < |next.labels| && next.labels[next.selected] == text)
      && (IntToString(cur) != text ==> next.selected == sel.selected)
  {
    var text := IntToString(page);
    var k := IndexOf(sel.labels, text);
    var labels := if k < 0 then sel.labels + [text] else sel.labels;
    var at := if k < 0 then |sel.labels| else k;
    assert at < |labels| && labels[at] == text;
    if k >= 0 {
      assert sel.labels + [] == sel.labels;
    }
  }

  /**
   * One pager with a select: the two data attributes, the select, the
   * `a.prev` link (when present), the `a.next` link (rewritten when
   * present, created when absent and this is not the last page) and the
   * `a.last` link (when present).
   */
  function UpdatePager(p: Pager, cur: int, count: int): Pager
    requires p.select.Some?
  {
    Pager(cur, count, Some(SelectPages(p.select.value, cur, count)),
      if p.prevPage.Some? then Some(cur - 1) else None,
      if p.nextPage.Some? || cur != count then Some(cur + 1) else None,
      if p.last.Some? then Some(LastLink(IntToString(count), count)) else None)
  }

  /**
   * A rewritten pager carries the new cursor; its select keeps its options
   * and gains exactly the missing pages up to the page count, in ascending
   * order, so that every page has one, and selects the current page when it
   * is one of them; `a.prev` points one page back, `a.next` one page on (and
   * exists unless this is the last page and it did not before), and `a.last`
   * reads and points to the page count.
   */
  lemma UpdatePagerOutcome(p: Pager, cur: int, count: int)
    requires p.select.Some?
    ensures var r := UpdatePager(p, cur, count);
      var sel := r.select.value;
      && r.currentPage == cur && r.pageCount == count
      && sel.labels == p.select.value.labels + Missing(p.select.value.labels, count)
      && (forall page :: 1 <= page <= count ==> IntToString(page) in sel.labels)
      && (1 <= cur <= count ==> 0 <= sel.selected < |sel.labels| && sel.labels[sel.selected] == IntToString(cur))
      && (!(1 <= cur <= count) ==> sel.selected == p.select.value.selected)
      && (r.prevPage.Some? <==> p.prevPage.Some?) && (r.prevPage.Some? ==> r.prevPage.value == cur - 1)
      && (r.nextPage.Some? <==> p.nextPage.Some? || cur != count) && (r.nextPage.Some? ==> r.nextPage.value == cur + 1)
      && (r.last.Some? <==> p.last.Some?) && (r.last.Some? ==> r.last.value == LastLink(IntToString(count), count))
  {
    SelectPagesLabels(p.select.value, cur, count);
    SelectPagesCovers(p.select.value, cur, count);
    SelectPagesSelected(p.select.value, cur, count);
  }

  /**
   * `updatePaginations`: every `div.pager` in document order. A pager with
   * no select gets its two data attributes and then stops the loop with
   * ELEMENT_NOT_FOUND, the pagers after it untouched.
   */
  function UpdatePagers(pagers: seq<Pager>, cur: int, count: int): (r: (seq<Pager>, Option<YesilErrorType>))
    decreases |pagers|
  {
    if pagers == [] then ([], None)
    else if pagers[0].select.None? then
      ([pagers[0].(currentPage := cur, pageCount := count)] + pagers[1..], Some(ElementNotFound))
    else
      var rest := UpdatePagers(pagers[1..], cur, count);
      ([UpdatePager(pagers[0], cur, count)] + rest.0, rest.1)
  }

  /** The position of the first pager without a select, or the number of pagers. */
  function FirstWithoutSelect(pagers: seq<Pager>): (m: nat)
    ensures m <= |pagers|
    ensures forall i :: 0 <= i < m ==> pagers[i].select.Some?
    ensures m < |pagers| ==> pagers[m].select.None?
  {
    if pagers == [] || pagers[0].select.None? then 0 else 1 + FirstWithoutSelect(pagers[1..])
  }

  /**
   * The pagers before the first one without a select are fully rewritten,
   * that one gets only its data attributes and raises ELEMENT_NOT_FOUND,
   * and the ones after it are untouched; with no such pager, all are
   * rewritten and nothing is raised.
   */
  lemma {:induction false} UpdatePagersOutcome(pagers: seq<Pager>, cur: int, count: int)
    ensures var r := UpdatePagers(pagers, cur, count);
      var m := FirstWithoutSelect(pagers);
      && |r.0| == |pagers|
      && (r.1 == if m < |pagers| then Some(ElementNotFound) else None)
      && (forall i :: 0 <= i < m ==> r.0[i] == UpdatePager(pagers[i], cur, count))
      && (m < |pagers| ==> r.0[m] == pagers[m].(currentPage := cur, pageCount := count))
      && (forall i :: m < i < |pagers| ==> r.0[i] == pagers[i])
    decreases |pagers|
  {
    if pagers != [] && pagers[0].select.Some? {
      UpdatePagersOutcome(pagers[1..], cur, count);
      var r := UpdatePagers(pagers, cur, count);
      var rest := UpdatePagers(pagers[1..], cur, count);
      assert forall i :: 1 <= i < |pagers| ==> r.0[i] == rest.0[i - 1] && pagers[i] == pagers[1..][i - 1];
    }
  }

  // ---------------------------------------------------------------------
  // One poll
  // ---------------------------------------------------------------------

  /** On the last page, and the fetched page reports more pages than there were. */
  predicate Advances(s: SyncState, page: Topic) {
    s.currentPage == s.pageCount && page.pageCount > s.pageCount
  }

  /**
   * The cursor step of `refreshPage` (fetching on): take the fetched cursor;
   * when a page appeared while on the last one, move to the next page, set
   * the new-page flag and write the page to the URL; rewrite the pagers
   * only when the page count changed.
   */
  function TrackPages(s: SyncState, page: Topic): (SyncState, Option<YesilErrorType>) {
    var advance := Advances(s, page);
    var cur := if advance then page.currentPage + 1 else page.currentPage;
    var s1 := s.(currentPage := cur, pageCount := page.pageCount,
      newEntriesFromNewPage := advance || s.newEntriesFromNewPage,
      addressPage := if advance then Some(cur) else s.addressPage);
    if s.pageCount != page.pageCount then
      var u := UpdatePagers(s.pagers, cur, page.pageCount);
      (s1.(pagers := u.0), u.1)
    else (s1, None)
  }

  /**
   * `refreshPage` given what fetching and parsing the current page gave:
   * nothing when no entry was found, the parser's exception when it threw,
   * and otherwise the merge followed, when fetching is on, by the cursor
   * step, whose ELEMENT_NOT_FOUND from a pager is raised after the changes
   * made before it.
   */
  function Poll(s: SyncState, fetched: Extraction.Extraction, env: Env): (SyncState, Option<Thrown>) {
    match fetched
    case NotFound => (s, None)
    case Threw(t) => (s, Some(t))
    case Found(page) =>
      var m := Merge(s, page.entries, page.pageCount, env);
      if env.opts.fetchEntriesDynamically then
        var t := TrackPages(m, page);
        (t.0, if t.1.Some? then Some(YesilError(t.1.value)) else None)
      else (m, None)
  }

  /** The entries a poll appends and the items it renders, for a fetched page. */
  lemma PollEntriesAndView(s: SyncState, page: Topic, env: Env)
    ensures var r := Poll(s, Extraction.Found(page), env).0;
      var added := if env.opts.fetchEntriesDynamically then Fresh(Ids(s.entries), page.entries) else [];
      && r.entries == s.entries + added
      && SameShape(r.view, s.view + Rendered(s.newEntriesFromNewPage, page.pageCount, added, env.template))
  {
    MergeEntries(s, page.entries, page.pageCount, env);
    MergeView(s, page.entries, page.pageCount, env);
  }

  /**
   * The cursor after a poll of a fetched page. With fetching off, the
   * cursor, the flag, the pagers and the URL are untouched and nothing is
   * raised. With it on, the page count is the fetched one; the cursor is
   * the fetched one, moved one page on when a page appeared while on the
   * last page, in which case the flag is set and the URL names the new
   * page; otherwise the flag is cleared exactly when something was appended.
   * The pagers are rewritten exactly when the page count changed.
   */
  lemma PollCursor(s: SyncState, page: Topic, env: Env)
    ensures var (r, err) := Poll(s, Extraction.Found(page), env);
      var added := Fresh(Ids(s.entries), page.entries);
      if !env.opts.fetchEntriesDynamically then
        && r.currentPage == s.currentPage && r.pageCount == s.pageCount
        && r.newEntriesFromNewPage == s.newEntriesFromNewPage
        && r.pagers == s.pagers && r.addressPage == s.addressPage && err.None?
      else
        var advance := Advances(s, page);
        && r.pageCount == page.pageCount
        && r.currentPage == (if advance then page.currentPage + 1 else page.currentPage)
        && r.newEntriesFromNewPage == (advance || (s.newEntriesFromNewPage && added == []))
        && r.addressPage == (if advance then Some(r.currentPage) else s.addressPage)
        && (s.pageCount == page.pageCount ==> r.pagers == s.pagers && err.None?)
        && (s.pageCount != page.pageCount ==>
              var u := UpdatePagers(s.pagers, r.currentPage, page.pageCount);
              r.pagers == u.0 && err == (if u.1.Some? then Some(YesilError(u.1.value)) else None))
  {
    MergeView(s, page.entries, page.pageCount, env);
  }

  /**
   * When the server answers the page that was asked for (the current one)
   * with a cursor within its page count, the cursor stays within the page
   * count after the poll.
   */
  lemma PollKeepsCursorInRange(s: SyncState, page: Topic, env: Env)
    requires env.opts.fetchEntriesDynamically
    requires page.currentPage == s.currentPage && 1 <= page.currentPage <= page.pageCount
    ensures var r := Poll(s, Extraction.Found(page), env).0;
      1 <= r.currentPage <= r.pageCount
  {
    PollCursor(s, page, env);
  }

  /** Sitting on page 5 of 5, a fetch reporting 6 pages moves to page 6, arms the separator and writes p=6. */
  lemma NewPageAppears(s: SyncState, page: Topic, env: Env)
    requires env.opts.fetchEntriesDynamically
    requires s.currentPage == 5 && s.pageCount == 5 && page.currentPage == 5 && page.pageCount == 6
    ensures var r := Poll(s, Extraction.Found(page), env).0;
      r.currentPage == 6 && r.pageCount == 6 && r.newEntriesFromNewPage && r.addressPage == Some(6)
  {
    PollCursor(s, page, env);
  }

  /** A poll that found nothing or whose parse threw changes nothing. */
  lemma EmptyPollChangesNothing(s: SyncState, fetched: Extraction.Extraction, env: Env)
    requires !fetched.Found?
    ensures Poll(s, fetched, env).0 == s
    ensures Poll(s, fetched, env).1.Some? <==> fetched.Threw?
  {
  }

  /**
   * With fetching off, polling the same page twice changes nothing the
   * second time, provided the page's ids are distinct: the first poll has
   * already brought every rendered known entry up to date.
   */
  lemma SecondPollChangesNothing(s: SyncState, fetched: Extraction.Extraction, env: Env)
    requires !env.opts.fetchEntriesDynamically
    requires fetched.Found? ==> DistinctIds(fetched.topic.entries)
    ensures Poll(Poll(s, fetched, env).0, fetched, env) == Poll(s, fetched, env)
  {
    if fetched.Found? {
      var page := fetched.topic;
      var r := Merge(s, page.entries, page.pageCount, env);
      MergeEntries(s, page.entries, page.pageCount, env);
      assert r.entries == s.entries;
      if env.opts.updateCurrentEntries {
        MergeSettles(s, page.entries, page.pageCount, env);
      }
      MergeSettledIsNoOp(r, page.entries, page.pageCount, env);
    }
  }

  /** What the counterexample needs of the template; `createEntryElement` has it. */
  predicate RendersEmptyCounter(template: Entry -> ItemNode, e: Entry) {
    IsItemFor(EntryItem(template(e)), e.id) && template(e).favoriteCount == Some(FavoriteCounter("", false))
  }

  lemma CreateEntryElementRendersEmptyCounter(e: Entry)
    ensures RendersEmptyCounter(CreateEntryElement, e)
  {
    Extraction.CreatedDataset(e);
  }

  /**
   * With fetching and updating on, polling twice a page holding one new
   * entry with a nonzero favorite count is not idempotent: the template
   * writes the counter empty and hidden, and the second poll, finding the
   * entry known, writes the count into it, shows it and highlights it.
   */
  lemma SecondPollRewritesNewCounter(s: SyncState, e: Entry, pageCount: int, env: Env)
    requires env.opts.fetchEntriesDynamically && env.opts.updateCurrentEntries
    requires env.template == CreateEntryElement
    requires e.id !in Ids(s.entries) && FindItem(s.view, e.id) < 0 && e.favoriteCount != 0
    ensures var fetched := Extraction.Found(Topic([e], s.currentPage, pageCount));
      var r := Poll(s, fetched, env).0;
      Poll(r, fetched, env).0.view != r.view
  {
    CreateEntryElementRendersEmptyCounter(e);
    var fetched := Extraction.Found(Topic([e], s.currentPage, pageCount));
    var r := Poll(s, fetched, env).0;
    var k := FirstPollRendersEmptyCounter(s, e, pageCount, env);
    SecondPollShowsCounter(r, e, k, pageCount, env);
  }

  /** The first poll renders the new entry's item, with its empty counter, as the entry's only item. */
  lemma FirstPollRendersEmptyCounter(s: SyncState, e: Entry, pageCount: int, env: Env) returns (k: nat)
    requires env.opts.fetchEntriesDynamically
    requires RendersEmptyCounter(env.template, e)
    requires e.id !in Ids(s.entries) && FindItem(s.view, e.id) < 0
    ensures var r := Poll(s, Extraction.Found(Topic([e], s.currentPage, pageCount)), env).0;
      && e.id in Ids(r.entries) && FindItem(r.view, e.id) == k
      && r.view[k].item.favoriteCount == Some(FavoriteCounter("", false))
  {
    IdsMembers(s.entries, e.id);
    var s1 := if s.newEntriesFromNewPage then InsertSeparator(s, pageCount) else s;
    var m := MergeStep(s, e, pageCount, env);
    assert m.view == s1.view + [EntryItem(env.template(e))];
    assert [e][1..] == [];
    assert Merge(s, [e], pageCount, env) == m;
    assert FindItem(s1.view, e.id) < 0;
    k := |s1.view|;
    FindItemAppended(s1.view, EntryItem(env.template(e)), e.id);
    IdsAppend(s.entries, e);
    var page := Topic([e], s.currentPage, pageCount);
    assert TrackPages(m, page).0.view == m.view && TrackPages(m, page).0.entries == m.entries;
  }

  lemma {:induction false} FindItemAppended(v: seq<ViewNode>, n: ViewNode, id: int)
    requires FindItem(v, id) < 0 && IsItemFor(n, id)
    ensures FindItem(v + [n], id) == |v|
  {
    if v == [] {
      assert v + [n] == [n];
    } else {
      assert (v + [n])[1..] == v[1..] + [n];
      FindItemAppended(v[1..], n, id);
    }
  }

  /** A poll of the entry rendered with an empty counter writes and shows the count. */
  lemma SecondPollShowsCounter(r: SyncState, e: Entry, k: nat, pageCount: int, env: Env)
    requires env.opts.updateCurrentEntries && e.favoriteCount != 0
    requires e.id in Ids(r.entries) && FindItem(r.view, e.id) == k
    requires r.view[k].item.favoriteCount == Some(FavoriteCounter("", false))
    ensures Poll(r, Extraction.Found(Topic([e], r.currentPage, pageCount)), env).0.view != r.view
  {
    IdsMembers(r.entries, e.id);
    assert [e][1..] == [];
    var c := PatchContent(r, k, e, env);
    assert c.view[k].item.favoriteCount == r.view[k].item.favoriteCount;
    assert IntToString(e.favoriteCount) != "";
    var t := PatchFavoriteCount(c, k, e, env);
    assert t.view[k].item.favoriteCount.value.shown;
    assert Merge(r, [e], pageCount, env) == t;
  }
}
