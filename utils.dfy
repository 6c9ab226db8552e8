/** The helpers of the extension: coercions, URL tests, geometry, lookup and the entry template. */
module Utils {
  import opened Wrappers
  import opened Text
  import opened Dates
  import opened Types
  import opened Dom

  /** A JavaScript value of unknown type, as far as the helpers distinguish them. */
  datatype JsValue = Undefined | Bool(b: bool) | Str(s: string) | Num(n: int)

  /** The kinds of `YesilError`. */
  datatype YesilErrorType = NotApplicable | ElementNotFound | ElementWrongType | ApiError

  /** What can be thrown out of the core: a `YesilError`, a typia assertion failure, or a null dereference. */
  datatype Thrown = YesilError(kind: YesilErrorType) | TypeGuardError | TypeError

  /** `stringToBoolean`: only the boolean `true` and the exact text "true" are true. */
  function StringToBoolean(v: JsValue): (r: bool)
    ensures r <==> v == Bool(true) || v == Str("true")
  {
    match v
    case Bool(b) => b
    case Str(s) => s == "true"
    case _ => false
  }

  /** `String(b)`, which is how the entry template writes a flag. */
  function BoolToString(b: bool): (s: string)
    ensures StringToBoolean(Str(s)) == b
  {
    if b then "true" else "false"
  }

  lemma StringToBooleanRejects()
    ensures !StringToBoolean(Str("True")) && !StringToBoolean(Str("1"))
    ensures !StringToBoolean(Undefined) && !StringToBoolean(Num(1)) && !StringToBoolean(Bool(false))
  {
  }

  /**
   * `getElementByXpath`: walk the nodes the expression selects, in iteration
   * order; with no parent the first node is the answer, otherwise the first
   * node the parent contains; null (None) when there is none.
   */
  method GetElementByXpath<N, P>(nodes: seq<N>, parent: Option<P>, contains: (P, N) -> bool)
    returns (r: Option<N>)
    ensures parent.None? ==> r == if |nodes| == 0 then None else Some(nodes[0])
    ensures parent.Some? ==> (r.None? <==> forall k :: 0 <= k < |nodes| ==> !contains(parent.value, nodes[k]))
    ensures parent.Some? && r.Some? ==>
      exists k :: 0 <= k < |nodes| && r.value == nodes[k] && contains(parent.value, nodes[k])
        && forall j :: 0 <= j < k ==> !contains(parent.value, nodes[j])
  {
    var i := 0;
    while i < |nodes|
      invariant 0 <= i <= |nodes|
      invariant parent.None? ==> i == 0
      invariant parent.Some? ==> forall j :: 0 <= j < i ==> !contains(parent.value, nodes[j])
    {
      var node := nodes[i];
      if parent.None? {
        return Some(node);
      }
      if contains(parent.value, node) {
        return Some(node);
      }
      i := i + 1;
    }
    return None;
  }

  /** The height `isElementInViewport` measures against: `innerHeight || clientHeight`. */
  function ViewportHeight(w: Window): real {
    if w.innerHeight != 0.0 then w.innerHeight else w.clientHeight
  }

  function ViewportWidth(w: Window): real {
    if w.innerWidth != 0.0 then w.innerWidth else w.clientWidth
  }

  /** The viewport as a rectangle in client coordinates. */
  function ViewportRect(w: Window): Rect {
    Rect(0.0, 0.0, ViewportHeight(w), ViewportWidth(w))
  }

  /** `inner` lies entirely inside `outer`. */
  predicate Within(inner: Rect, outer: Rect) {
    outer.top <= inner.top && outer.left <= inner.left && inner.bottom <= outer.bottom && inner.right <= outer.right
  }

  /** `isElementInViewport`: the element's rectangle lies entirely within the viewport. */
  function IsElementInViewport(rect: Rect, w: Window): (r: bool)
    ensures r <==> Within(rect, ViewportRect(w))
  {
    rect.top >= 0.0 && rect.left >= 0.0
    && rect.bottom <= (if w.innerHeight != 0.0 then w.innerHeight else w.clientHeight)
    && rect.right <= (if w.innerWidth != 0.0 then w.innerWidth else w.clientWidth)
  }

  /** A character of the class `[\w\d-]`. */
  predicate IsSlugChar(c: char) {
    ('a' <= c <= 'z') || ('A' <= c <= 'Z') || IsDigit(c) || c == '_' || c == '-'
  }

  /** `s[a..c]` matches `[\w\d-]+--\d+` with the `--` at `b`. */
  predicate SlugPatternAt(s: string, a: int, b: int, c: int) {
    && 0 <= a < b && b + 2 < c <= |s|
    && (forall k :: a <= k < b ==> IsSlugChar(s[k]))
    && s[b] == '-' && s[b + 1] == '-'
    && (forall k :: b + 2 <= k < c ==> IsDigit(s[k]))
  }

  /** At `i` stands `--`, a slug character just before it and a digit just after it. */
  predicate SlugAnchorAt(s: string, i: int) {
    1 <= i && i + 2 < |s| && IsSlugChar(s[i - 1]) && s[i] == '-' && s[i + 1] == '-' && IsDigit(s[i + 2])
  }

  lemma SlugPatternIffAnchor(s: string)
    ensures (exists a, b, c :: SlugPatternAt(s, a, b, c)) <==> (exists i :: SlugAnchorAt(s, i))
  {
    if exists a, b, c :: SlugPatternAt(s, a, b, c) {
      var a, b, c :| SlugPatternAt(s, a, b, c);
      assert SlugAnchorAt(s, b);
    }
    if exists i :: SlugAnchorAt(s, i) {
      var i :| SlugAnchorAt(s, i);
      assert SlugPatternAt(s, i - 1, i, i + 3);
    }
  }

  /**
   * `isEksiSlug`: the unanchored pattern `([\w\d-]+)--(\d+)` occurs in `s`,
   * which is the case exactly when some `--` has a slug character before it
   * and a digit after it.
   */
  function IsEksiSlug(s: string): (r: bool)
    ensures r <==> exists i :: SlugAnchorAt(s, i)
  {
    SlugPatternIffAnchor(s);
    exists a, b, c | 0 <= a < b && b + 2 < c <= |s| :: SlugPatternAt(s, a, b, c)
  }

  /** `s[a..c]` matches `entry\/[1-9]+`. */
  predicate EntryPathPatternAt(s: string, a: int, c: int) {
    && 0 <= a && a + 6 < c <= |s|
    && s[a..a + 6] == "entry/"
    && (forall k :: a + 6 <= k < c ==> '1' <= s[k] <= '9')
  }

  /** At `a` stands "entry/" followed by a digit from 1 to 9. */
  predicate EntryPathAnchorAt(s: string, a: int) {
    0 <= a && a + 6 < |s| && s[a..a + 6] == "entry/" && '1' <= s[a + 6] <= '9'
  }

  lemma EntryPathPatternIffAnchor(s: string)
    ensures (exists a, c :: EntryPathPatternAt(s, a, c)) <==> (exists a :: EntryPathAnchorAt(s, a))
  {
    if exists a, c :: EntryPathPatternAt(s, a, c) {
      var a, c :| EntryPathPatternAt(s, a, c);
      assert EntryPathAnchorAt(s, a);
    }
    if exists a :: EntryPathAnchorAt(s, a) {
      var a :| EntryPathAnchorAt(s, a);
      assert EntryPathPatternAt(s, a, a + 7);
    }
  }

  /**
   * `isEksiEntryPath`: the unanchored pattern `entry\/([1-9]+)` occurs in
   * `p`, which is the case exactly when some "entry/" is followed by 1 to 9.
   */
  function IsEksiEntryPath(p: string): (r: bool)
    ensures r <==> exists a :: EntryPathAnchorAt(p, a)
  {
    EntryPathPatternIffAnchor(p);
    exists a, c | 0 <= a && a + 6 < c <= |p| :: EntryPathPatternAt(p, a, c)
  }

  lemma UrlTestExamples()
    ensures IsEksiSlug("pena--31782")
    ensures !IsEksiSlug("--1")
    ensures IsEksiEntryPath("/entry/105")
    ensures !IsEksiEntryPath("/entry/0")
  {
    assert SlugAnchorAt("pena--31782", 4);
    var p := "/entry/105";
    assert p[1..7] == "entry/";
    assert EntryPathAnchorAt(p, 1);
  }

  const DateIndent: string := "\n\t\t\t\t\t\t\t\t\t"
  const DateOutdent: string := "\n\t\t\t\t\t\t\t\t"

  /**
   * The element `createEntryElement` builds for an entry, as far as the core
   * reads it back: the `data-*` attributes, the date link's text, the
   * content, the avatar `src` and the author link; the favorite counter is
   * written empty and hidden.
   */
  function CreateEntryElement(e: Entry): ItemNode {
    ItemNode(
      true,
      map[
        "id" := IntToString(e.id),
        "author" := e.author,
        "authorId" := IntToString(e.authorId),
        "flags" := "share msg report vote entrymodlog favorite",
        "isfavorite" := BoolToString(e.isFavorite),
        "ispinned" := BoolToString(e.isPinned),
        "ispinnedonprofile" := BoolToString(e.isPinnedOnProfile),
        "favoriteCount" := IntToString(e.favoriteCount),
        "seylerSlug" := "",
        "commentCount" := IntToString(e.commentCount),
        "show" := "true"],
      Some(DateIndent + FormatDateTime(e.entryDate) + DateOutdent),
      Some(e.content),
      Some(match e.authorAvatar case Some(a) => a case None => "undefined"),
      Some("/biri/" + e.authorSlug),
      Some(FavoriteCounter("", false)))
  }
}
