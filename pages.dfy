/**
 * Page detection and the dynamic-content slot: the page id is derived from
 * the location's path, and the pages `index`, `cadastro` and `projetos` get
 * their own fragment injected into the `dynamicContent` element.
 */
module Pages {
  import opened Optional
  import opened Text

  const HtmlSuffix: string := ".html"
  const DefaultPage: string := "index"

  /** `path.split('/').pop()`: what follows the last `/`, or the whole path
      when it has none. */
  function LastSegment(path: string): (r: string)
    ensures '/' !in r
    ensures |r| <= |path| && path[|path| - |r|..] == r
    ensures |r| < |path| ==> path[|path| - |r| - 1] == '/'
  {
    if path == [] then []
    else if path[|path| - 1] == '/' then []
    else LastSegment(path[..|path| - 1]) + [path[|path| - 1]]
  }

  /** Cutting a pattern out of a string adds no character. */
  lemma RemoveFirstChars(s: string, pat: string)
    requires pat != []
    ensures forall c :: c in RemoveFirst(s, pat) ==> c in s
  {
    match IndexOf(s, pat)
    case None =>
    case Some(i) =>
      assert OccursAt(s, pat, i);
      CutKeepsElements(s, i, |pat|);
  }

  /** `currentPage`: the last path segment with its first `.html` cut out,
      or `index` when nothing is left. */
  function PageId(path: string): (id: string)
    ensures id != []
    ensures '/' !in id
  {
    var seg := LastSegment(path);
    var name := RemoveFirst(seg, HtmlSuffix);
    RemoveFirstChars(seg, HtmlSuffix);
    if name == [] then DefaultPage
    else name
  }

  /** When `name` lacks the first character of `pat`, no occurrence of `pat`
      in `name + pat + rest` starts inside `name`. */
  lemma PatternAfterName(name: string, pat: string, rest: string)
    requires pat != [] && pat[0] !in name
    ensures forall j: nat :: j < |name| ==> !OccursAt(name + pat + rest, pat, j)
  {
    var seg := name + pat + rest;
    forall j: nat | j < |name| ensures !OccursAt(seg, pat, j) {
      assert seg[j..j + |pat|][0] == seg[j] == name[j];
    }
  }

  /** When no occurrence of `pat` starts inside `name`, cutting the first
      occurrence out of `name + pat + rest` leaves `name + rest`. */
  lemma CutAfterName(name: string, pat: string, rest: string)
    requires pat != []
    requires forall j: nat :: j < |name| ==> !OccursAt(name + pat + rest, pat, j)
    ensures RemoveFirst(name + pat + rest, pat) == name + rest
  {
    var seg := name + pat + rest;
    assert seg[|name|..|name| + |pat|] == pat;
    IndexOfFirst(seg, pat, |name|);
    assert seg[..|name|] == name && seg[|name| + |pat|..] == rest;
  }

  /** Whatever precedes the last `/` does not matter. */
  lemma {:induction false} SegmentAfterSlash(prefix: string, seg: string)
    requires prefix != [] && prefix[|prefix| - 1] == '/' && '/' !in seg
    ensures LastSegment(prefix + seg) == seg
  {
    var path := prefix + seg;
    if seg == [] {
      assert path == prefix;
    } else {
      var init, last := seg[..|seg| - 1], seg[|seg| - 1];
      assert path[|path| - 1] == last && last in seg;
      assert path[..|path| - 1] == prefix + init;
      assert '/' !in init by {
        forall k | 0 <= k < |init| ensures init[k] != '/' {
          assert init[k] == seg[k];
        }
      }
      SegmentAfterSlash(prefix, init);
      assert LastSegment(path) == LastSegment(prefix + init) + [last];
      assert seg == init + [last];
    }
  }

  /** The last segment `name.html` + `rest` of a path, where no `.html`
      starts inside `name`, has page id `name` + `rest`, or `index` when that
      is empty: only the first `.html` is cut, wherever the segment's
      directory is. */
  lemma PageIdOfFile(dir: string, name: string, rest: string)
    requires '/' !in name && '/' !in rest
    requires forall j: nat :: j < |name| ==> !OccursAt(name + HtmlSuffix + rest, HtmlSuffix, j)
    ensures PageId(dir + "/" + name + HtmlSuffix + rest) == if name + rest == [] then DefaultPage else name + rest
  {
    var path := dir + "/" + name + HtmlSuffix + rest;
    var seg := name + HtmlSuffix + rest;
    assert LastSegment(path) == seg by {
      assert path == (dir + "/") + seg;
      assert forall c :: c in seg ==> c in name || c in HtmlSuffix || c in rest;
      SegmentAfterSlash(dir + "/", seg);
    }
    CutAfterName(name, HtmlSuffix, rest);
  }

  /** A name without a dot, such as `cadastro`, meets the condition of
      `PageIdOfFile`. */
  lemma DotFreeName(dir: string, name: string, rest: string)
    requires '/' !in name && '/' !in rest && '.' !in name
    ensures PageId(dir + "/" + name + HtmlSuffix + rest) == if name + rest == [] then DefaultPage else name + rest
  {
    PatternAfterName(name, HtmlSuffix, rest);
    PageIdOfFile(dir, name, rest);
  }

  /** A directory path, such as the site root, is the `index` page. */
  lemma DirectoryIsIndex(dir: string)
    requires dir != [] && dir[|dir| - 1] == '/'
    ensures PageId(dir) == DefaultPage
  {
    assert LastSegment(dir) == [];
    assert IndexOf([], HtmlSuffix) == None;
  }

  // ---------------------------------------------------------------------
  // The template slot.

  /** The three fragments of the template table, taken as opaque markup. */
  datatype Fragment = Achievements | Opportunities | Images

  /** What the `dynamicContent` element shows: the page's own markup, a
      fragment of the table, or the text of an inherited property of the
      table object. */
  datatype Slot = Markup(html: string) | Injected(fragment: Fragment) | PropertyText(name: string)

  /** The table's own keys and their fragments. */
  const Templates: map<string, Fragment> :=
    map["index" := Achievements, "cadastro" := Opportunities, "projetos" := Images]

  /** The names every object literal inherits from `Object.prototype`; each
      is a function or an object, so a lookup under one of them is truthy. */
  const InheritedNames: set<string> := {
    "constructor", "hasOwnProperty", "isPrototypeOf", "propertyIsEnumerable",
    "toLocaleString", "toString", "valueOf", "__proto__",
    "__defineGetter__", "__defineSetter__", "__lookupGetter__", "__lookupSetter__"
  }

  /** The lookup as intended: the slot is replaced exactly for the table's
      own keys. */
  function Inject(page: string, slot: Slot): (r: Slot)
  {
    if page in Templates then Injected(Templates[page]) else slot
  }

  /** The slot changes only on the three template pages, where it gets that
      page's fragment, and injecting twice is injecting once. */
  lemma InjectEffect(page: string, slot: Slot)
    ensures page !in {"index", "cadastro", "projetos"} ==> Inject(page, slot) == slot
    ensures page == "index" ==> Inject(page, slot) == Injected(Achievements)
    ensures page == "cadastro" ==> Inject(page, slot) == Injected(Opportunities)
    ensures page == "projetos" ==> Inject(page, slot) == Injected(Images)
    ensures Inject(page, Inject(page, slot)) == Inject(page, slot)
  {
  }

  /** Page load: the slot, when the page has one, after the lookup. */
  function LoadedSlot(path: string, slot: Option<Slot>): (r: Option<Slot>)
    ensures slot.None? ==> r.None?
    ensures slot.Some? && PageId(path) !in Templates ==> r == slot
  {
    match slot
    case None => None
    case Some(s) => Some(Inject(PageId(path), s))
  }

  /** The lookup as written: `templates[currentPage]` also finds the
      inherited names, and the slot then shows that property as text. */
  function InjectAsWritten(page: string, slot: Slot): (r: Slot)
    ensures page in Templates ==> r == Inject(page, slot)
  {
    if page in Templates then Injected(Templates[page])
    else if page in InheritedNames then PropertyText(page)
    else slot
  }

  /** Both lookups agree except on the inherited names. */
  lemma AsWrittenAgrees(page: string, slot: Slot)
    ensures InjectAsWritten(page, slot) == Inject(page, slot) <==> page !in InheritedNames || slot == PropertyText(page)
  {
    assert forall n :: n in InheritedNames ==> n !in Templates;
  }

  lemma ToStringPath()
    ensures "/toString.html" == "" + "/" + "toString" + HtmlSuffix + ""
  {
  }

  /** The page `/toString.html` is not a template page, yet the written
      lookup overwrites its slot. */
  lemma ToStringPageOverwritesSlot(slot: Slot)
    requires slot != PropertyText("toString")
    ensures PageId("/toString.html") == "toString"
    ensures Inject(PageId("/toString.html"), slot) == slot
    ensures InjectAsWritten(PageId("/toString.html"), slot) != slot
  {
    assert PageId("/toString.html") == "toString" by {
      ToStringPath();
      DotFreeName("", "toString", "");
    }
    AsWrittenAgrees("toString", slot);
  }
}
