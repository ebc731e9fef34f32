/**
 * `content_list_view` (lines 115-190), the `the_content` filter: it anchors
 * every `h2` and `h3` of a singular post and, when the post asks for it,
 * puts the outline in front of the re-serialised document.
 *
 * The host supplies what the model cannot compute: whether the page is
 * singular, the post's meta values, the encoding conversion of line 124, the
 * parsed document (its elements in document order), `translit`, the
 * translated title and the serialiser `saveHTML`, which sees the state of the
 * elements after anchoring.
 */
module View {
  import opened PhpValues
  import opened Headings
  import opened Collection
  import opened Ordering
  import opened Outline
  import opened Render

  /** Lines 120 and 146: the outline shows when `contentlist_need` is truthy. */
  predicate Visible(meta: map<string, string>) {
    !Falsy(MetaValue(meta, "contentlist_need"))
  }

  /** Lines 121 and 164: one-level mode when `contentlist_one_level` is truthy. */
  predicate OneLevel(meta: map<string, string>) {
    !Falsy(MetaValue(meta, "contentlist_one_level"))
  }

  /** The outline the page shows, built from the list collected before anchoring. */
  function PageOutline(collected: seq<HeaderRecord>, oneLevel: bool, title: string): string {
    var sorted := InsertionSort(collected);
    ListHtml(RootsOf(sorted), GroupSpec(sorted, oneLevel), title)
  }

  /** `usort` works on a copy of the list held in an array. */
  method SortRecords(list: seq<HeaderRecord>) returns (sorted: seq<HeaderRecord>)
    ensures sorted == InsertionSort(list)
  {
    var a := new HeaderRecord[|list|](k requires 0 <= k < |list| => list[k]);
    assert a[..] == list;
    SortByLine(a);
    sorted := a[..];
  }

  /** Lines 148-187: sort, group and render the collected list. */
  method BuildOutline(headersList: seq<HeaderRecord>, isOneLevel: bool, title: string) returns (html: string)
    ensures html == PageOutline(headersList, isOneLevel, title)
  {
    var sorted := SortRecords(headersList);
    var list, sublists := Group(sorted, isOneLevel);
    html := ListHtml(list, sublists, title);
  }

  /**
   * Lines 118-189, on a singular page: every heading is anchored; a hidden
   * outline returns the encoded input, which carries no anchors, and a
   * visible one returns the outline followed by the serialised document.
   */
  method SingularView(content: string, meta: map<string, string>,
                      encode: string -> string, doc: seq<HeadingNode>, translit: string -> string,
                      title: string, saveHtml: (seq<map<string, string>>, seq<seq<Node>>) -> string)
    returns (r: string)
    requires Distinct(doc)
    modifies ElementsByTagName(doc, "h2"), ElementsByTagName(doc, "h3")
    ensures var h2s, h3s, list := ElementsByTagName(doc, "h2"), ElementsByTagName(doc, "h3"), old(Collected(doc, translit));
      && Anchored(AttrsOf(h2s), ChildrenOf(h2s), list[..|h2s|], old(AttrsOf(h2s)), old(ChildrenOf(h2s)))
      && Anchored(AttrsOf(h3s), ChildrenOf(h3s), list[|h2s|..], old(AttrsOf(h3s)), old(ChildrenOf(h3s)))
    ensures !Visible(meta) ==> r == encode(content)
    ensures Visible(meta) ==>
      r == PageOutline(old(Collected(doc, translit)), OneLevel(meta), title) + saveHtml(AttrsOf(doc), ChildrenOf(doc))
  {
    ghost var collected := Collected(doc, translit);
    var headersList := CollectHeaders(doc, translit);
    assert headersList == collected;
    r := Respond(content, meta, encode, headersList, title, saveHtml(AttrsOf(doc), ChildrenOf(doc)));
  }

  /**
   * Lines 120-121 and 146-189, once the headings are collected: a falsy
   * `contentlist_need` returns the encoded input; otherwise the outline of
   * the list, in the mode `contentlist_one_level` selects, goes in front of
   * the serialised document.
   */
  method Respond(content: string, meta: map<string, string>, encode: string -> string,
                 headersList: seq<HeaderRecord>, title: string, serialised: string) returns (r: string)
    ensures !Visible(meta) ==> r == encode(content)
    ensures Visible(meta) ==> r == PageOutline(headersList, OneLevel(meta), title) + serialised
  {
    var needValue := MetaValue(meta, "contentlist_need");
    var oneLevelValue := MetaValue(meta, "contentlist_one_level");
    var encoded := encode(content);
    if Falsy(needValue) {
      return encoded;
    }
    var html := BuildOutline(headersList, !Falsy(oneLevelValue), title);
    r := html + serialised;
  }

  /**
   * Lines 115-190. Not singular: the content comes back unchanged and
   * nothing is touched. Otherwise the page is built as `SingularView` says.
   */
  method ContentListView(content: string, isSingular: bool, meta: map<string, string>,
                         encode: string -> string, doc: seq<HeadingNode>, translit: string -> string,
                         title: string, saveHtml: (seq<map<string, string>>, seq<seq<Node>>) -> string)
    returns (r: string)
    requires Distinct(doc)
    modifies ElementsByTagName(doc, "h2"), ElementsByTagName(doc, "h3")
    ensures !isSingular ==> r == content && AttrsOf(doc) == old(AttrsOf(doc)) && ChildrenOf(doc) == old(ChildrenOf(doc))
    ensures isSingular ==> var h2s, h3s, list := ElementsByTagName(doc, "h2"), ElementsByTagName(doc, "h3"), old(Collected(doc, translit));
      && Anchored(AttrsOf(h2s), ChildrenOf(h2s), list[..|h2s|], old(AttrsOf(h2s)), old(ChildrenOf(h2s)))
      && Anchored(AttrsOf(h3s), ChildrenOf(h3s), list[|h2s|..], old(AttrsOf(h3s)), old(ChildrenOf(h3s)))
    ensures isSingular && !Visible(meta) ==> r == encode(content)
    ensures isSingular && Visible(meta) ==>
      r == PageOutline(old(Collected(doc, translit)), OneLevel(meta), title) + saveHtml(AttrsOf(doc), ChildrenOf(doc))
  {
    if !isSingular {
      return content;
    }
    r := SingularView(content, meta, encode, doc, translit, title, saveHtml);
  }

  /** A singular page with a visible outline but no `h2` or `h3` still gets an empty outline section. */
  lemma EmptyOutline(oneLevel: bool, title: string)
    ensures PageOutline([], oneLevel, title) == SectionOpen + title + TitleClose + SectionClose
  {
    assert InsertionSort([]) == [];
    assert RootsOf([]) == [];
  }
}
