/**
 * The collection loops of `content_list_view`: every `h2` of the document
 * is handled as a root heading, then every `h3` as a sub-heading, and their
 * records are appended to one list in that order.
 */
module Collection {
  import opened Headings

  /** `DOMDocument::getElementsByTagName`: the elements with tag `tag`, in document order. */
  function ElementsByTagName(doc: seq<HeadingNode>, tag: string): (r: seq<HeadingNode>)
    ensures forall k :: 0 <= k < |r| ==> r[k] in doc && r[k].tag == tag
  {
    if doc == [] then []
    else (if doc[0].tag == tag then [doc[0]] else []) + ElementsByTagName(doc[1..], tag)
  }

  /**
   * `idx` picks `r` out of `doc` in document order: `r[k]` is the element at
   * position `idx[k]`, and the positions strictly increase.
   */
  ghost predicate PicksInOrder(doc: seq<HeadingNode>, r: seq<HeadingNode>, idx: seq<nat>) {
    && |idx| == |r|
    && (forall k :: 0 <= k < |idx| ==> idx[k] < |doc| && doc[idx[k]] == r[k])
    && (forall i, j :: 0 <= i < j < |idx| ==> idx[i] < idx[j])
  }

  /** Every position moved one element further into the document. */
  ghost function Shift(idx: seq<nat>): seq<nat> {
    seq(|idx|, k requires 0 <= k < |idx| => idx[k] + 1)
  }

  /** Putting one element in front of the document keeps a selection in order, whether or not it is selected. */
  lemma PicksCons(d: HeadingNode, tail: seq<HeadingNode>, r: seq<HeadingNode>, idx: seq<nat>, pick: bool)
    requires PicksInOrder(tail, r, idx)
    ensures PicksInOrder([d] + tail, (if pick then [d] else []) + r, (if pick then [0] else []) + Shift(idx))
  {
    var doc, sh := [d] + tail, Shift(idx);
    assert forall k :: 0 <= k < |sh| ==> doc[sh[k]] == tail[idx[k]];
  }

  /** The document positions of the elements with tag `tag`, in increasing order. */
  ghost function Positions(doc: seq<HeadingNode>, tag: string): (idx: seq<nat>)
    ensures PicksInOrder(doc, ElementsByTagName(doc, tag), idx)
  {
    if doc == [] then []
    else
      var rest := Positions(doc[1..], tag);
      PicksCons(doc[0], doc[1..], ElementsByTagName(doc[1..], tag), rest, doc[0].tag == tag);
      assert [doc[0]] + doc[1..] == doc;
      (if doc[0].tag == tag then [0] else []) + Shift(rest)
  }

  /** `getElementsByTagName` returns the elements in document order. */
  lemma ElementsInOrder(doc: seq<HeadingNode>, tag: string)
    ensures exists idx :: PicksInOrder(doc, ElementsByTagName(doc, tag), idx)
  {
    var idx := Positions(doc, tag);
  }

  /** Filtering a document whose elements are distinct keeps them distinct. */
  lemma {:induction false} ElementsDistinct(doc: seq<HeadingNode>, tag: string)
    requires Distinct(doc)
    ensures Distinct(ElementsByTagName(doc, tag))
  {
    if doc != [] {
      ElementsDistinct(doc[1..], tag);
      assert forall k :: 1 <= k < |doc| ==> doc[k] in doc[1..];
    }
  }

  /** No element appears twice in the document. */
  predicate Distinct(ns: seq<HeadingNode>) {
    forall i, j :: 0 <= i < j < |ns| ==> ns[i] != ns[j]
  }

  /** The current text content of each element of `ns`. */
  function Texts(ns: seq<HeadingNode>): seq<string>
    reads ns
  {
    seq(|ns|, k reads ns requires 0 <= k < |ns| => TextContent(ns[k].children))
  }

  /** The current attributes of each element of `ns`. */
  function AttrsOf(ns: seq<HeadingNode>): seq<map<string, string>>
    reads ns
  {
    seq(|ns|, k reads ns requires 0 <= k < |ns| => ns[k].attrs)
  }

  /** The current children of each element of `ns`. */
  function ChildrenOf(ns: seq<HeadingNode>): seq<seq<Node>>
    reads ns
  {
    seq(|ns|, k reads ns requires 0 <= k < |ns| => ns[k].children)
  }

  /** The records `handleHeader` builds for elements `ns` whose texts are `texts`. */
  function Records(ns: seq<HeadingNode>, texts: seq<string>, isRoot: bool, translit: string -> string): seq<HeaderRecord>
    requires |texts| == |ns|
  {
    seq(|ns|, k requires 0 <= k < |ns| => MakeRecord(texts[k], ns[k].line, isRoot, translit))
  }

  /** The records of one heading level are the records of its parts, in order. */
  lemma {:induction false} RecordsAppend(ns: seq<HeadingNode>, texts: seq<string>, i: nat, isRoot: bool, translit: string -> string)
    requires |texts| == |ns| && i < |ns|
    ensures Records(ns[..i + 1], texts[..i + 1], isRoot, translit)
         == Records(ns[..i], texts[..i], isRoot, translit) + [MakeRecord(texts[i], ns[i].line, isRoot, translit)]
  {
  }

  /**
   * Element by element, the state `handleHeader` leaves behind: the old
   * attributes plus `data-anchored`, and the anchor of the element's own
   * record before the old children.
   */
  ghost predicate Anchored(attrs: seq<map<string, string>>, children: seq<seq<Node>>, recs: seq<HeaderRecord>,
                           oldAttrs: seq<map<string, string>>, oldChildren: seq<seq<Node>>)
  {
    && |attrs| == |children| == |recs| == |oldAttrs| == |oldChildren|
    && forall k :: 0 <= k < |recs| ==>
         attrs[k] == oldAttrs[k]["data-anchored" := ""] && children[k] == [AnchorFor(recs[k])] + oldChildren[k]
  }

  /**
   * One `foreach` loop of lines 135-137 or 141-143: handles the elements
   * `ns` in order; the records follow the elements and each element is
   * anchored with its own record.
   */
  method HandleAll(ns: seq<HeadingNode>, isRoot: bool, translit: string -> string) returns (recs: seq<HeaderRecord>)
    requires Distinct(ns)
    modifies ns
    ensures recs == Records(ns, old(Texts(ns)), isRoot, translit)
    ensures Anchored(AttrsOf(ns), ChildrenOf(ns), recs, old(AttrsOf(ns)), old(ChildrenOf(ns)))
  {
    ghost var texts, attrs, children := Texts(ns), AttrsOf(ns), ChildrenOf(ns);
    recs := [];
    for i := 0 to |ns|
      invariant recs == Records(ns[..i], texts[..i], isRoot, translit)
      invariant forall k :: 0 <= k < i ==>
        ns[k].attrs == attrs[k]["data-anchored" := ""] && ns[k].children == [AnchorFor(recs[k])] + children[k]
      invariant forall k :: i <= k < |ns| ==> ns[k].attrs == attrs[k] && ns[k].children == children[k]
    {
      var rec := HandleHeader(ns[i], isRoot, translit);
      RecordsAppend(ns, texts, i, isRoot, translit);
      recs := recs + [rec];
    }
    assert ns[..|ns|] == ns && texts[..|ns|] == texts;
  }

  /**
   * Lines 129-144: handles every `h2` as a root, then every `h3` as a
   * sub-heading. The list holds the `h2` records in document order followed
   * by the `h3` records, and every heading is anchored with its own record.
   * Only the headings change.
   */
  method CollectHeaders(doc: seq<HeadingNode>, translit: string -> string) returns (list: seq<HeaderRecord>)
    requires Distinct(doc)
    modifies ElementsByTagName(doc, "h2"), ElementsByTagName(doc, "h3")
    ensures var h2s, h3s := ElementsByTagName(doc, "h2"), ElementsByTagName(doc, "h3");
      && list == old(Collected(doc, translit))
      && Anchored(AttrsOf(h2s), ChildrenOf(h2s), list[..|h2s|], old(AttrsOf(h2s)), old(ChildrenOf(h2s)))
      && Anchored(AttrsOf(h3s), ChildrenOf(h3s), list[|h2s|..], old(AttrsOf(h3s)), old(ChildrenOf(h3s)))
  {
    var h2s := ElementsByTagName(doc, "h2");
    var h3s := ElementsByTagName(doc, "h3");
    ElementsDistinct(doc, "h2");
    ElementsDistinct(doc, "h3");
    ghost var t2, a2o, c2o := Texts(h2s), AttrsOf(h2s), ChildrenOf(h2s);
    ghost var t3, a3o, c3o := Texts(h3s), AttrsOf(h3s), ChildrenOf(h3s);
    ghost var collected := Records(h2s, t2, true, translit) + Records(h3s, t3, false, translit);
    assert collected == Collected(doc, translit);
    assert forall k :: 0 <= k < |h3s| ==> h3s[k] !in h2s by {
      assert forall k :: 0 <= k < |h3s| ==> h3s[k].tag == "h3";
      assert forall k :: 0 <= k < |h2s| ==> h2s[k].tag == "h2";
    }
    var roots := HandleAll(h2s, true, translit);
    ghost var a2, c2 := AttrsOf(h2s), ChildrenOf(h2s);
    assert Anchored(a2, c2, roots, a2o, c2o);
    assert Texts(h3s) == t3 && AttrsOf(h3s) == a3o && ChildrenOf(h3s) == c3o;
    var subs := HandleAll(h3s, false, translit);
    assert subs == Records(h3s, t3, false, translit);
    assert Anchored(AttrsOf(h3s), ChildrenOf(h3s), subs, a3o, c3o);
    assert AttrsOf(h2s) == a2 && ChildrenOf(h2s) == c2 by {
      assert forall k :: 0 <= k < |h2s| ==> h2s[k] !in h3s;
    }
    list := roots + subs;
    assert list == collected;
    assert list[..|h2s|] == roots && list[|h2s|..] == subs;
  }

  /** The list lines 132-144 build from the document as it is before any heading is anchored. */
  function Collected(doc: seq<HeadingNode>, translit: string -> string): seq<HeaderRecord>
    reads doc
  {
    var h2s, h3s := ElementsByTagName(doc, "h2"), ElementsByTagName(doc, "h3");
    Records(h2s, Texts(h2s), true, translit) + Records(h3s, Texts(h3s), false, translit)
  }

  /**
   * The collected list holds one record per `h2` and per `h3`: the `h2`
   * records first, in document order, then the `h3` records, in document order.
   */
  lemma CollectedShape(doc: seq<HeadingNode>, translit: string -> string)
    ensures var list, h2s, h3s := Collected(doc, translit), ElementsByTagName(doc, "h2"), ElementsByTagName(doc, "h3");
      && |list| == |h2s| + |h3s|
      && (forall k :: 0 <= k < |h2s| ==> list[k] == MakeRecord(TextContent(h2s[k].children), h2s[k].line, true, translit))
      && (forall k :: 0 <= k < |h3s| ==> list[|h2s| + k] == MakeRecord(TextContent(h3s[k].children), h3s[k].line, false, translit))
  {
  }

  /** Every element of the document with the tag is found. */
  lemma {:induction false} ElementsComplete(doc: seq<HeadingNode>, tag: string)
    ensures forall i :: 0 <= i < |doc| && doc[i].tag == tag ==> doc[i] in ElementsByTagName(doc, tag)
  {
    if doc != [] {
      ElementsComplete(doc[1..], tag);
      assert forall i :: 1 <= i < |doc| ==> doc[i] == doc[1..][i - 1];
    }
  }
}
