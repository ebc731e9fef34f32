/**
 * `createListItem` and the outline wrapper of `content_list_view`
 * (lines 169-187): the root list and the sublist map become one HTML
 * string by plain concatenation. Heading texts and ids are inserted as they
 * are, without escaping.
 *
 * Beside the renderer, this module holds a reader for the markup it
 * produces. The round-trip lemmas show that the outline can be read back
 * from the rendered string: one root item per root, in order, each with
 * exactly its sublist.
 */
module Render {
  import opened PhpValues
  import opened Headings
  import opened Outline

  const SectionOpen: string :=
    "<section class='contentlist' id='_contentlist'>\n    <h2 class='contentlist__title' onclick='this.parentElement.classList.toggle(\"contentlist--closed\")'>"
  const TitleClose: string := "</h2>\n    <ul class='contentlist__list'>"
  const SectionClose: string := "</ul></section>"
  const ItemClass: string := "<li class='contentlist__item"
  const RootOpen: string := ItemClass + " contentlist__root'>"
  const ItemOpen: string := ItemClass + "'>"
  const ItemClose: string := "</li>"
  const SublistOpen: string := "<ul class='contentlist__sublist'>"
  const SublistClose: string := "</ul>"
  const LinkOpen: string := "<a href='#"
  const LinkMid: string := "'>"
  const LinkClose: string := "</a>"

  /** `<a href='#{id}'>{text}</a>` (lines 171 and 176). */
  function Link(id: string, text: string): string {
    LinkOpen + id + LinkMid + text + LinkClose
  }

  /** The `array_map` closure of lines 175-177: one sub-heading item. */
  function SubItem(r: HeaderRecord): string {
    ItemOpen + Link(r.id, r.text) + ItemClose
  }

  /** `implode('', array_map(…, $items))`. */
  function SubItems(items: seq<HeaderRecord>): string {
    if items == [] then "" else SubItem(items[0]) + SubItems(items[1..])
  }

  /** `$sublists[$id]`: a missing key reads as `null`, which `empty` treats like `[]`. */
  function Lookup(sublists: map<string, seq<HeaderRecord>>, id: string): seq<HeaderRecord> {
    if id in sublists then sublists[id] else []
  }

  /** `createListItem` (lines 169-181): a root item, with a nested list only when its sublist is not empty. */
  function RootItem(r: HeaderRecord, sublists: map<string, seq<HeaderRecord>>): string {
    var items := Lookup(sublists, r.id);
    if items == [] then RootOpen + Link(r.id, r.text) + ItemClose
    else RootOpen + Link(r.id, r.text) + SublistOpen + SubItems(items) + SublistClose + ItemClose
  }

  /** `implode('', array_map('createListItem', $list))`. */
  function RootItems(list: seq<HeaderRecord>, sublists: map<string, seq<HeaderRecord>>): string {
    if list == [] then "" else RootItem(list[0], sublists) + RootItems(list[1..], sublists)
  }

  /** Lines 185-187: the section wrapper around the items, with the translated title. */
  function ListHtml(list: seq<HeaderRecord>, sublists: map<string, seq<HeaderRecord>>, title: string): string {
    SectionOpen + title + TitleClose + RootItems(list, sublists) + SectionClose
  }

  /** A link of the outline: its target id and its visible text. */
  datatype Entry = Entry(id: string, text: string)

  /** A root item of the outline: its link and the links of its nested list. */
  datatype Item = Item(link: Entry, subs: seq<Entry>)

  function EntryOf(r: HeaderRecord): Entry {
    Entry(r.id, r.text)
  }

  function Entries(rs: seq<HeaderRecord>): (es: seq<Entry>)
    ensures |es| == |rs|
    ensures forall j :: 0 <= j < |rs| ==> es[j] == EntryOf(rs[j])
  {
    if rs == [] then [] else [EntryOf(rs[0])] + Entries(rs[1..])
  }

  /** The outline the rendering shows: one item per root, in order, with that root's sublist. */
  function Items(list: seq<HeaderRecord>, sublists: map<string, seq<HeaderRecord>>): (its: seq<Item>)
    ensures |its| == |list|
    ensures forall i :: 0 <= i < |list| ==> its[i] == Item(EntryOf(list[i]), Entries(Lookup(sublists, list[i].id)))
  {
    if list == [] then [] else [Item(EntryOf(list[0]), Entries(Lookup(sublists, list[0].id)))] + Items(list[1..], sublists)
  }

  // A reader for the outline markup.

  /** Consumes the literal `lit` at the front of `s`. */
  function Lit(lit: string, s: string): (r: Option<string>)
    ensures r.Some? ==> |r.value| == |s| - |lit|
  {
    if lit <= s then Some(s[|lit|..]) else None
  }

  /** Splits `s` before the first `d`: the field and the rest starting at `d`. */
  function Until(s: string, d: char): (r: Option<(string, string)>)
    ensures r.Some? ==> |r.value.1| <= |s|
  {
    if s == [] then None
    else if s[0] == d then Some(([], s))
    else
      var fr :- Until(s[1..], d);
      Some(([s[0]] + fr.0, fr.1))
  }

  function ParseLink(s: string): (r: Option<(Entry, string)>)
    ensures r.Some? ==> |r.value.1| < |s|
  {
    var r1 :- Lit(LinkOpen, s);
    var a :- Until(r1, '\'');
    var r2 :- Lit(LinkMid, a.1);
    var b :- Until(r2, '<');
    var r3 :- Lit(LinkClose, b.1);
    Some((Entry(a.0, b.0), r3))
  }

  function ParseSubItems(s: string): (r: Option<(seq<Entry>, string)>)
    ensures r.Some? ==> |r.value.1| <= |s|
    decreases |s|
  {
    match Lit(ItemOpen, s)
    case None => Some(([], s))
    case Some(r0) =>
      var e :- ParseLink(r0);
      var r1 :- Lit(ItemClose, e.1);
      var more :- ParseSubItems(r1);
      Some(([e.0] + more.0, more.1))
  }

  function ParseRootItem(s: string): (r: Option<(Item, string)>)
    ensures r.Some? ==> |r.value.1| < |s|
  {
    var r1 :- Lit(RootOpen, s);
    var e :- ParseLink(r1);
    match Lit(SublistOpen, e.1)
    case Some(r1) =>
      var subs :- ParseSubItems(r1);
      var r2 :- Lit(SublistClose, subs.1);
      var r3 :- Lit(ItemClose, r2);
      Some((Item(e.0, subs.0), r3))
    case None =>
      var r3 :- Lit(ItemClose, e.1);
      Some((Item(e.0, []), r3))
  }

  function ParseRootItems(s: string): (r: Option<(seq<Item>, string)>)
    ensures r.Some? ==> |r.value.1| <= |s|
    decreases |s|
  {
    if Lit(RootOpen, s).Some? then
      var it :- ParseRootItem(s);
      var more :- ParseRootItems(it.1);
      Some(([it.0] + more.0, more.1))
    else Some(([], s))
  }

  /** Reads an outline section off the front of a page: its title, its items and what follows it. */
  function ParsePage(s: string): Option<(string, seq<Item>, string)> {
    var r1 :- Lit(SectionOpen, s);
    var t :- Until(r1, '<');
    var r2 :- Lit(TitleClose, t.1);
    var its :- ParseRootItems(r2);
    var r3 :- Lit(SectionClose, its.1);
    Some((t.0, its.0, r3))
  }

  /** A record the reader can take back out of the markup: no quote in its id, no `<` in its text. */
  predicate Readable(r: HeaderRecord) {
    '\'' !in r.id && '<' !in r.text
  }

  predicate AllReadable(rs: seq<HeaderRecord>) {
    forall j :: 0 <= j < |rs| ==> Readable(rs[j])
  }

  predicate ReadableOutline(list: seq<HeaderRecord>, sublists: map<string, seq<HeaderRecord>>) {
    AllReadable(list) && forall k :: k in sublists ==> AllReadable(sublists[k])
  }

  /** Concatenation regrouped to the right, so the reader can peel off one piece at a time. */
  lemma Cat(a: string, b: string, c: string)
    ensures (a + b) + c == a + (b + c)
  {
  }

  lemma LitOf(lit: string, rest: string)
    ensures Lit(lit, lit + rest) == Some(rest)
  {
    assert (lit + rest)[..|lit|] == lit;
    assert (lit + rest)[|lit|..] == rest;
  }

  /** `Lit` fails when the text starts with a different character at some index. */
  lemma LitMismatch(lit: string, s: string, j: nat)
    requires j < |lit| && j < |s| && lit[j] != s[j]
    ensures Lit(lit, s).None?
  {
  }

  lemma {:induction false} UntilOf(f: string, d: char, rest: string)
    requires d !in f && rest != [] && rest[0] == d
    ensures Until(f + rest, d) == Some((f, rest))
    decreases |f|
  {
    if f == [] {
      assert f + rest == rest;
    } else {
      assert (f + rest)[1..] == f[1..] + rest;
      UntilOf(f[1..], d, rest);
      assert [f[0]] + f[1..] == f;
    }
  }

  lemma LinkOf(id: string, text: string, rest: string)
    requires '\'' !in id && '<' !in text
    ensures ParseLink(Link(id, text) + rest) == Some((Entry(id, text), rest))
  {
    var r4 := LinkClose + rest;
    var r3 := text + r4;
    var r2 := LinkMid + r3;
    var r1 := id + r2;
    Cat(LinkOpen + id + LinkMid + text, LinkClose, rest);
    Cat(LinkOpen + id + LinkMid, text, r4);
    Cat(LinkOpen + id, LinkMid, r3);
    Cat(LinkOpen, id, r2);
    LitOf(LinkOpen, r1);
    UntilOf(id, '\'', r2);
    LitOf(LinkMid, r3);
    UntilOf(text, '<', r4);
    LitOf(LinkClose, rest);
  }

  /** The sub-items read back as the entries of the sublist, in order. */
  lemma {:induction false} SubItemsOf(items: seq<HeaderRecord>, rest: string)
    requires AllReadable(items)
    requires Lit(ItemOpen, rest).None?
    ensures ParseSubItems(SubItems(items) + rest) == Some((Entries(items), rest))
    decreases |items|
  {
    if items != [] {
      var r := items[0];
      var tail := SubItems(items[1..]) + rest;
      var link := Link(r.id, r.text);
      Cat(SubItem(r), SubItems(items[1..]), rest);
      Cat(ItemOpen + link, ItemClose, tail);
      Cat(ItemOpen, link, ItemClose + tail);
      LitOf(ItemOpen, Link(r.id, r.text) + (ItemClose + tail));
      LinkOf(r.id, r.text, ItemClose + tail);
      LitOf(ItemClose, tail);
      assert AllReadable(items[1..]) by {
        assert forall j :: 0 <= j < |items[1..]| ==> items[1..][j] == items[j + 1];
      }
      SubItemsOf(items[1..], rest);
    } else {
      assert SubItems(items) + rest == rest;
    }
  }

  /** A root item without a sublist reads back as its link and no entries. */
  lemma BareRootItemOf(r: HeaderRecord, sublists: map<string, seq<HeaderRecord>>, rest: string)
    requires Readable(r) && Lookup(sublists, r.id) == []
    requires Lit(SublistOpen, ItemClose + rest).None?
    ensures ParseRootItem(RootItem(r, sublists) + rest) == Some((Item(EntryOf(r), []), rest))
  {
    var link := Link(r.id, r.text);
    Cat(RootOpen + link, ItemClose, rest);
    Cat(RootOpen, link, ItemClose + rest);
    LitOf(RootOpen, link + (ItemClose + rest));
    LinkOf(r.id, r.text, ItemClose + rest);
    LitOf(ItemClose, rest);
  }

  /** A root item with a sublist reads back as its link and the entries of exactly that sublist. */
  lemma NestedRootItemOf(r: HeaderRecord, sublists: map<string, seq<HeaderRecord>>, rest: string)
    requires Readable(r) && AllReadable(Lookup(sublists, r.id)) && Lookup(sublists, r.id) != []
    ensures ParseRootItem(RootItem(r, sublists) + rest)
         == Some((Item(EntryOf(r), Entries(Lookup(sublists, r.id))), rest))
  {
    var items := Lookup(sublists, r.id);
    var link := Link(r.id, r.text);
    var subs := SubItems(items);
    var after := SublistClose + (ItemClose + rest);
    Cat(RootOpen + link + SublistOpen + subs + SublistClose, ItemClose, rest);
    Cat(RootOpen + link + SublistOpen + subs, SublistClose, ItemClose + rest);
    Cat(RootOpen + link + SublistOpen, subs, after);
    Cat(RootOpen + link, SublistOpen, subs + after);
    Cat(RootOpen, link, SublistOpen + (subs + after));
    LitOf(RootOpen, link + (SublistOpen + (subs + after)));
    LinkOf(r.id, r.text, SublistOpen + (subs + after));
    LitOf(SublistOpen, subs + after);
    LitMismatch(ItemOpen, after, 1);
    SubItemsOf(items, after);
    LitOf(SublistClose, ItemClose + rest);
    LitOf(ItemClose, rest);
  }

  /** A root item reads back as that root's link and its sublist. */
  lemma RootItemOf(r: HeaderRecord, sublists: map<string, seq<HeaderRecord>>, rest: string)
    requires Readable(r) && AllReadable(Lookup(sublists, r.id))
    requires Lit(SublistOpen, ItemClose + rest).None?
    ensures ParseRootItem(RootItem(r, sublists) + rest)
         == Some((Item(EntryOf(r), Entries(Lookup(sublists, r.id))), rest))
  {
    if Lookup(sublists, r.id) == [] {
      BareRootItemOf(r, sublists, rest);
    } else {
      NestedRootItemOf(r, sublists, rest);
    }
  }

  /** A readable outline's first root, its sublist and the remaining roots are readable. */
  lemma ReadableSplit(list: seq<HeaderRecord>, sublists: map<string, seq<HeaderRecord>>)
    requires ReadableOutline(list, sublists) && list != []
    ensures Readable(list[0]) && AllReadable(Lookup(sublists, list[0].id))
    ensures ReadableOutline(list[1..], sublists)
  {
    assert forall j :: 0 <= j < |list[1..]| ==> list[1..][j] == list[j + 1];
  }

  /** The root items read back as `Items`, one per root and in order. */
  lemma {:induction false} RootItemsOf(list: seq<HeaderRecord>, sublists: map<string, seq<HeaderRecord>>, rest: string)
    requires ReadableOutline(list, sublists)
    requires Lit(RootOpen, rest).None?
    ensures ParseRootItems(RootItems(list, sublists) + rest) == Some((Items(list, sublists), rest))
    decreases |list|
  {
    if list != [] {
      var r := list[0];
      var tail := RootItems(list[1..], sublists) + rest;
      Cat(RootItem(r, sublists), RootItems(list[1..], sublists), rest);
      ReadableSplit(list, sublists);
      LitMismatch(SublistOpen, ItemClose + tail, 1);
      RootItemOf(r, sublists, tail);
      RootItemsOf(list[1..], sublists, rest);
    } else {
      assert RootItems(list, sublists) + rest == rest;
    }
  }

  lemma ClosingIsNotRoot(page: string)
    ensures Lit(RootOpen, SectionClose + page).None?
  {
    LitMismatch(RootOpen, SectionClose + page, 1);
  }

  /**
   * The rendered outline, followed by any page text, reads back as its
   * title, one item per root in order with that root's sublist, and the
   * page text unchanged.
   */
  lemma PageRoundTrip(list: seq<HeaderRecord>, sublists: map<string, seq<HeaderRecord>>, title: string, page: string)
    requires ReadableOutline(list, sublists) && '<' !in title
    ensures ParsePage(ListHtml(list, sublists, title) + page) == Some((title, Items(list, sublists), page))
  {
    var tail := SectionClose + page;
    var items := RootItems(list, sublists) + tail;
    var body := RootItems(list, sublists);
    Cat(SectionOpen + title + TitleClose + body, SectionClose, page);
    Cat(SectionOpen + title + TitleClose, body, tail);
    Cat(SectionOpen + title, TitleClose, items);
    Cat(SectionOpen, title, TitleClose + items);
    LitOf(SectionOpen, title + (TitleClose + items));
    UntilOf(title, '<', TitleClose + items);
    LitOf(TitleClose, items);
    ClosingIsNotRoot(page);
    RootItemsOf(list, sublists, tail);
    LitOf(SectionClose, page);
  }

  /** A root item has no nested list exactly when its sublist is empty or missing. */
  lemma BareItemIff(r: HeaderRecord, sublists: map<string, seq<HeaderRecord>>)
    ensures RootItem(r, sublists) == RootOpen + Link(r.id, r.text) + ItemClose <==> Lookup(sublists, r.id) == []
  {
    if Lookup(sublists, r.id) != [] {
      assert |RootItem(r, sublists)| > |RootOpen + Link(r.id, r.text) + ItemClose|;
    }
  }

  /** The root items as they render when no root has sub-headings. */
  function FlatItems(list: seq<HeaderRecord>): string {
    if list == [] then "" else RootOpen + Link(list[0].id, list[0].text) + ItemClose + FlatItems(list[1..])
  }

  /** With every sublist empty (one-level mode), no nested list markup is produced. */
  lemma {:induction false} FlatWhenNoSublists(list: seq<HeaderRecord>, sublists: map<string, seq<HeaderRecord>>)
    requires forall k :: k in sublists ==> sublists[k] == []
    ensures RootItems(list, sublists) == FlatItems(list)
    decreases |list|
  {
    if list != [] {
      FlatWhenNoSublists(list[1..], sublists);
    }
  }

  /** One-level mode: the outline shows the roots and nothing nested. */
  lemma OneLevelFlat(s: seq<HeaderRecord>, title: string)
    ensures ListHtml(RootsOf(s), GroupSpec(s, true), title) == SectionOpen + title + TitleClose + FlatItems(RootsOf(s)) + SectionClose
    ensures forall i :: 0 <= i < |RootsOf(s)| ==> Items(RootsOf(s), GroupSpec(s, true))[i].subs == []
  {
    FlatWhenNoSublists(RootsOf(s), GroupSpec(s, true));
  }

  /**
   * The items the grouping yields: each root shows the segment of the last
   * root that carries its id, so two roots with one id show the same list.
   */
  lemma RenderedSubs(s: seq<HeaderRecord>, ol: bool, i: nat)
    requires i < |RootsOf(s)|
    ensures Items(RootsOf(s), GroupSpec(s, ol))[i].link == EntryOf(RootsOf(s)[i])
    ensures Items(RootsOf(s), GroupSpec(s, ol))[i].subs == Entries(SegmentOf(s, RootsOf(s)[i].id, ol))
  {
    RootsHaveSublists(s, ol);
  }
}
