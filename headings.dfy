/**
 * A heading element of the parsed article, the record the outline is built
 * from, and the anchor that `handleHeader` prepends to the heading.
 */
module Headings {
  import opened PhpValues

  /** A DOM node below a heading: character data or an element with attributes and children. */
  datatype Node =
    | Text(value: string)
    | Element(name: string, attrs: map<string, string>, children: seq<Node>)

  /** DOM `textContent` of one node: the concatenated character data of its subtree. */
  function NodeText(n: Node): string
    decreases n, 1
  {
    match n
    case Text(v) => v
    case Element(_, _, cs) => TextContent(cs)
  }

  /** DOM `textContent` of an element with children `ns`. */
  function TextContent(ns: seq<Node>): string
    decreases ns, 0
  {
    if ns == [] then "" else NodeText(ns[0]) + TextContent(ns[1..])
  }

  /**
   * An element of the parsed document; its tag and source line are fixed by
   * the parser. The outline only reads and changes its `h2` and `h3` elements.
   */
  class HeadingNode {
    const tag: string
    const line: nat
    var attrs: map<string, string>
    var children: seq<Node>
  }

  /** The associative array `{text, id, root, line}` built for each heading. */
  datatype HeaderRecord = HeaderRecord(text: string, id: string, root: bool, line: nat)

  /** `translit($text) . '-' . $line`. */
  function MakeId(text: string, line: nat, translit: string -> string): string {
    translit(text) + "-" + Dec(line)
  }

  function MakeRecord(text: string, line: nat, isRoot: bool, translit: string -> string): HeaderRecord {
    HeaderRecord(text, MakeId(text, line, translit), isRoot, line)
  }

  /** Index of the last '-' in `s`, or -1 when there is none. */
  function LastDash(s: string): (k: int)
    ensures -1 <= k < |s|
    ensures k >= 0 ==> s[k] == '-'
    ensures forall j :: 0 <= j < |s| && s[j] == '-' ==> j <= k
  {
    if s == [] then -1
    else if s[|s| - 1] == '-' then |s| - 1
    else LastDash(s[..|s| - 1])
  }

  /** The line number written after the last '-' of an anchor id, when there is one. */
  function LineOfId(id: string): (r: Option<nat>) {
    var k := LastDash(id);
    if k >= 0 && AllDigits(id[k + 1..]) then Some(ParseDec(id[k + 1..])) else None
  }

  /** The line number can always be read back from a generated id. */
  lemma LineOfMakeId(text: string, line: nat, translit: string -> string)
    ensures LineOfId(MakeId(text, line, translit)) == Some(line)
  {
    var prefix, digits := translit(text) + "-", Dec(line);
    var id := prefix + digits;
    assert forall j :: |prefix| <= j < |id| ==> id[j] == digits[j - |prefix|] && id[j] != '-';
    assert id[|prefix| - 1] == '-';
    assert LastDash(id) == |prefix| - 1;
    assert id[|prefix|..] == digits;
    ParseDecOfDec(line);
  }

  /** Two headings on different lines never share an id, whatever their texts. */
  lemma IdsDifferAcrossLines(t1: string, l1: nat, t2: string, l2: nat, translit: string -> string)
    requires l1 != l2
    ensures MakeId(t1, l1, translit) != MakeId(t2, l2, translit)
  {
    LineOfMakeId(t1, l1, translit);
    LineOfMakeId(t2, l2, translit);
  }

  /** A heading with no text gets the id "-" followed by its line. */
  lemma IdOfEmptyText(line: nat, translit: string -> string)
    requires translit("") == ""
    ensures MakeId("", line, translit) == "-" + Dec(line)
  {
  }

  /** An id always holds a '-', so PHP never reads it as false (`!$currentRoot`). */
  lemma IdNeverFalsy(text: string, line: nat, translit: string -> string)
    ensures !Falsy(MakeId(text, line, translit))
  {
    var id := MakeId(text, line, translit);
    assert id[|translit(text)|] == '-';
  }

  /** `<a class="anchor" href="#id" data-text="text" name="id">`, with no children. */
  function AnchorFor(rec: HeaderRecord): (a: Node)
    ensures NodeText(a) == ""
  {
    Element("a", map["class" := "anchor", "href" := "#" + rec.id, "data-text" := rec.text, "name" := rec.id], [])
  }

  /** Prepending an anchor leaves the heading's text content as it was. */
  lemma AnchorKeepsText(rec: HeaderRecord, cs: seq<Node>)
    ensures TextContent([AnchorFor(rec)] + cs) == TextContent(cs)
  {
    assert ([AnchorFor(rec)] + cs)[1..] == cs;
  }

  /**
   * `handleHeader`: builds the heading's record, marks the heading
   * `data-anchored` and inserts the anchor before its first child (before
   * nothing, that is at the end, when it has no children: the same place).
   */
  method HandleHeader(header: HeadingNode, isRoot: bool, translit: string -> string) returns (rec: HeaderRecord)
    modifies header
    ensures rec == MakeRecord(old(TextContent(header.children)), header.line, isRoot, translit)
    ensures header.attrs == old(header.attrs)["data-anchored" := ""]
    ensures header.children == [AnchorFor(rec)] + old(header.children)
    ensures TextContent(header.children) == rec.text
  {
    var text := TextContent(header.children);
    var line := header.line;
    rec := MakeRecord(text, line, isRoot, translit);
    header.attrs := header.attrs["data-anchored" := ""];
    var anchor := AnchorFor(rec);
    AnchorKeepsText(rec, header.children);
    header.children := [anchor] + header.children;
  }
}
