/**
 * Worked cases of the whole outline pipeline on small documents: the
 * collected list (all `h2` records, then all `h3` records), the stable sort
 * by line, the grouping and the items the rendering shows.
 */
module Scenarios {
  import opened PhpValues
  import opened Headings
  import opened Ordering
  import opened Outline
  import opened Render

  /** The two orders the sort produces on three records collected as root, root, sub-heading. */
  lemma SortThree(x: HeaderRecord, y: HeaderRecord, z: HeaderRecord)
    ensures x.line <= y.line <= z.line ==> InsertionSort([x, y, z]) == [x, y, z]
    ensures x.line <= z.line < y.line ==> InsertionSort([x, y, z]) == [x, z, y]
  {
    assert [x, y, z][..2] == [x, y] && [x, y][..1] == [x] && [x][..0] == [];
    assert InsertionSort([x]) == [x];
    if x.line <= y.line {
      assert InsertionSort([x, y]) == [x, y];
      if z.line < y.line && x.line <= z.line {
        assert [x, y][..1] == [x];
        assert Insert([x], z) == [x, z];
      }
    }
  }

  lemma SortTwo(x: HeaderRecord, y: HeaderRecord)
    requires y.line < x.line
    ensures InsertionSort([x, y]) == [y, x]
  {
    assert [x, y][..1] == [x] && [x][..0] == [];
    assert InsertionSort([x]) == [x];
    assert Insert([], y) == [y];
  }

  lemma GroupEmpty(ol: bool)
    ensures GroupSpec([], ol) == map[]
  {
  }

  lemma RootsSnoc(t: seq<HeaderRecord>, x: HeaderRecord)
    ensures RootsOf(t + [x]) == RootsOf(t) + (if x.root then [x] else [])
  {
    assert (t + [x])[..|t|] == t;
  }

  lemma RootsThree(x: HeaderRecord, y: HeaderRecord, z: HeaderRecord)
    ensures RootsOf([x, y, z]) == (if x.root then [x] else []) + (if y.root then [y] else []) + (if z.root then [z] else [])
  {
    var s0: seq<HeaderRecord> := [];
    RootsSnoc(s0, x);
    RootsSnoc(s0 + [x], y);
    RootsSnoc(s0 + [x] + [y], z);
    assert s0 + [x] + [y] + [z] == [x, y, z];
  }

  lemma GroupOne(x: HeaderRecord, ol: bool)
    requires x.root
    ensures GroupSpec([x], ol) == map[x.id := []]
  {
    var s0: seq<HeaderRecord> := [];
    GroupEmpty(ol);
    GroupAppendRoot(s0, x, ol);
    assert s0 + [x] == [x];
  }

  lemma GroupRootSub(x: HeaderRecord, c: HeaderRecord, ol: bool)
    requires x.root && !c.root && !Falsy(x.id)
    ensures GroupSpec([x, c], ol) == map[x.id := (if ol then [] else [c])]
  {
    GroupOne(x, ol);
    assert CurrentRoot([x]) == Some(x.id);
    assert [x] + [c] == [x, c];
    if ol {
      GroupAppendSkip([x], c, ol);
    } else {
      var m1 := GroupSpec([x], ol);
      GroupAppendChild([x], c, ol);
      assert m1[x.id] + [c] == [c];
      assert m1[x.id := [c]] == map[x.id := [c]];
    }
  }

  lemma GroupRootRoot(x: HeaderRecord, y: HeaderRecord, ol: bool)
    requires x.root && y.root
    ensures GroupSpec([x, y], ol) == map[x.id := []][y.id := []]
  {
    GroupOne(x, ol);
    assert [x] + [y] == [x, y];
    GroupAppendRoot([x], y, ol);
  }

  /** Root, sub-heading, root: the sub-heading belongs to the first root. */
  lemma GroupRootSubRoot(x: HeaderRecord, c: HeaderRecord, y: HeaderRecord, ol: bool)
    requires x.root && !c.root && y.root && !Falsy(x.id)
    ensures GroupSpec([x, c, y], ol) == map[x.id := (if ol then [] else [c])][y.id := []]
  {
    GroupRootSub(x, c, ol);
    assert [x, c] + [y] == [x, c, y];
    GroupAppendRoot([x, c], y, ol);
  }

  /** Root, root, sub-heading: the sub-heading belongs to the second root. */
  lemma GroupRootRootSub(x: HeaderRecord, y: HeaderRecord, c: HeaderRecord, ol: bool)
    requires x.root && y.root && !c.root && !Falsy(y.id)
    ensures GroupSpec([x, y, c], ol) == map[x.id := []][y.id := (if ol then [] else [c])]
  {
    GroupRootRoot(x, y, ol);
    var m := GroupSpec([x, y], ol);
    assert [x, y][..1] == [x];
    assert CurrentRoot([x, y]) == Some(y.id);
    assert [x, y] + [c] == [x, y, c];
    if ol {
      GroupAppendSkip([x, y], c, ol);
    } else {
      GroupAppendChild([x, y], c, ol);
      assert m[y.id] + [c] == [c];
      assert m[y.id := [c]] == map[x.id := []][y.id := [c]];
    }
  }

  lemma ItemsTwo(r1: HeaderRecord, r2: HeaderRecord, m: map<string, seq<HeaderRecord>>)
    ensures Items([r1, r2], m) == [Item(EntryOf(r1), Entries(Lookup(m, r1.id))), Item(EntryOf(r2), Entries(Lookup(m, r2.id)))]
  {
  }

  lemma EntriesOne(c: HeaderRecord)
    ensures Entries([c]) == [EntryOf(c)]
  {
  }

  /**
   * A root, a sub-heading on a later line and a root on a still later line:
   * the sub-heading goes under the first root, and in one-level mode it is
   * dropped.
   */
  lemma RootSubRoot(x: HeaderRecord, y: HeaderRecord, c: HeaderRecord, ol: bool)
    requires x.root && y.root && !c.root && !Falsy(x.id) && x.id != y.id
    requires x.line <= c.line < y.line
    ensures InsertionSort([x, y, c]) == [x, c, y]
    ensures Items(RootsOf([x, c, y]), GroupSpec([x, c, y], ol))
            == [Item(EntryOf(x), if ol then [] else [EntryOf(c)]), Item(EntryOf(y), [])]
  {
    SortThree(x, y, c);
    RootSubRootItems(x, c, y, ol);
  }

  lemma RootSubRootItems(x: HeaderRecord, c: HeaderRecord, y: HeaderRecord, ol: bool)
    requires x.root && y.root && !c.root && !Falsy(x.id) && x.id != y.id
    ensures Items(RootsOf([x, c, y]), GroupSpec([x, c, y], ol))
            == [Item(EntryOf(x), if ol then [] else [EntryOf(c)]), Item(EntryOf(y), [])]
  {
    RootsThree(x, c, y);
    assert RootsOf([x, c, y]) == [x, y];
    GroupRootSubRoot(x, c, y, ol);
    var m := GroupSpec([x, c, y], ol);
    assert Lookup(m, x.id) == (if ol then [] else [c]) && Lookup(m, y.id) == [];
    ItemsTwo(x, y, m);
    EntriesOne(c);
  }

  /**
   * Two roots and a sub-heading whose line is not before either: the
   * sub-heading goes under the second root, and under the first as well when
   * the two share an id.
   */
  lemma RootRootSub(x: HeaderRecord, y: HeaderRecord, c: HeaderRecord)
    requires x.root && y.root && !c.root && !Falsy(y.id)
    requires x.line <= y.line <= c.line
    ensures InsertionSort([x, y, c]) == [x, y, c]
    ensures Items(RootsOf([x, y, c]), GroupSpec([x, y, c], false))
            == [Item(EntryOf(x), if x.id == y.id then [EntryOf(c)] else []), Item(EntryOf(y), [EntryOf(c)])]
  {
    SortThree(x, y, c);
    RootRootSubItems(x, y, c);
  }

  lemma RootRootSubItems(x: HeaderRecord, y: HeaderRecord, c: HeaderRecord)
    requires x.root && y.root && !c.root && !Falsy(y.id)
    ensures Items(RootsOf([x, y, c]), GroupSpec([x, y, c], false))
            == [Item(EntryOf(x), if x.id == y.id then [EntryOf(c)] else []), Item(EntryOf(y), [EntryOf(c)])]
  {
    RootsThree(x, y, c);
    assert RootsOf([x, y, c]) == [x, y];
    GroupRootRootSub(x, y, c, false);
    var m := GroupSpec([x, y, c], false);
    assert Lookup(m, x.id) == (if x.id == y.id then [c] else []) && Lookup(m, y.id) == [c];
    ItemsTwo(x, y, m);
    EntriesOne(c);
  }

  /**
   * `<h2>Intro</h2>` on line 1, `<h3>Sub A</h3>` on line 2, `<h2>Next</h2>`
   * on line 3: the sub-heading goes under "Intro"; in one-level mode it is
   * dropped.
   */
  lemma SeparateLines(translit: string -> string, ol: bool)
    ensures var intro, next, sub := MakeRecord("Intro", 1, true, translit), MakeRecord("Next", 3, true, translit),
                                    MakeRecord("Sub A", 2, false, translit);
      var sorted := InsertionSort([intro, next, sub]);
      && sorted == [intro, sub, next]
      && Items(RootsOf(sorted), GroupSpec(sorted, ol))
         == [Item(EntryOf(intro), if ol then [] else [EntryOf(sub)]), Item(EntryOf(next), [])]
  {
    IdsDifferAcrossLines("Intro", 1, "Next", 3, translit);
    IdNeverFalsy("Intro", 1, translit);
    RootSubRoot(MakeRecord("Intro", 1, true, translit), MakeRecord("Next", 3, true, translit),
                MakeRecord("Sub A", 2, false, translit), ol);
  }

  /** Two root records whose texts transliterate differently have different ids on the same line. */
  lemma SameLineIds(t1: string, t2: string, line: nat, translit: string -> string)
    requires translit(t1) != translit(t2)
    ensures MakeId(t1, line, translit) != MakeId(t2, line, translit)
  {
    var a, b, d := translit(t1), translit(t2), "-" + Dec(line);
    assert MakeId(t1, line, translit) == a + d by { Cat(a, "-", Dec(line)); }
    assert MakeId(t2, line, translit) == b + d by { Cat(b, "-", Dec(line)); }
    if |a| == |b| {
      assert a == (a + d)[..|a|] && b == (b + d)[..|b|];
    } else {
      assert |a + d| != |b + d|;
    }
  }

  /**
   * The same headings all on one line: the stable sort keeps both `h2`
   * records before the `h3` one, so "Sub A" goes under "Next", not "Intro".
   */
  lemma OneLine(translit: string -> string)
    requires translit("Intro") != translit("Next")
    ensures var intro, next, sub := MakeRecord("Intro", 1, true, translit), MakeRecord("Next", 1, true, translit),
                                    MakeRecord("Sub A", 1, false, translit);
      var sorted := InsertionSort([intro, next, sub]);
      && sorted == [intro, next, sub]
      && Items(RootsOf(sorted), GroupSpec(sorted, false)) == [Item(EntryOf(intro), []), Item(EntryOf(next), [EntryOf(sub)])]
  {
    SameLineIds("Intro", "Next", 1, translit);
    IdNeverFalsy("Next", 1, translit);
    RootRootSub(MakeRecord("Intro", 1, true, translit), MakeRecord("Next", 1, true, translit),
                MakeRecord("Sub A", 1, false, translit));
  }

  /**
   * Two `h2` with the same text on the same line share an id. The second
   * resets the list the first opened (line 162), and both root items show
   * the sub-heading that follows the second.
   */
  lemma RepeatedId(translit: string -> string)
    ensures var a, sub := MakeRecord("A", 1, true, translit), MakeRecord("B", 1, false, translit);
      var sorted := InsertionSort([a, a, sub]);
      && sorted == [a, a, sub]
      && Items(RootsOf(sorted), GroupSpec(sorted, false)) == [Item(EntryOf(a), [EntryOf(sub)]), Item(EntryOf(a), [EntryOf(sub)])]
  {
    IdNeverFalsy("A", 1, translit);
    RootRootSub(MakeRecord("A", 1, true, translit), MakeRecord("A", 1, true, translit), MakeRecord("B", 1, false, translit));
  }

  /** An `h3` above the first `h2` is dropped from the outline in both modes. */
  lemma OrphanSubHeading(translit: string -> string, ol: bool)
    ensures var sub, root := MakeRecord("Early", 1, false, translit), MakeRecord("Root", 2, true, translit);
      var sorted := InsertionSort([root, sub]);
      && sorted == [sub, root]
      && Items(RootsOf(sorted), GroupSpec(sorted, ol)) == [Item(EntryOf(root), [])]
  {
    var sub, root := MakeRecord("Early", 1, false, translit), MakeRecord("Root", 2, true, translit);
    SortTwo(root, sub);
    var s0: seq<HeaderRecord> := [];
    var s1 := s0 + [sub];
    RootsSnoc(s0, sub);
    RootsSnoc(s1, root);
    assert s1 + [root] == [sub, root];
    GroupEmpty(ol);
    assert CurrentRoot(s0) == None;
    GroupAppendSkip(s0, sub, ol);
    GroupAppendRoot(s1, root, ol);
    assert Lookup(GroupSpec([sub, root], ol), root.id) == [];
  }
}
