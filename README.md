# Content List outline, modelled in Dafny

The WordPress plugin "Content List" (`contentlist.php`) puts a table of
contents in front of a singular post or page. Its `the_content` filter,
`content_list_view`, works in four steps:

1. It anchors every `h2` and `h3` of the parsed article. Each heading gets
   the attribute `data-anchored` and a leading
   `<a class="anchor" href="#id" data-text="text" name="id">`. The id is
   `translit(text)-line`.
2. It collects one record `{text, id, root, line}` per heading: all `h2`
   records first, then all `h3` records.
3. It sorts the records by source line and groups the sub-headings (`h3`)
   under the root (`h2`) in front of them. In one-level mode it drops the
   sub-headings.
4. It renders the outline as nested `<ul>` lists inside a `<section>` and
   puts that in front of the re-serialised document.

The `save_post` handler `content_list_meta_update` stores the two check
boxes that switch the outline on and select one-level mode.

The model follows the source's own form, module by module:

- `PhpValues`: the PHP value rules the code relies on. These are
  truthiness of strings, `get_post_meta`'s default, and decimal printing
  of line numbers.
- `Headings`: the heading element as a class whose attributes and children
  `handleHeader` updates in place, and the header record. `HandleHeader` is
  a method that changes one element.
- `Collection`: the two `foreach` loops that anchor and collect the `h2`
  and then the `h3` elements, written as methods with loops over the
  elements.
- `Ordering`: `usort` by line, written as an in-place insertion sort on an
  `array`. It is proved against a functional `InsertionSort`, which is
  proved sorted, a permutation and stable. PHP 8's `usort` is stable.
- `Outline`: the grouping loop (lines 152-167), written as a method
  with a loop. It is proved against a declarative `GroupSpec`. For each
  root id, that map holds the sub-headings that follow the last root
  carrying the id, up to the next root.
- `Render`: `createListItem` and the wrapper, as string functions. Beside
  them is a reader for the markup, and a round-trip proof that the outline
  can be read back from the rendered string.
- `View`: `content_list_view` itself.
- `MetaBox`: `content_list_meta_update`.
- `Scenarios`: worked cases of the whole pipeline on small documents.

Things the model cannot compute are parameters, supplied by the host:

- the transliteration `translit`;
- the encoding conversion `mb_convert_encoding`;
- the HTML serialiser `saveHTML`;
- `sanitize_text_field`;
- the translated title `__('Content')`;
- the post's meta values, given as a map;
- the answers of `is_singular`, `wp_verify_nonce`, `wp_is_post_autosave`
  and `wp_is_post_revision`, given as booleans.

The parsed document is a sequence of elements in document order. Each
element carries its tag, its source line (`getLineNo`), its attributes and
its children.

### Behaviour of the code that a reader may not expect

The model follows the code in each of these cases:

- **A hidden outline leaves the page without anchors.** One would expect
  the headings to be anchored whether or not the outline is shown, so that
  links to them keep working. The anchors are added to the DOM first. But when `contentlist_need` is falsy, line 146
  returns the encoded input string. That string does not carry the anchors.
  (`View.ContentListView`, third ensures.)
- **Where a sub-heading goes depends on line numbers.** One would expect
  `<h2>Intro</h2><h3>Sub A</h3><h2>Next</h2>` to list "Sub A" under "Intro",
  the root in front of it in the document. Take the three headings on
  separate lines. Then "Sub A" goes under "Intro" (`Scenarios.SeparateLines`). If all three are on one line,
  the stable sort keeps the collection order h2, h2, h3. "Sub A" then goes
  under "Next" (`Scenarios.OneLine`). This outcome, and the one for repeated
  root ids below, holds only where `usort` is stable, which PHP guarantees
  from version 8.0 on. Older PHP versions may order same-line records
  differently.
- **A page with no headings still gets an outline.** One would expect a
  page without `h2` and `h3` to come back unchanged. But on a singular page
  with non-empty content and a visible outline, the page gets an empty
  outline section in front of the document (`View.EmptyOutline`). Empty
  content does not get that far: see "## Left out".
- **Repeated root ids.** Two `h2` on the same line with the same text have
  equal ids. Line 162 then resets the first one's sublist, and both root
  items show the second one's sublist (`Scenarios.RepeatedId`).
- **`data-anchored` is never read.** One would expect the mark to stop a
  heading from being anchored twice. Line 103 marks each heading, but
  nothing checks the mark before anchoring. Content that already carries
  anchors gets a second anchor in front of the first, so the mark is not a
  guard against anchoring twice (`Headings.HandleHeader` prepends
  unconditionally).
- **Texts and ids are not escaped.** One would expect heading texts to be
  HTML-escaped in the outline. They go into the markup as they are.
  The round trip is proved for texts and a title without `<`, and ids without `'`.

## Model

| member | source | states |
|---|---|---|
| PhpValues.MetaValue | contentlist.php:120-121 | a missing meta key reads as a falsy value (the empty string) |
| PhpValues.Dec | contentlist.php:98 | the decimal form of a line number is non-empty, all digits, and has no leading zero |
| PhpValues.ParseDecOfDec | contentlist.php:98 | the decimal form of a line number reads back as that line number |
| PhpValues.DecInjective | contentlist.php:98 | different line numbers print differently |
| Headings.LastDash | contentlist.php:98 | finds the last '-' of an id, which separates the transliterated text from the line |
| Headings.LineOfMakeId | contentlist.php:98 | the line number can be read back from every id `MakeId` builds (line 98's `translit($text) . '-' . $line`), because the text part may hold dashes but the line part does not |
| Headings.IdsDifferAcrossLines | contentlist.php:98 | headings on different lines always get different ids, whatever their texts |
| Headings.IdOfEmptyText | contentlist.php:93-98 | when `translit("")` is empty, a heading with no text gets the id "-" followed by its line |
| Headings.IdNeverFalsy | contentlist.php:164 | no id is falsy, so `!$currentRoot` is only true before the first root |
| Headings.AnchorFor | contentlist.php:105-109 | the anchor element carries class, href `#id`, data-text and name, and has no text of its own |
| Headings.AnchorKeepsText | contentlist.php:110 | prepending the anchor does not change the heading's `textContent` |
| Headings.HandleHeader | contentlist.php:92-113 | the record holds the pre-anchoring text, the id `translit(text)-line`, the level flag and the line; the element gains `data-anchored=""` and the anchor in front of its old children; its text is still the record's text |
| Collection.ElementsByTagName | contentlist.php:129-130 | `getElementsByTagName` returns only elements of the document that have the requested tag |
| Collection.Positions | contentlist.php:129-130 | the selected elements sit at strictly increasing positions of the document, one position per element |
| Collection.PicksCons | contentlist.php:129-130 | an element in front of the document, selected or not, keeps the selection in document order |
| Collection.ElementsInOrder | contentlist.php:129-130 | `getElementsByTagName` returns its elements in document order |
| Collection.ElementsComplete | contentlist.php:129-130 | every element of the document with the tag is in the result |
| Collection.ElementsDistinct | contentlist.php:129-130 | the selected elements are distinct objects |
| Collection.RecordsAppend | contentlist.php:135-143 | handling one more element appends exactly its record |
| Collection.HandleAll | contentlist.php:135-137 | the loop returns the records of the elements in order, and each element is anchored with its own record |
| Collection.CollectHeaders | contentlist.php:129-144 | the list is all `h2` records then all `h3` records, built from the texts before anchoring; every `h2` and every `h3` is anchored with its own record |
| Collection.CollectedShape | contentlist.php:132-144 | the collected list has one entry per `h2` then one per `h3`, each built from that element's text, line and level |
| Ordering.InsertPermutation | contentlist.php:148-150 | inserting one record adds exactly that record |
| Ordering.InsertBounded | contentlist.php:148-150 | inserting keeps every line under a bound that all records respect |
| Ordering.InsertSorted | contentlist.php:148-150 | inserting into a list sorted by line keeps it sorted |
| Ordering.InsertionSortSorted | contentlist.php:148-150 | the sorted list is ordered by line |
| Ordering.InsertionSortPermutation | contentlist.php:148-150 | the sorted list is a permutation of the collected list |
| Ordering.InsertOnLine | contentlist.php:148-150 | inserting keeps the relative order of records on the same line |
| Ordering.InsertionSortStable | contentlist.php:148-150 | records on the same line keep their collection order (h2 before h3, document order within a level) |
| Ordering.InsertAt | contentlist.php:148-150 | inserting after the last record whose line is not greater puts the record at that position |
| Ordering.InsertLast | contentlist.php:148-150 | one pass of the in-place sort: the prefix up to i becomes the sorted prefix with `a[i]` inserted, and the rest of the array is untouched |
| Ordering.SortByLine | contentlist.php:148-150 | the array ends as `InsertionSort` of its old contents; `InsertionSort` is the model of `usort`'s result, a stable sort by line |
| Outline.LastRoot | contentlist.php:161 | the position of the last root, i.e. what `$currentRoot` refers to |
| Outline.LastRootWithId | contentlist.php:162 | the position of the last root with a given id, the one whose reset of line 162 survives |
| Outline.LastRootWithIdFound | contentlist.php:162 | an id has a root exactly when that search finds one |
| Outline.NextRoot | contentlist.php:158-167 | the end of a root's segment: the next root or the end of the list |
| Outline.GroupSpec | contentlist.php:152-167 | the sublists map has one key per root id, and every value is empty in one-level mode |
| Outline.RootIdsAppend | contentlist.php:160-162 | a root adds its id to the keys; a sub-heading does not |
| Outline.SegmentOfAppend | contentlist.php:158-167 | one loop step on one key: a root with that id resets it, a sub-heading joins the current root's list when that root is truthy and not in one-level mode, and otherwise nothing changes |
| Outline.GroupAppendRoot | contentlist.php:159-162 | a root record resets its id's sublist to empty |
| Outline.GroupAppendSkip | contentlist.php:164 | a sub-heading in one-level mode or before any root changes nothing |
| Outline.GroupAppendChild | contentlist.php:165 | otherwise the sub-heading is appended to the current root's sublist |
| Outline.InSegmentIff | contentlist.php:158-167 | a sub-heading lies in a root's segment exactly when that root is the last root before it |
| Outline.ChildPlacement | contentlist.php:165 | in multi-level mode, when the last root before a sub-heading has a truthy id and no later root reuses that id, the sub-heading appears in that root's sublist, at its position within the segment (a later root with the same id resets the list, line 162) |
| Outline.OrphanDropped | contentlist.php:164 | a sub-heading before the first root lies in no root's segment |
| Outline.RootsHaveSublists | contentlist.php:160-162 | every listed root has an entry in the sublists map |
| Outline.RootsSorted | contentlist.php:160 | the root list is sorted by line and holds only records of the sorted list |
| Outline.GroupSorted | contentlist.php:165 | every sublist is sorted by line and starts no earlier than its root |
| Outline.Group | contentlist.php:152-167 | the loop returns the root records in order and exactly the sublists map that GroupSpec describes |
| Render.Entries | contentlist.php:175-177 | one decoded entry per sub-heading, pointwise |
| Render.Items | contentlist.php:183 | one decoded item per root, in order, with that root's sublist |
| Render.Lit | contentlist.php:171-187 | helper of the outline reader: consuming a literal leaves the input shortened by its length |
| Render.LitOf | contentlist.php:171-187 | helper of the outline reader: a literal at the front is consumed |
| Render.LitMismatch | contentlist.php:171-187 | helper of the outline reader: a literal that differs at some position is not consumed |
| Render.UntilOf | contentlist.php:171 | helper of the outline reader: reading up to a delimiter that the field does not contain returns the field |
| Render.LinkOf | contentlist.php:171-176 | a rendered link reads back as its id and text |
| Render.SubItemsOf | contentlist.php:175-178 | rendered sub-items read back as their entries |
| Render.BareRootItemOf | contentlist.php:173 | a root item without a sublist reads back as its link with no entries |
| Render.NestedRootItemOf | contentlist.php:175-180 | a root item with a sublist reads back as its link and the entries of exactly that sublist |
| Render.ReadableSplit | contentlist.php:183 | the first root of a readable outline, its sublist and the remaining roots are readable |
| Render.RootItemOf | contentlist.php:169-181 | `RootItem`, the model of `createListItem`, renders an item that reads back as its link and exactly its sublist, with or without the nested `<ul>` |
| Render.RootItemsOf | contentlist.php:183 | the rendered root items read back as the decoded items in order |
| Render.ClosingIsNotRoot | contentlist.php:187 | the section's closing tags cannot be mistaken for another root item |
| Render.PageRoundTrip | contentlist.php:183-189 | `ListHtml`, the model of the section wrapper, renders a section that, with a title without `<`, reads back from the page as the title, every root in order with its sublist, and the rest of the page unchanged |
| Render.BareItemIff | contentlist.php:173 | a root item has no nested list exactly when its sublist is empty or missing |
| Render.FlatWhenNoSublists | contentlist.php:173-183 | with all sublists empty, the outline is a flat list of root links |
| Render.OneLevelFlat | contentlist.php:164-183 | in one-level mode the outline is flat and no item has sub-entries |
| Render.RenderedSubs | contentlist.php:169-183 | the i-th item shows the i-th root and the segment grouped under its id |
| View.SortRecords | contentlist.php:148-150 | sorting a copy of the list in an array yields the functional insertion sort |
| View.BuildOutline | contentlist.php:148-187 | sort, group and render give the outline of the collected list |
| View.Respond | contentlist.php:146-189 | with a falsy `contentlist_need` the encoded input comes back; otherwise the outline of the list, in the mode `contentlist_one_level` selects, goes in front of the serialised document |
| View.SingularView | contentlist.php:118-189 | on a singular page every `h2` and `h3` is anchored; hidden: the encoded input; visible: the outline of the list collected before anchoring, followed by the serialised document |
| View.ContentListView | contentlist.php:115-190 | not singular: input returned and nothing touched; singular: every `h2` and `h3` anchored; hidden: the encoded input; visible: the outline of the list collected before anchoring, followed by the serialised document |
| View.EmptyOutline | contentlist.php:183-187 | with no headings, a visible outline is the section with an empty list |
| MetaBox.MetaKey | contentlist.php:53 | the meta key is `contentlist_` followed by the field name |
| MetaBox.MetaKeyInjective | contentlist.php:53 | different field names use different meta keys |
| MetaBox.MetaUpdate | contentlist.php:35-64 | rejected (no submission, empty, bad nonce, autosave, revision) exactly when it returns false and leaves the store alone; otherwise empty sanitised values delete their key, others are stored, all other keys are kept, and the post id is returned |
| MetaBox.SavedFieldReadsBack | contentlist.php:55-60 | after a save, the outline reads a field as truthy exactly when its sanitised submitted value is |
| MetaBox.SaveTwice | contentlist.php:35-64 | saving the same submission again changes nothing |
| Scenarios.SortThree | contentlist.php:148-150 | the sort of root, root, sub-heading for the two line orders that matter |
| Scenarios.SortTwo | contentlist.php:148-150 | an earlier sub-heading is moved in front of a later root |
| Scenarios.GroupEmpty | contentlist.php:152-154 | an empty list gives an empty sublists map |
| Scenarios.GroupOne | contentlist.php:159-162 | one root gives one empty sublist |
| Scenarios.GroupRootSub | contentlist.php:158-166 | a root then a sub-heading: the sub-heading is its sublist unless in one-level mode |
| Scenarios.GroupRootRoot | contentlist.php:159-162 | two roots give two empty sublists |
| Scenarios.GroupRootSubRoot | contentlist.php:158-167 | root, sub-heading, root: the sub-heading is under the first root |
| Scenarios.GroupRootRootSub | contentlist.php:158-167 | root, root, sub-heading: the sub-heading is under the second root |
| Scenarios.RootsSnoc | contentlist.php:160 | one more record adds itself to the root list exactly when it is a root |
| Scenarios.RootsThree | contentlist.php:160 | the root list of three records |
| Scenarios.ItemsTwo | contentlist.php:183 | helper of the scenarios: the decoded items of two roots |
| Scenarios.EntriesOne | contentlist.php:175-177 | helper of the scenarios: the decoded entries of one sub-heading |
| Scenarios.RootSubRoot | contentlist.php:148-183 | a sub-heading between two roots by line goes under the first, or is dropped in one-level mode |
| Scenarios.RootSubRootItems | contentlist.php:152-183 | the items of root, sub-heading, root |
| Scenarios.RootRootSub | contentlist.php:148-183 | a sub-heading not before either root goes under the second, and under the first too when they share an id |
| Scenarios.RootRootSubItems | contentlist.php:152-183 | the items of root, root, sub-heading |
| Scenarios.SeparateLines | contentlist.php:129-183 | Intro (line 1), Sub A (line 2), Next (line 3): Sub A is listed under Intro, and dropped in one-level mode |
| Scenarios.SameLineIds | contentlist.php:98 | on one line, texts that transliterate differently get different ids |
| Scenarios.OneLine | contentlist.php:129-183 | the same headings all on one line: Sub A is listed under Next, given the stable `usort` of PHP 8 |
| Scenarios.RepeatedId | contentlist.php:158-183 | two equal roots on one line: both items show the sublist of the second, given the stable `usort` of PHP 8 |
| Scenarios.OrphanSubHeading | contentlist.php:148-183 | a sub-heading above the first root is dropped in both modes |

## Left out

- HTML parsing and serialisation (`loadHtml`, `saveHTML`, libxml error handling) are not modelled. The document is given as its elements in document order, and the serialiser is a function parameter that sees the elements' final attributes and children.
- `mb_convert_encoding` is a function parameter; the entity encoding is not modelled.
- DOM attributes are ordered, but the model keeps them in maps. The order `saveHTML` prints them in is not represented: that `data-anchored` comes after the heading's existing attributes, and that the anchor's attributes come as `class`, `href`, `data-text`, `name` (lines 103-109).
- `getLineNo` is an input carried by each element, not derived from the markup.
- `translit` (in `utils/translit.php`) is not part of this model; it is an uninterpreted function parameter.
- WordPress hooks and registration (`add_action`, `add_filter`, `add_meta_box`, the text domain and the stylesheet) are not modelled. Neither are `is_singular` and the nonce, autosave and revision checks; they are boolean inputs.
- The post meta store is a map from key to value. `get_post_meta`, `update_post_meta` and `delete_post_meta` are reads and updates of that map.
- `sanitize_text_field` and `__()` are parameters.
- `content_list_meta_box_view` (the meta-box form) is output only and sends nothing back; its hidden inputs appear only as the "" values that `MetaBox.SavedFieldReadsBack` describes.
- The global `$sublists` is a local map returned by `Outline.Group`. The renderer receives it as an argument instead of reading the global.
- Declaring `createListItem` inside `content_list_view` fails when a second call in one request reaches line 169, because the function already exists. Only a singular page with a visible outline reaches that line; calls that return at line 116 or line 146 never run the declaration. This is not modelled.
- Empty content is not modelled. On PHP 8 and later, `loadHtml` throws a `ValueError` for an empty string, so a singular page with empty content stops at line 126 with an uncaught exception: no anchors, no outline and no return value. `View.ContentListView` instead returns `encode("")`, or the empty outline section followed by the serialised document.
- The `onclick` handler in the section markup is literal text; its behaviour in the browser is not modelled.
- PHP integer width is not modelled: line numbers are unbounded naturals, and the comparator `$a['line'] - $b['line']` cannot overflow for them.
- A non-array `$_POST['contentlist']` is not modelled; the submission is a map of strings or absent.
- Headings nested inside other headings are not modelled. Each element's children are values, so anchoring one heading cannot change another's children.
- The `!empty($headersLvl1)` and `!empty($headersLvl2)` guards always pass, because a `DOMNodeList` object is never empty for `empty`. The loops run over empty lists with the same effect, so the guards are not modelled.
- PHP array keys turn numeric-string ids into integers. An id always ends in "-line", so the only such keys read like negative numbers (for example "-5"). Those still map one to one, so the conversion makes no observable difference and is not modelled.
