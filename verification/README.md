# dom-kit tree helpers, in Dafny

This project models the tree-editing and string helpers of dom-kit
(`lib/dom.js`). These are the functions that prune, rename and rewrite a DOM
tree after it has been parsed, plus the builder of CSS `transform` values.

- `filterByNamespace` and `filterAttributesByNamespace` prune and rename
  prefixed elements and attributes. `primary` is tested first, then
  `whitelist`, then `blacklist`.
- `removeComments` removes comment nodes at every depth.
- `removeWhiteSpaces` removes white-space-only text nodes at every depth. In
  the `onlyWhiteLines` mode it instead merges adjacent text nodes and
  shortens a blank value that ends a line.
- `empty`, `insertInto` and `moveChildrenInto` replace the children of an
  element, a document or a fragment.
- `removeAllTags` removes every matching descendant, or only the childless
  ones.
- `removeAllAttributes` drops one attribute from the container and every
  descendant.
- `moveAttributes` and `attr` move attributes between elements or set them.
- `prefixIds` gives every descendant the id `prefix.oldId` and rewrites the
  `url(#id)` references that point at those ids.
- `stringifyTransform` builds a CSS `transform` value.

A tree is a value (`Dom.Node`). An element carries its qualified tag name,
its attribute list in document order and its ordered child list. A document
and a document fragment carry only their child list. Text, comment and other
nodes carry what the helpers read of them.

A container may be an element, a document or a fragment (`Dom.IsParent`).
Below it, a document or a fragment never occurs as a child. The helpers
recurse only into children of node type 1, so every "at any depth" statement
follows element children.

Statements about the whole tree use its document-order listing
(`Dom.Preorder`). The listing holds one item per node below the container:
the node's depth and the node without its children. The depths record the
nesting, so a statement on listings covers where each node sits, not only
the order.

The attribute primitives follow the DOM the library uses outside the browser:
- `setAttribute` overwrites an attribute of that name in place, or appends a
  new one at the end;
- removing an attribute shifts the later ones down by one.

Within an element, attribute names are distinct (`Dom.UniqueNames`). Every
contract that needs this says so.

The helpers walk child lists backwards by index, use `while (firstChild)`
loops and carry a `$lastTextNode` variable. Each of these becomes a method
with the same loop over the value. The method is proved equal to a function
that describes the whole resulting tree. The lemmas state what the source
promises about that function:
- what is removed and what stays;
- that the order is kept;
- that nothing else changes;
- that a second run changes nothing, for every pass except `removeAllTags` with `onlyIfEmpty`, where a second run can remove an element that the first run emptied.

`removeAllTags`, `removeAllAttributes` and `prefixIds` iterate over a
snapshot of the matching elements, taken before any change.
- `removeAllTags` is modelled by the tree it leaves. A lemma states, on the
  listing, that each selected element is cut out together with the items
  below it, and every other item stays at its place and depth.
- `removeAllAttributes` is modelled by the tree it leaves.
- The first pass of `prefixIds` is a loop over the listed elements that fills
  the replacement table (`PrefixIds.FirstPass`). It is proved to yield
  `PrefixIds.Table`.

`PrefixIds.PrefixIds` is the corrected `prefixIds`. Its lookup reads only
the ids the first pass stored (`PrefixIds.Replacement`).
`PrefixIds.PrefixIdsAsWritten` is the code as written: its table is a plain
JavaScript object, which also answers for the names that `Object.prototype`
supplies. The finding below shows where the two differ.

`stringifyTransform` only builds and joins a local array, so it is modelled
as functions. It is partnered with a reader of its output. A round-trip
lemma shows that the output determines every field it shows, and nothing
else.

## Model

| member | source | states |
|---|---|---|
| NamespaceFilter.FilterAttributesByNamespace | lib/dom.js:359-390 | With no options the element is unchanged. Otherwise its attribute list becomes the result of the backward loop (`AttributesFiltered`); tag and children are untouched. |
| NamespaceFilter.AttributesFilteredGet | lib/dom.js:365-389 | Names stay unique. An unprefixed name keeps its value unless a `primary`-prefixed `p:name` overwrites it (the first such attribute in document order wins). A prefixed name keeps its value when its prefix is not `primary` and is admitted; otherwise it is gone. |
| NamespaceFilter.FilteredAttributesClean | lib/dom.js:365-389 | Afterwards no attribute carries the `primary` prefix or a prefix that is not admitted. |
| NamespaceFilter.FilterByNamespace | lib/dom.js:308-354 | With no options nothing changes. Otherwise the backward child loop with its recursion yields `NamespaceFiltered`, and on a tree with unique attribute names the result is clean: no element or attribute below has a `primary` or non-admitted prefix. |
| NamespaceFilter.NamespaceFiltered | lib/dom.js:308-354 | The container keeps its kind and tag name. Its attributes become `AttributesFiltered`, and it never gains children. |
| NamespaceFilter.ChildFate | lib/dom.js:318-351 | A child is removed exactly when it is an element whose prefix is neither `primary` nor admitted (whitelist first, blacklist only without a whitelist). A kept element is renamed to the segment after the first `:` exactly when its prefix is `primary`, and is filtered recursively. Other nodes stay as they are. |
| NamespaceFilter.FilteredIsClean | lib/dom.js:318-351 | Every element left below a filtered tree has a kept tag name and clean attributes. |
| NamespaceFilter.FilterIdempotent | lib/dom.js:308-354 | Filtering again with the same options changes nothing. |
| NamespaceFilter.EmptyOptionsChangeNothing | lib/dom.js:346-348 | With no `primary`, `whitelist` or `blacklist`, the tree is unchanged. |
| NamespaceFilter.NonElementsKept | lib/dom.js:318 | Non-element children are never removed; they keep their relative order. |
| Comments.Uncommented | lib/dom.js:395-408 | The container (an element, a document or a fragment) keeps everything but its children, and it never gains children. Any other node is left as it is. |
| Comments.RemoveComments | lib/dom.js:395-408 | The backward child loop with its recursion yields `Uncommented(container)`, for any container. |
| Comments.UncommentedHasNoComments | lib/dom.js:401-406 | No comment is left at any depth. |
| Comments.UncommentedKeepsOrder | lib/dom.js:398-407 | The listing afterwards is the listing before with its comment items dropped. Every other node stays, at its depth and in the same order. |
| Comments.CommentFreeUnchanged | lib/dom.js:398-407 | A tree without comments is unchanged. |
| Comments.RemoveCommentsIdempotent | lib/dom.js:395-408 | A second run changes nothing. |
| WhiteSpace.Collapse | lib/dom.js:424 | The replacement `/^\s*(\n[\t ]*)$/ -> '$1'` leaves a non-matching value unchanged. On a match it yields a suffix of the value: a line break followed only by tabs and spaces. |
| WhiteSpace.CollapseMatch | lib/dom.js:424 | When the value is blank up to a line break and only tabs and spaces follow it, the result is the value from that line break on. |
| WhiteSpace.CollapseKeepsVisible | lib/dom.js:424 | Collapsing removes only white space. |
| WhiteSpace.CollapseIdempotent | lib/dom.js:424 | Collapsing twice is collapsing once. |
| WhiteSpace.ChildrenWhiteSpaceRemoved | lib/dom.js:416-445 | The loop never lengthens the child list. In the `onlyWhiteLines` mode a non-empty list stays non-empty, and its first node is a text node exactly when it was. |
| WhiteSpace.ChildrenMergedUnmixed | lib/dom.js:421-426 | In the `onlyWhiteLines` mode no two text children are left next to each other. |
| WhiteSpace.WhiteSpaceRemoved | lib/dom.js:413-446 | The container (an element, a document or a fragment) keeps everything but its children, and it never gains children. Any other node is left as it is. |
| WhiteSpace.RemoveWhiteSpaces | lib/dom.js:413-446 | The backward loop with its `$lastTextNode` and recursion yields `WhiteSpaceRemoved(container, onlyWhiteLines)`. |
| WhiteSpace.StrippedHasNoBlankText | lib/dom.js:434-436 | Without `onlyWhiteLines`, no white-space-only text node is left at any depth. |
| WhiteSpace.StrippedKeepsOrder | lib/dom.js:416-440 | Without `onlyWhiteLines`, the listing afterwards is the listing before with its blank-text items dropped. Every other node stays, at its depth and in the same order. |
| WhiteSpace.StrippingIdempotent | lib/dom.js:413-446 | Without `onlyWhiteLines`, a second run changes nothing. |
| WhiteSpace.MergedHasNoAdjacentTexts | lib/dom.js:421-426 | With `onlyWhiteLines`, no element is left with two adjacent text children. |
| WhiteSpace.MergedKeepsOtherNodes | lib/dom.js:438-444 | With `onlyWhiteLines`, the non-text items of the listing are all kept, at their depths and in the same order. |
| WhiteSpace.MergingJoinsRuns | lib/dom.js:416-445 | With `onlyWhiteLines`, at every depth, each maximal run of adjacent text nodes becomes one text node at the run's place. Its value is the run's values shortened step by step from the last (`RunValue`). Any node that is not a text node ends a run. |
| WhiteSpace.ElementEndsRun | lib/dom.js:438-441 | Concrete case: `[a, <b/>, c, d]` becomes `[a, <b/>, cd]`. |
| WhiteSpace.RunShortenedStepByStep | lib/dom.js:421-430 | Concrete case: the texts `a` and ` \n ` end as `a\n `. Shortening their concatenation once would keep `a \n `. |
| WhiteSpace.MergingIdempotent | lib/dom.js:413-446 | With `onlyWhiteLines`, a second run changes nothing. |
| WhiteSpace.VisibleTextKept | lib/dom.js:413-446 | In both modes the text content, read without white space, is unchanged. Merging joins the earlier text before the later one. |
| TreeHelpers.Empty | lib/dom.js:167-170 | The node is left with no children and is otherwise unchanged. |
| TreeHelpers.AppendChild | lib/dom.js:185 | A fragment's children are appended in order and the fragment is left empty. Any other node is appended itself. |
| TreeHelpers.InsertInto | lib/dom.js:183-186 | The destination's only child is the source, or the fragment's former children when the source is a fragment, which is left empty. The destination is otherwise unchanged. |
| TreeHelpers.MoveChildrenInto | lib/dom.js:191-194 | The destination's children are the source's former children, in order, whether the source is an element, a document or a fragment. The source is left with none. Both are otherwise unchanged. |
| TreeHelpers.TagsRemoved | lib/dom.js:267-271 | The container keeps everything but its children, and it never gains children. |
| TreeHelpers.PrunedListing | lib/dom.js:267-271 | In both modes, at every depth, the listing afterwards is the listing before with each selected element cut out together with the items below it (`Detached`). A match is selected always without `onlyIfEmpty`, and only when childless with it. Every other item stays at its depth and in order. |
| TreeHelpers.DeeperRunIsMaximal | lib/dom.js:268-270 | The items `Detached` removes with an element are exactly the deeper items right after it, which are its descendants. |
| TreeHelpers.SiblingOfMatchKept | lib/dom.js:267-271 | Concrete case: `<a><b/><c/></a>` with tag `b` becomes `<a><c/></a>`, in both modes. |
| TreeHelpers.ChildlessMatchRemoved | lib/dom.js:269 | Concrete case: with `onlyIfEmpty`, `<b/><b><x/></b>` with tag `b` becomes `<b><x/></b>`. |
| TreeHelpers.PrunedHasNoMatch | lib/dom.js:267-271 | Without `onlyIfEmpty`, no element with the tag name (or any element, for `*`) is left below the container. |
| TreeHelpers.WithoutMatchUnchanged | lib/dom.js:267-271 | A tree without a match is unchanged. |
| TreeHelpers.PruningIdempotent | lib/dom.js:267-271 | Without `onlyIfEmpty`, a second run changes nothing. |
| TreeHelpers.OnlyIfEmptyNotIdempotent | lib/dom.js:267-271 | Concrete case: with `onlyIfEmpty`, `<r><b><b/></b></r>` with tag `b` becomes `<r><b/></r>`, because a match is judged on its original children, and a second run gives `<r></r>`. |
| TreeHelpers.OnlyEmptyMatchesRemoved | lib/dom.js:268-270 | With `onlyIfEmpty`, every node that does not match stays, at its depth and in the same order. |
| TreeHelpers.KeptWithChildren | lib/dom.js:269 | With `onlyIfEmpty`, a child element that has children is never removed: it stays, pruned below, at its place between what its earlier and later siblings leave. |
| AttributeHelpers.Attr | lib/dom.js:134-143 | Entries apply in order to `prefix + key`: `null` removes the attribute and any other value sets it. The last entry naming an attribute decides its value; attributes no entry names keep theirs. Tag and children are untouched. |
| AttributeHelpers.UnnamedUnchanged | lib/dom.js:139-142 | An attribute that no entry names keeps its value. |
| AttributeHelpers.MoveAttributes | lib/dom.js:199-213 | The source is left with no attributes. The destination gains or overwrites exactly the source attributes with a non-empty value whose name is not `xmlns` and has no `:`. Its other attributes keep their values and positions. |
| AttributeHelpers.MovedValueIsSourceValue | lib/dom.js:200-212 | An attribute is moved exactly when the source has it and it is movable, and it keeps its value. |
| AttributeHelpers.AttributeRemoved | lib/dom.js:275-282 | The container itself loses only that attribute. It keeps its children, and any other node is left as it is. |
| AttributeHelpers.AttributeRemovedEverywhere | lib/dom.js:275-282 | Neither the container nor any element below it keeps the attribute. |
| AttributeHelpers.OnlyThatAttributeChanges | lib/dom.js:275-282 | The listing afterwards is the listing before with that attribute removed from each item. Depths, order and everything else are unchanged. |
| PrefixIds.ReferenceAt | lib/dom.js:255 | The regular expression `url\(#([^)]+)\)` matches at the start exactly as written: a non-empty id without `)`, closed by the first `)`. |
| PrefixIds.ReferenceRewritten | lib/dom.js:255-262 | A reference is replaced by `url(#new)` when the lookup finds a truthy replacement and is kept otherwise; the rest of the value is rewritten independently. |
| PrefixIds.PlainCharacterKept | lib/dom.js:255 | A character that cannot start a reference is kept. |
| PrefixIds.NoReferenceUnchanged | lib/dom.js:255-262 | A value without a reference is unchanged. |
| PrefixIds.NothingFoundUnchanged | lib/dom.js:257-258 | When the lookup finds nothing, every value is unchanged. |
| PrefixIds.ListedIds | lib/dom.js:230 | The elements of the listing, which `querySelectorAll('*')` returns, carry exactly the ids of the elements below. |
| PrefixIds.FirstPass | lib/dom.js:230-241 | The loop over the listed elements stores each one's id mapped to `prefix + '.' + id`. It ends with exactly `Table`: every id below, and only those. |
| PrefixIds.PrefixIds | lib/dom.js:227-234 | The corrected `prefixIds`, on any container. The container itself is untouched and keeps its number of children; both passes apply below it. |
| PrefixIds.PrefixIdsAsWritten | lib/dom.js:227-263 | `prefixIds` as written, with the plain-object table. The container itself is untouched and keeps its number of children. |
| PrefixIds.IdsBecomePrefixed | lib/dom.js:240-243 | Each element below ends with the id `prefix.oldId`, or `prefix.` when it had none, provided neither part holds a `url(#` reference. |
| PrefixIds.OtherAttributesRewritten | lib/dom.js:247-249 | Every attribute other than `id` keeps its name and has its references rewritten. |
| PrefixIds.ReferencesFollowIds | lib/dom.js:255-262 | A reference to an id some element below had becomes `url(#prefix.id)`; a reference to any other id is kept. |
| PrefixIds.OnlyAttributesChange | lib/dom.js:227-263 | The listing afterwards is the listing before with each element's attributes passed through both passes. Depths, order, tags and node kinds are unchanged. |
| PrefixIds.PrefixIdsChangesOnlyAttributes | lib/dom.js:227-234 | For `PrefixIds` itself, the listing below the container changes only in the attributes of its elements, as `OnlyAttributesChange` says, with the table of the first pass. |
| PrefixIds.AsWrittenAgreesOnOwnIds | lib/dom.js:241-258 | The plain-object table of the code as written agrees with the corrected lookup on every id except the names `Object.prototype` supplies. |
| PrefixIds.UnknownReferenceRewrittenAsWritten | lib/dom.js:227-263 | Concrete case. Take an `svg` element whose only child is a `use` element with `href="url(#toString)"`. The code as written turns that value into `url(#function toString() { [native code] })`. The corrected lookup keeps it. |
| Transforms.EmittedInFixedOrder | lib/dom.js:531-560 | The parts are exactly those of the truthy fields, in the order translateX/Y/Z, rotate, rotateX/Y/Z, scale, scaleX/Y/Z, skewX/Y. A truthy `rotate` hides rotateX/Y/Z and a truthy `scale` hides scaleX/Y/Z. |
| Transforms.StringifyRoundTrip | lib/dom.js:531-560 | When no value holds a space, reading the output back gives the object with exactly the hidden fields cleared. Each part reads as `name(value unit)` with `px`, `deg` or no unit, and the parts are separated by single spaces. |
| Transforms.HiddenFieldsIgnored | lib/dom.js:538-554 | The fields hidden by `rotate` or `scale` do not affect the output. |
| Transforms.EmptyWhenNothingEmitted | lib/dom.js:531-560 | The output is the empty string exactly when no part is emitted. |
| Transforms.SplitJoin | lib/dom.js:559 | Joining a non-empty list of parts that hold no separator, then splitting on that separator, gives the parts back. |

## Left out

- The XML/HTML parser and serializer (`fromXml`, `toXml`) belong to the host DOM library or the browser. They are not part of this model.
- `ready`, `fromHtml`, `addJsScript` and `preload` need the document, events or the network.
- `batch` is a loop over a list or a single element; its use inside `prefixIds` is modelled directly.
- `css`, `styleToAttribute` and `transform` write the CSS style object, which has no model here.
- `class` edits `classList`, which has no model here.
- `id`, `text` and `html` are one-line property setters; `html` would need the HTML parser.
- `remove` and `cloneInto` are thin wrappers over `removeChild` and `cloneNode`.
- The matrix code (`parseMatrix`, `decomposeMatrix`, `decomposeMatrix2d`, `decomposeMatrix3d`) is floating-point arithmetic.
- Nodes are values, so parent links and aliasing are not modelled:
  - `moveChildrenInto` and `insertInto` with a source that is the destination or one of its ancestors;
  - `appendChild` detaching a node from a third parent;
  - `moveAttributes` with the same element as source and destination, where each movable attribute is removed and set again, so the element keeps it, moved to the end of its attribute list.
- The `getElementsByTagName` and `querySelectorAll` snapshots of `removeAllTags`, `removeAllAttributes` and the second pass of `prefixIds` are modelled by their net effect on the tree, not element by element.
- PrefixIds.FirstPass builds the table only. The new ids it assigns in the same loop are applied in `PrefixIds.ChildrenPrefixed`. The second pass reads only the table, so the order does not matter.
- A document or a fragment nested as a child is not modelled; the DOM does not allow it.
- A document's own limits on its children (one element, no text) are not modelled. Appending what it forbids throws.
- TreeHelpers.InsertInto and TreeHelpers.AppendChild require a source that is not a document. Appending a document throws.
- TreeHelpers.TagsRemoved: a fragment has no `getElementsByTagName`, so the call throws on it, yet the model prunes below it as for a document. On a node that is not a parent the call throws and the model leaves the node unchanged.
- AttributeHelpers.AttributeRemoved: on a container that is not an element, `removeAttribute` is missing and the call throws; the model leaves the node unchanged.
- NamespaceFilter.FilterByNamespace requires an element container when options are given. A document or fragment has no `attributes`, so the call throws.
- `removeAllAttributes` builds a selector from the attribute name. A name that makes an invalid selector (and so throws) is not modelled.
- Browser-only behaviour is not modelled: lower-casing of HTML names, a read-only `tagName`, and `setAttribute` throwing on an invalid name.
- `prefixIds` is modelled on `element.id` as browsers define it: an element without an id reads as `""`, and assigning `id` sets the `id` attribute.
- AttributeHelpers.Attr: the caller gives the entries in the order a `for ... in` loop visits the object's keys. JavaScript's key-ordering rules and inherited enumerable keys are not modelled. A value is its string form; `null` is `None`.
- NamespaceFilter.FilterByNamespace: a `primary`-prefixed child is renamed after its recursive call rather than before. This is the same tree, since the filter never reads the container's own tag name.
- `filterByNamespace` with an options value that is not an object, such as a string, is modelled as absent options, which is how the code treats it.
- Transforms.StringifyRoundTrip requires values without spaces, which would split a part in two. A field is `None` when falsy (absent, `0`, `NaN`, `""`); a truthy field is its `String()` form. No arithmetic is done on the values.
- PrefixIds.Inherited: the printed forms of `Object.prototype`'s members follow V8. Only the code-as-written half of the finding depends on them.

## Findings

| source | as written | input that shows it | evidently intended | confidence | as-written member | corrected member |
|---|---|---|---|---|---|---|
| lib/dom.js:228-262 | `replacement` is a plain object `{}`, so `replacement[id]` for an id that no element had falls through to `Object.prototype` and is truthy for `toString`, `constructor`, `valueOf` and similar names. | `<svg><use href="url(#toString)"/></svg>` passed to `prefixIds(svg, 'p')` | Only the ids recorded by the first pass are rewritten; `url(#toString)` is kept. | not executed | PrefixIds.UnknownReferenceRewrittenAsWritten | PrefixIds.ReferencesFollowIds |
