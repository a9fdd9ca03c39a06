# Media directory widget, modelled in Dafny

The media directory module lets an editor file a media item into a folder
tree. The tree is a taxonomy vocabulary. The field widget `MediaDirectoryWidget`
stores the chosen folder as a "|"-separated chain of term ids, root first.
The editor may also type new folder names at the end of that chain; the widget
creates those terms on submit. This project models the widget's logic:

- `sortTidsByAncestorChain` and `recursiveSortDescendants` put the referenced
  terms of one branch in root-to-leaf order (`AncestorSort`).
- `prepareJsTreeData` turns the dash-indented options listing of the vocabulary
  into the parent-linked records the JsTree browser widget reads (`JsTree`).
- `massageFormValues` splits the submitted chain and creates a term for each
  typed name below the segment to its left. It keeps the result in a
  form-state cache so the second call of a submission creates nothing
  (`Materialiser`).
- `isInt` and PHP's `(int)` cast and integer printing are in `Decimal`.
  `explode`/`implode` over "|" are in `Delimited`.
- `prepareDefaultValue` and the leaf lookup of `formElement` connect these
  pieces (`Widget`).

The taxonomy is a finite map from term id to parent id, where 0 marks a root.
Term creation is an append-only store that hands out consecutive ids.
PHP exceptions and the function that falls off its end become `Failure` values.

## Model

| member | source | states |
|---|---|---|
| Decimal.PhpIntCast | src/Plugin/Field/FieldWidget/MediaDirectoryWidget.php:352 | `(int)` always yields a 64-bit integer; a canonical decimal string that fits reads as its value, a larger one saturates at the nearer bound, and one whose magnitude reaches 2^1024 - 2^970, infinite as a double, gives 0 |
| Decimal.IntToStringCanonical | src/Plugin/Field/FieldWidget/MediaDirectoryWidget.php:352 | PHP prints every integer as a canonical decimal string that reads back as that integer |
| Decimal.IsInt | src/Plugin/Field/FieldWidget/MediaDirectoryWidget.php:351-353 | `isInt` accepts a string exactly when it is the canonical decimal form of an integer (no sign other than a leading "-" on a nonzero value, no leading zeros, no spaces) and that integer fits in 64 bits |
| Decimal.IsIntOfRendering | src/Plugin/Field/FieldWidget/MediaDirectoryWidget.php:351-353 | the string PHP prints for any 64-bit integer passes `isInt` |
| Decimal.CanonicalRoundTrip | src/Plugin/Field/FieldWidget/MediaDirectoryWidget.php:352 | reading a canonical decimal and printing the value again gives back the same string |
| Decimal.IntToStringInjective | src/Plugin/Field/FieldWidget/MediaDirectoryWidget.php:266 | two ids print the same exactly when they are equal, so comparing a leaf string with a printed id identifies one id |
| Decimal.IntToStringNoBar | src/Plugin/Field/FieldWidget/MediaDirectoryWidget.php:122 | a printed id never contains the "|" delimiter |
| Delimited.Split | src/Plugin/Field/FieldWidget/MediaDirectoryWidget.php:68 | `explode` yields at least one segment, and no segment contains the delimiter |
| Delimited.JoinSplit | src/Plugin/Field/FieldWidget/MediaDirectoryWidget.php:300 | joining the segments of any text again gives back that text |
| Delimited.SplitJoin | src/Plugin/Field/FieldWidget/MediaDirectoryWidget.php:122 | splitting a join of delimiter-free segments gives back those segments |
| AncestorSort.Load | src/Plugin/Field/FieldWidget/MediaDirectoryWidget.php:179 | the loaded terms are distinct, stored, and exactly the requested ids that exist |
| AncestorSort.LoadDistinctStored | src/Plugin/Field/FieldWidget/MediaDirectoryWidget.php:179 | requesting distinct stored ids loads exactly those terms, in the order requested |
| AncestorSort.FirstWithParent | src/Plugin/Field/FieldWidget/MediaDirectoryWidget.php:184-192 | the `foreach … break` finds a term with the given parent, and no earlier term has it; when it finds none, no term has it |
| AncestorSort.RemoveAt | src/Plugin/Field/FieldWidget/MediaDirectoryWidget.php:189 | `unset` removes one occurrence of the chosen term and keeps all others |
| AncestorSort.SortDescendants | src/Plugin/Field/FieldWidget/MediaDirectoryWidget.php:216-227 | on success the already sorted prefix is kept, and the rest holds exactly the remaining terms, each below the one before it, the first below the given parent; when it falls off the end, some but not all of the remaining terms form a chain below the parent, and the term reported ends that chain (the parent when the chain is empty) and has no child among the terms left over |
| AncestorSort.SortByAncestorChain | src/Plugin/Field/FieldWidget/MediaDirectoryWidget.php:173-203 | a successful sort is a permutation of the loaded terms that starts at a root and puts each term directly after its parent; it fails with "no root" exactly when no loaded term has parent 0, and a broken chain names the end of a chain of loaded terms from a root, below which no loaded term left over hangs |
| AncestorSort.SortDescendantsFindsChain | src/Plugin/Field/FieldWidget/MediaDirectoryWidget.php:216-227 | when the remaining terms can be chained below the parent, the descent returns exactly that chain |
| AncestorSort.SortFindsBranch | src/Plugin/Field/FieldWidget/MediaDirectoryWidget.php:173-203 | for a valid branch the sort returns exactly the branch's root-to-leaf order |
| AncestorSort.SortSucceedsIffBranch | src/Plugin/Field/FieldWidget/MediaDirectoryWidget.php:173-227 | the sort succeeds if and only if the loaded terms can be put in one root-to-leaf branch order |
| AncestorSort.StuckPastParent | src/Plugin/Field/FieldWidget/MediaDirectoryWidget.php:216-227 | a descent that has a child of its parent to place never reports that parent: it reports a term it placed |
| AncestorSort.BrokenChainExample | src/Plugin/Field/FieldWidget/MediaDirectoryWidget.php:216-227 | with 1 a root, 2 below 1 and 3 below an unloaded 99, the sort places 1 and 2 and reports 2, below which nothing is left |
| JsTree.StripDashes | src/Plugin/Field/FieldWidget/MediaDirectoryWidget.php:265 | `ltrim($value, "-")` drops exactly the leading dashes counted as the depth |
| JsTree.Pass | src/Plugin/Field/FieldWidget/MediaDirectoryWidget.php:246-291 | the loop emits one record per entry with its id, and ends in the cursor built by the same entries |
| JsTree.PrepareJsTreeData | src/Plugin/Field/FieldWidget/MediaDirectoryWidget.php:241-294 | one record per entry in order with the same ids; a dash-free entry is an opened root below '#' showing "/"; every other record shows its name without dashes and is selected exactly when its id prints as the leaf |
| JsTree.CursorInvariant | src/Plugin/Field/FieldWidget/MediaDirectoryWidget.php:256-289 | on a well-formed listing, after each entry the parent recorded for every depth up to the entry's own is the nearest earlier entry one level shallower |
| JsTree.ParentIsNearestShallower | src/Plugin/Field/FieldWidget/MediaDirectoryWidget.php:260-290 | on a listing that starts at a root and deepens one level at a time, every record's parent is the nearest preceding entry one level shallower ('#' at depth 0), never NULL |
| JsTree.AtMostOneSelected | src/Plugin/Field/FieldWidget/MediaDirectoryWidget.php:266-286 | with distinct ids, no two records are selected |
| JsTree.SelectedIsLeaf | src/Plugin/Field/FieldWidget/MediaDirectoryWidget.php:247-286 | for a leaf id, the selected records are exactly the non-root records with that id |
| JsTree.PhotosDocsExample | src/Plugin/Field/FieldWidget/MediaDirectoryWidget.php:241-294 | root, "-Photos", "-Docs", "--2024" with leaf 4 give records 1 below '#', 2 and 3 below 1, 4 below 3 and selected |
| Materialiser.Resolve | src/Plugin/Field/FieldWidget/MediaDirectoryWidget.php:323-334 | the chain has one segment per token; ids are kept; the k-th name creates the k-th new term, with the sanitised name, the resolved segment to its left as parent and the configured vocabulary, and is replaced by that term's id; nothing else is created |
| Materialiser.Materialise | src/Plugin/Field/FieldWidget/MediaDirectoryWidget.php:301-338 | a chain ending in an id comes back unchanged with nothing created; a cache hit returns the cached chain and creates nothing; it fails exactly when creation is needed, the cache is empty and no vocabulary is configured; otherwise it resolves the chain and caches it |
| Materialiser.MassageFormValues | src/Plugin/Field/FieldWidget/MediaDirectoryWidget.php:299-322 | the submitted value is split at each bar delimiter; when its last segment is an id the chain joins back to the submitted text; the call fails exactly when the last segment is a name, the cache is empty and the media type's vocabulary mapping is missing, "" or "0" |
| Materialiser.MaterialiseIdempotent | src/Plugin/Field/FieldWidget/MediaDirectoryWidget.php:314-335 | a second call with the cache and store the first call left returns the same result and creates nothing |
| Materialiser.CreatedChainIsIds | src/Plugin/Field/FieldWidget/MediaDirectoryWidget.php:323-334 | after a creating call every segment of the chain passes `isInt`, provided the new ids fit in 64 bits |
| Materialiser.VacationSummerExample | src/Plugin/Field/FieldWidget/MediaDirectoryWidget.php:323-335 | "5\|Vacation\|Summer" with next id 6 creates "Vacation" below 5 and "Summer" below 6, and returns and caches 5, 6, 7 |
| Widget.RenderChain | src/Plugin/Field/FieldWidget/MediaDirectoryWidget.php:122 | every id of the sorted chain is printed in place, and no printed id contains "\|" |
| Widget.DefaultSegments | src/Plugin/Field/FieldWidget/MediaDirectoryWidget.php:122 | exploding the imploded chain gives back the printed ids |
| Widget.PrepareDefaultValue | src/Plugin/Field/FieldWidget/MediaDirectoryWidget.php:115-123 | an empty field gives the root's id; otherwise it succeeds exactly when the sort does, and its segments are the sorted ids; a failure is the sort's |
| Widget.DefaultLeaf | src/Plugin/Field/FieldWidget/MediaDirectoryWidget.php:68-76 | `array_pop(explode(…))` is the text after the last "\|", or the whole value when it has none |
| Widget.SplitLast | src/Plugin/Field/FieldWidget/MediaDirectoryWidget.php:76 | the last segment of `explode` is a suffix that follows the last delimiter |
| Widget.DefaultLeafIsLeafTid | src/Plugin/Field/FieldWidget/MediaDirectoryWidget.php:64-76 | the leaf handed to the tree prints the deepest sorted term, or the root when the field is empty |
| Widget.FormTreeData | src/Plugin/Field/FieldWidget/MediaDirectoryWidget.php:62-81 | the tree data exists exactly when the default value does, and selects exactly the non-root records of the leaf term |
| Widget.UneditedSubmission | src/Plugin/Field/FieldWidget/MediaDirectoryWidget.php:299-306 | submitting the default value unedited returns its chain, keeps cache and store, and the chain joins back to the value |

## Left out

- `isApplicable` and `getRootTermTid` are not modelled: they query Drupal's field definitions and entity storage. The root id and the vocabulary mapping are inputs.
- The render arrays of `formElement` are not modelled: the JSON settings, the attached library and the temporary `tree_with_tids` description are presentation only. The options listing from `getSettableOptions` is an input.
- `loadMultiple` is modelled only as a lookup in the parent map; entity objects and access checks are left out.
- `Xss::filter` is an abstract `sanitise` function.
- Term `create()` and `save()` are modelled as an append to a store that hands out consecutive ids. Failed saves and concurrent writers are left out.
- Exception messages are left out. Each exception is a `Failure` value.
- The settings form and the browser script are not modelled. The script only produces the "|" format that `Split` reads.
- JsTree.PrepareJsTreeData: compares the printed id with the leaf string, where PHP's loose `==` compares a numeric leaf string by value. A leaf such as "04" would select term 4 in PHP but nothing here. The widget only passes printed ids or the root's id, so the two agree there.
- AncestorSort.SortByAncestorChain: parent ids are compared as integers; PHP compares the stored string `target_id` loosely, which agrees for stored ids.
- Materialiser.CreatedChainIsIds: requires the new ids to fit in 64 bits. Beyond that PHP's `(int)` saturates and the printed id would not pass `isInt`.
- `Decimal.PhpIntCast` ignores the float and exponent forms of numeric strings; PHP casts "1e3" to 1000. `isInt` is unaffected, because such a string never equals a printed integer.
- Ids returned by `save()` are treated as printed decimal strings inside the chain.

Behaviours of the code that the model keeps:

- The root record never carries a `selected` flag. So a leaf equal to the root selects nothing.
- A parent slot that was never recorded reads as PHP NULL, modelled as `Null`. `ParentIsNearestShallower` shows that no `Null` appears on a listing that deepens one level at a time.
- In a dash-indented pre-order listing, "--2024" after "-Docs" hangs below Docs (3), as `PhotosDocsExample` states.
- A first segment that is a name reads `$selected_values[-1]`, which is NULL; the created term gets no parent.
- When `recursiveSortDescendants` finds no child of the last placed term it returns nothing. The model reports that term as `NoChildOf`.
