# test-file-explorer: the tree normalizer and the selection rule

This project models, in Dafny, the two pieces of logic in `src/App.tsx` of
test-file-explorer, a small React page that shows a GitHub repository's file
tree as an expandable tree widget.

- **`prep`** (`src/App.tsx:12-44`) takes the flat, recursive git-tree listing
  returned by the hosting API. That listing holds the tree's own `sha` and one
  `{path, type, sha}` item per file or directory. `prep` turns it into the
  widget's parent-linked node list plus the root id. It works in five steps:
  1. It sorts the listing's array in place by ascending `path.length`.
  2. It skips items with an empty path.
  3. It records every directory (`type === 'tree'`) as `path → sha` in the
     dictionary `folderToId`.
  4. It splits each path on `/` into a display name (the last segment) and a
     parent path. The parent resolves to the listing's sha for a top-level
     item, and otherwise through the dictionary.
  5. It pushes one node `{id: sha, parent, droppable: type === 'tree', text}`
     per item.
- **The selection rule of `MyEntry`** (`src/App.tsx:50-65`) reads one shared
  value, `selected`. A click on a leaf row sets `selected` to that node's id.
  A directory row has no click handler; its `[+]`/`[-]` toggle only expands
  or collapses it. A row shows the marker ` ←` exactly when
  `selected === node.id`.

Modules, one per concern:

- `Model` (model.dfy) holds the listing item `Entry`, the widget node `Node`
  and `Option`. An `undefined` parent is `None`.
- `Paths` (paths.dfy) holds JavaScript's `split("/")`, `join("/")` and
  `.length`. `.length` counts UTF-16 code units. This module also defines
  `BaseName`/`DirName` and proves that a proper ancestor path is strictly
  shorter.
- `LengthSort` (length_sort.dfy) holds the comparator sort. `SortByLength` is
  the stable sort as a function. `SortByPathLength` is the in-place insertion
  sort on the array, proved equal to it. Lemmas prove that the result is
  sorted, is a permutation, is stable and is idempotent.
- `Normalizer` (normalizer.dfy) holds the `Prep` method: the sort, then the
  loop with the `folderToId` map and the pushed node sequence. `Emit` is the
  function the loop is proved against. `Expected` is the order-independent
  description of each node.
- `Selection` (selection.dfy) holds the `selected` state as a class with the
  click handlers and the rendered row.
- `JsObject` (js_object.dfy) holds `folderToId` as the plain object literal it
  really is (see Findings).

The central property is `Normalizer.EmitResolvesParents`. On a listing sorted
by length, the dictionary lookup made while an entry is processed gives the
same answer as a lookup over the whole listing. The reason is that the parent
directory's path is a proper prefix of the entry's path, so it is strictly
shorter and already processed. With stability (`SortKeepsLastFolder`), this
gives `PrepNodes`: each node's parent is the last directory item of the
listing, as handed in, whose path is the node's parent path. With a
dictionary, a lookup therefore fails only when the listing has no such
directory (`ParentUndefinedIff`). A length sort cannot misorder a directory
and its descendants. The program itself uses a plain object as its
dictionary, and it matches this model only for parent paths that are not
names of Object.prototype members (`JsObject.InheritedNames`); see Findings.

## Model

| member | source | states |
|---|---|---|
| Paths.Split | src/App.tsx:25 | `path.split('/')` yields at least one piece, and no piece contains `/` |
| Paths.Join | src/App.tsx:27 | `folders.join('/')`: splitting the joined pieces again gives back the pieces, provided none contains `/` (with JoinSplit, join and split are inverse) |
| Paths.SplitNoSlash | src/App.tsx:25 | a path without `/` splits into itself alone |
| Paths.SplitAppend | src/App.tsx:25 | a leading segment without `/` splits off as the first piece |
| Paths.JoinSplit | src/App.tsx:25-27 | joining the pieces of a path with `/` gives back the path |
| Paths.SplitSingle | src/App.tsx:25-27 | the popped `folders` is empty exactly when the path contains no `/` |
| Paths.JoinLast | src/App.tsx:26-27 | the joined pieces are the joined leading pieces, a `/`, and the popped last piece |
| Paths.BaseName | src/App.tsx:25-26 | the display name contains no `/`, and it is the whole path when the path has no `/` |
| Paths.DirName | src/App.tsx:25-27 | for a nested path, the path is the parent path, a `/`, and the display name |
| Paths.LastSlashUnique | src/App.tsx:25-27 | any split `d + "/" + b` with no `/` in `b` is exactly (parent path, display name) |
| Paths.Utf16Length | src/App.tsx:18 | `.length` counts between one and two UTF-16 units per character |
| Paths.Utf16LengthAppend | src/App.tsx:18 | `.length` of a concatenation is the sum of the lengths |
| Paths.AncestorShorter | src/App.tsx:18 | a proper ancestor path is strictly shorter in `.length` |
| Paths.DirNameIsAncestor | src/App.tsx:25-27 | the parent path is a proper ancestor of the path and has a strictly smaller `.length` |
| LengthSort.PathLength | src/App.tsx:18 | the comparator key `path.length` lies between the number of characters and twice that, and is 0 only for the empty path |
| LengthSort.Insert | src/App.tsx:18 | inserting an entry into the sorted prefix adds exactly one entry |
| LengthSort.SortByLength | src/App.tsx:18 | the sorted listing has as many entries as the listing |
| LengthSort.InsertPermutes | src/App.tsx:18 | insertion adds the entry and loses no other |
| LengthSort.SortByLengthPermutes | src/App.tsx:18 | the sort is a permutation of the listing, so no entry is lost, added or altered |
| LengthSort.InsertSorted | src/App.tsx:18 | insertion into a length-sorted sequence keeps it sorted |
| LengthSort.BoundedByLast | src/App.tsx:18 | entries inserted before a longer last entry are no longer than it |
| LengthSort.SortByLengthSorted | src/App.tsx:18 | the sorted listing is in ascending order of `path.length` |
| LengthSort.InsertStable | src/App.tsx:18 | insertion keeps the order of the entries of each length and appends the new entry to its own length class |
| LengthSort.SortByLengthStable | src/App.tsx:18 | for every length, the entries of that length keep their original relative order |
| LengthSort.SortByLengthOfSorted | src/App.tsx:18 | sorting an already sorted listing leaves it unchanged |
| LengthSort.SortByLengthIdempotent | src/App.tsx:18 | sorting twice equals sorting once |
| LengthSort.InsertSplit | src/App.tsx:18 | an entry is inserted right after the last entry that is not longer than it |
| LengthSort.InsertAt | src/App.tsx:18 | one pass of the in-place insertion puts `a[i]` into the sorted prefix and leaves the rest of the array alone |
| LengthSort.SortByPathLength | src/App.tsx:18 | the array, sorted in place, equals the stable length sort of its old contents |
| Normalizer.Kept | src/App.tsx:19 | the processed entries all have non-empty paths, and there are at most as many as in the listing |
| Normalizer.FolderIndex | src/App.tsx:19-23 | the `folderToId` writes never record the empty path and record at most one key per entry. FolderIndexAgrees gives its full content |
| Normalizer.Lookup | src/App.tsx:27 | `folderToId[key]` is undefined exactly when the key was never recorded, and otherwise the recorded sha (dictionary reading; JsObject.Read is the object literal's) |
| Normalizer.NodeOf | src/App.tsx:33-38 | the pushed node has id = sha, the given parent, and droppable iff the type is `'tree'`. Its text holds no `/`, is the whole path for a top-level item, and otherwise is what follows the parent path and a `/` |
| Normalizer.FolderIndexAgrees | src/App.tsx:21-27 | `folderToId[path]` is the sha of the last directory item with that path processed so far, and undefined if there is none |
| Normalizer.LastFolderShaSpec | src/App.tsx:21-23 | the recorded sha is undefined exactly when no directory item has that path; otherwise it is the sha of the last such item |
| Normalizer.Emit | src/App.tsx:18-39 | the loop pushes exactly one node per entry with a non-empty path |
| Normalizer.KeptCount | src/App.tsx:19 | entries with an empty path are dropped; every other entry is kept as often as it occurs |
| Normalizer.KeptFrom | src/App.tsx:19 | every processed entry is an entry of the listing |
| Normalizer.KeptSorted | src/App.tsx:18-19 | skipping empty paths keeps the processed entries in ascending length order |
| Normalizer.AncestorProcessedFirst | src/App.tsx:18 | in the sorted listing, a proper ancestor directory comes before its descendant |
| Normalizer.EmitResolvesParents | src/App.tsx:18-38 | on a length-sorted listing, every node's parent from the dictionary lookup equals the lookup over the whole listing |
| Normalizer.LastFolderShaWithLength | src/App.tsx:18-23 | only entries as long as a directory path can record that directory |
| Normalizer.SortKeepsLastFolder | src/App.tsx:18-23 | sorting does not change which directory item is the last with a given path |
| Normalizer.PrepNodes | src/App.tsx:12-44 | one node per non-empty-path entry. Each node's id is the entry's sha and `droppable` is true iff the type is `'tree'`. The text is the last path segment. The parent is the root for a top-level path, and otherwise the last directory item of the input listing with the parent path, or undefined |
| Normalizer.PrepOrder | src/App.tsx:18-19 | the nodes follow ascending path length and are the listing's non-empty-path entries, as a multiset |
| Normalizer.ParentUndefinedIff | src/App.tsx:27 | with a dictionary, a nested node's parent is undefined iff the listing holds no directory item for its parent path (the object literal differs on Object.prototype names; see Findings) |
| Normalizer.ParentIsEmittedFolder | src/App.tsx:21-27 | a resolved parent is the id of another emitted, droppable node whose path is a proper ancestor of the child's |
| Normalizer.PrepIdempotent | src/App.tsx:18 | running `prep` on its own sorted output yields the same nodes |
| Normalizer.Prep | src/App.tsx:12-44 | sorts the array in place into the stable length order, returns the listing's sha unchanged as the root, and returns the nodes `PrepNodes` describes |
| Selection.SelectionState.constructor | src/App.tsx:69 | nothing is selected initially |
| Selection.SelectionState.Render | src/App.tsx:57-64 | the marker ` ←` shows iff `selected` equals the node's id. The row selects on click iff the node is not droppable. Only droppable nodes get the toggle, which reads `[-]` when open and `[+]` when closed |
| Selection.SelectionState.ClickRow | src/App.tsx:53-58 | a leaf click replaces `selected` with the node's id; a directory row click leaves it unchanged |
| Selection.SelectionState.ClickToggle | src/App.tsx:58-60 | the toggle flips the directory's expansion and leaves `selected` unchanged |
| Selection.SelectTwoLeaves | src/App.tsx:53-62 | after two leaf clicks only the second leaf is marked |
| Selection.SelectThenToggle | src/App.tsx:58-62 | toggling a directory after selecting a leaf keeps the leaf marked and the directory unmarked |
| JsObject.Assign | src/App.tsx:22 | assigning a string to `__proto__` of an object literal changes nothing. Any other key is set to the value, and every other key keeps its value |
| JsObject.UpdateThenDrop | src/App.tsx:22 | setting a key and then dropping `__proto__` equals dropping `__proto__` and then assigning the key on the object |
| JsObject.Read | src/App.tsx:27 | `obj[key]` is an own value iff the key was assigned. Otherwise it is the inherited member iff the key names an Object.prototype member, and `undefined` if not |
| JsObject.FolderIndexAsWritten | src/App.tsx:13-23 | the object built by the loop holds exactly the dictionary's entries, minus the key `__proto__` |
| JsObject.ParentAsWritten | src/App.tsx:25-27 | a top-level item's parent is the root. A parent read that yields an inherited member happens only for a nested item whose parent path names an Object.prototype member |
| JsObject.AsWrittenAgreesElsewhere | src/App.tsx:13-27 | for keys that Object.prototype does not define, the object literal behaves as the modelled dictionary |
| JsObject.ProtoNeverRecorded | src/App.tsx:22 | reading `folderToId["__proto__"]` always yields the inherited Object.prototype |
| JsObject.UnrecordedInheritedName | src/App.tsx:21-27 | reading an Object.prototype name that no directory item recorded yields the inherited member, where the dictionary yields undefined |
| JsObject.MissingFolderReadsInherited | src/App.tsx:21-27 | for an item `constructor/<name>` with no `constructor` directory, the parent is the `Object` function as written, but undefined with a dictionary |
| JsObject.ProtoFolderLosesChildren | src/App.tsx:21-27 | with a directory `__proto__`, the child's parent is Object.prototype as written, but the directory's sha with a dictionary |

## Left out

- The Octokit request, its fixed owner/repo/ref arguments and the `.then` that stores the result (`src/App.tsx:8`, `72-86`). This is network I/O with no error handling. `Prep` takes the listing's `sha` and its `tree` array as parameters.
- React rendering, `DndProvider`/`MultiBackend` and the `Tree` widget, including drag-and-drop reordering through `onDrop={setData}` (`src/App.tsx:88-103`). That behaviour lives in an external library.
- The context plumbing (`createContext`, `useContext`, `useCallback`, `src/App.tsx:46-55`). Only the resulting rule is modelled: one `selected` value shared by all rows.
- The `console.log` calls (`src/App.tsx:16`, `29-31`). They have no effect on the result.
- Absent `path` or `sha`. The comparator reads `pathA!.length` before the empty-path check, so an absent path throws instead of being skipped. Both fields are strings here, and the empty path is the skipped case.
- Selection.SelectionState.ClickToggle: the expansion state belongs to the widget library; only its flip is modelled, as a returned flag.
- The sort algorithm itself. `Array.prototype.sort` is stable, so with this comparator its result is determined. The model fixes an insertion sort that yields that result; the library's comparison order is not modelled.
- Aliasing of listing items. In JavaScript the items are shared objects. Here they are values, which makes no difference because `prep` only reorders them.
- Strings are sequences of Unicode scalar values. A lone surrogate in a path cannot be represented. Lengths are counted in UTF-16 code units, as `.length` counts them.
- Node ids are strings. The widget also accepts numeric ids, which `prep` never produces.
- The listing does not have to hold unique paths. When a directory path occurs twice, the last one processed wins, and by stability that is the last one in the listing.

## Findings

| source | as written | input that shows it | evidently intended | confidence | as-written member | corrected member |
|---|---|---|---|---|---|---|
| src/App.tsx:13-27 | `folderToId` is the object literal `{}`. `folderToId['__proto__'] = sha` goes to the prototype setter, which ignores a string. Reading `folderToId['__proto__']` then yields Object.prototype | listing with items `{path: "__proto__", type: "tree", sha: "A"}` and `{path: "__proto__/x", type: "blob", sha: "B"}` | node `B` has parent `"A"`, as a real dictionary (a `Map` or `Object.create(null)`) would give | high; not executed | JsObject.ProtoFolderLosesChildren | Normalizer.FolderIndexAgrees |
| src/App.tsx:21-27 | a read `folderToId[key]` of a key that was never assigned falls through to Object.prototype. For a parent path such as `constructor`, `toString` or `valueOf`, the parent is then an inherited function, not `undefined` | listing whose only item is `{path: "constructor/x", type: "blob", sha: "B"}` | node `B` has an undefined parent, as a missing parent directory gives for every other name | high; not executed | JsObject.MissingFolderReadsInherited | Normalizer.ParentUndefinedIff |
