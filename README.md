# richexif — a Dafny model of the metadata views

richexif is a command-line tool. It reads the metadata of one file with
ExifTool and prints it either as a two-column table or as a tree grouped
by tag family. This project models the logic between the extractor and
the console:

- the optional key filter of `metadata`;
- the table built by `metadata_table`;
- the tree built by `metadata_tree`, with its `branches` dict;
- the `display_format` option callback;
- the `DISPLAYS[display]` dispatch in `display_metadata`.

Modelling choices:

- A Python dict is a sequence of `(key, value)` pairs in insertion order.
- Values have a generic type `V`. Python's `str(value)` (and the `{value}`
  of an f-string) is an opaque parameter `str: V -> string`.
- Rich's `Tree` is a class whose nodes live in an arena: a label per node
  and, per node, the indices of its children in insertion order. `Tree.Add`
  returns the new node's index, which stands for the node object that
  `tree.add` returns and `branches` stores.
- `metadata_tree` is specified by a fold, `BuildTree`, of one `Step` per
  entry. The loop method `MetadataTreeOf` is proved to build exactly that
  tree. Lemmas then describe the final tree through reference definitions
  that do not mention the fold: `EntryNode`, `GroupNode`, `LastPair`,
  `FirstIndex`, `Attach`, `EntryParent` and `EntryLabel`. Each entry's
  node and each root tag's group node gets its index, its label and its
  parent, and no node has two parents.
- The tree keeps the source's quirk: a key `g:f` re-points `branches[g]` to
  its own node. So a later key with root tag `g` and one segment, or three
  or more, is attached under the most recent `g:f` node. It goes under the
  group node `g` only while no `g:f` key has been seen.

Modules: `Wrappers` (Option, Result), `PyStr` (split/join, substring test,
strip, lower), `Metadata`, `Tables`, `RichTree`, `MetadataTree`, `Display`,
and `Scenarios` (worked examples on concrete keys).

## Model

| member | source | states |
|---|---|---|
| PyStr.Split | src/richexif/main.py:49 | `key.split(":")` gives at least one part, and no part contains the separator |
| PyStr.SplitJoin | src/richexif/main.py:49 | joining the parts of a split with the separator gives back the key |
| PyStr.JoinSplit | src/richexif/main.py:49 | splitting the join of at least one separator-free part gives back exactly those parts |
| PyStr.SplitCount | src/richexif/main.py:49 | the number of parts is the number of `:` in the key plus one, so `len(tags) == 2` means exactly one colon |
| PyStr.Contains | src/richexif/main.py:28 | the scan for `filter in k` only succeeds when the filter is no longer than the key |
| PyStr.ContainsIsSubstring | src/richexif/main.py:28 | the scan answers true exactly when the filter occurs at some position of the key, in both directions |
| PyStr.Strip | src/richexif/main.py:60 | `str(value).strip()` is a slice of the value, no longer than it, beginning and ending with non-whitespace and surrounded only by whitespace |
| PyStr.StripMargins | src/richexif/main.py:60 | what stripping drops on either side is whitespace only |
| PyStr.StripIdempotent | src/richexif/main.py:60 | stripping a stripped value changes nothing |
| PyStr.Lower | src/richexif/main.py:66 | `value.lower()` keeps the length and lower-cases each ASCII letter in place |
| PyStr.LowerIdempotent | src/richexif/main.py:66 | lower-casing twice is lower-casing once |
| Metadata.KeyFilter | src/richexif/main.py:28 | the comprehension keeps only entries of the dict whose key contains the filter, keeps every such entry, and never grows the dict |
| Metadata.KeyFilterAppend | src/richexif/main.py:28 | filtering distributes over concatenation, so the kept entries stay in dict order |
| Metadata.KeyFilterSingle | src/richexif/main.py:28 | one entry is kept exactly when the filter is a substring of its key |
| Metadata.KeyFilterEmpty | src/richexif/main.py:28 | the empty string is in every key, so filtering with `""` keeps every entry |
| Metadata.KeyFilterIdempotent | src/richexif/main.py:28 | filtering the filtered dict again with the same string changes nothing |
| Metadata.KeyFilterDistinct | src/richexif/main.py:28 | the filtered dict still has unique keys |
| Metadata.FilterMetadata | src/richexif/main.py:27-28 | `None` and `""` leave the dict unchanged; otherwise an entry is kept if and only if the filter is a substring of its key |
| Metadata.FilterMetadataIsKeyFilter | src/richexif/main.py:27-28 | the `if filter:` guard changes nothing: the result equals the comprehension run with the filter, or with `""` when it is `None` |
| Metadata.FetchMetadata | src/richexif/main.py:23-29 | `get_metadata(...)[0]` fails exactly when the extractor returned no record; on success it keeps only entries of the first record, never more than it has |
| Tables.Table.AddRow | src/richexif/main.py:41 | `add_row` appends one row after the existing ones |
| Tables.MetadataTable | src/richexif/main.py:32-42 | headers are "Field" and "Value"; there is one row per entry, in dict order, and row i is the key and `str` of the value of entry i |
| RichTree.Added | src/richexif/main.py:55 | `parent.add(label)` keeps the tree well formed and extends it: one new node with that label and no children, appended last to the parent's children, other children lists unchanged; a tree where no node has two parents stays that way |
| RichTree.Tree.Add | src/richexif/main.py:55 | the tree object's new state is `Added` of its old state, and the returned node is the new node's index |
| RichTree.ExtendsTransitive | src/richexif/main.py:51-60 | adding nodes is transitive: what a later tree keeps of an earlier one, a still later one keeps too |
| RichTree.ExtendsKeepsNode | src/richexif/main.py:51-60 | once a node has a label and a parent, later additions leave both in place |
| RichTree.OnlyParent | src/richexif/main.py:55 | in a tree where no node is listed under two parents, the node that lists a child is unique |
| MetadataTree.TaggedValues | src/richexif/main.py:49 | one pair per entry |
| MetadataTree.TaggedValuesParts | src/richexif/main.py:49 | pair i holds at least one separator-free part, the parts join back to key i, and the value is value i |
| MetadataTree.TaggedValuesSplit | src/richexif/main.py:49 | so the parts of pair i are exactly `key.split(":")` of key i |
| MetadataTree.RootTagsAt | src/richexif/main.py:52 | entry j adds its root tag to the root tags of the entries before it |
| MetadataTree.RootTagsHas | src/richexif/main.py:52 | every key's first segment is among the root tags |
| MetadataTree.RootTagsOnly | src/richexif/main.py:52 | every root tag is the first segment of some key |
| MetadataTree.EnsureGroup | src/richexif/main.py:54-55 | a tag already in `branches` changes nothing; a new tag adds the childless node `[blue]g[/blue]`, appended last to the root's children, leaves every other children list as it was, and records the node in `branches` |
| MetadataTree.AddEntry | src/richexif/main.py:57-60 | a key `g:f` appends the node `[blue]f:[/blue] value` to the root's children and re-points `branches[g]` to it; any other key appends its stripped value to the children of `branches[g]` and leaves `branches` alone; in both cases the new node is childless and no other children list changes |
| MetadataTree.Step | src/richexif/main.py:51-60 | one iteration keeps the invariant (well-formed tree, branches name nodes other than the root), only adds nodes, adds the root tag to `branches`, and adds one node, or two for a new tag |
| MetadataTree.StepExtends | src/richexif/main.py:51-60 | one iteration only appends to the tree |
| MetadataTree.StepGroup | src/richexif/main.py:54-55 | for a new tag, the first node added is the group node, a child of the root |
| MetadataTree.StepPair | src/richexif/main.py:57-58 | a key `g:f`'s node is the last one added, a child of the root, and becomes `branches[g]` |
| MetadataTree.StepLeaf | src/richexif/main.py:59-60 | any other key's node is the last one added, a child of `branches[g]`, which does not move |
| MetadataTree.StepOtherBranches | src/richexif/main.py:51-60 | no other tag's branch moves |
| MetadataTree.BuildTree | src/richexif/main.py:45-62 | after all entries the invariant holds, `branches` has exactly the root tags as keys, and the tree has one node for the root, one per entry and one per distinct root tag |
| MetadataTree.BuildPrefix | src/richexif/main.py:51-60 | the tree after a prefix of the entries is kept, unchanged, inside the final tree |
| MetadataTree.StepSingleParent | src/richexif/main.py:51-60 | one iteration gives no node a second parent |
| MetadataTree.BuildTreeSingleParent | src/richexif/main.py:45-62 | in the finished tree, no node is listed under two parents |
| MetadataTree.BuildKeepsNode | src/richexif/main.py:51-60 | a node's label and parent right after some entry are its label and parent in the finished tree |
| MetadataTree.RootLabelKept | src/richexif/main.py:47 | the root is labelled `[blue]<filepath>[blue]`, with the closing tag written as an opening one as in the source |
| MetadataTree.LastPair | src/richexif/main.py:57-58 | the last key `g:f` of the entries, or nothing when there is none |
| MetadataTree.FirstIndex | src/richexif/main.py:54-55 | the first entry with root tag `g`: no earlier entry has that tag |
| MetadataTree.BuildTreeSnoc | src/richexif/main.py:51-60 | one more entry is one more loop iteration on the tree built so far |
| MetadataTree.BuildTreeAt | src/richexif/main.py:51-60 | the tree after entry i is one iteration on the tree before it |
| MetadataTree.BuildTreeNext | src/richexif/main.py:49-60 | the loop's state after entry i is one iteration on `key.split(":")` and the value of entry i |
| MetadataTree.AttachOther | src/richexif/main.py:57-60 | an entry that is not a key `g:f` leaves `g`'s attachment point where it was |
| MetadataTree.BranchKept | src/richexif/main.py:59-60 | an entry that is not a key `g:f` leaves `branches[g]` at `g`'s attachment point |
| MetadataTree.BranchAtPair | src/richexif/main.py:57-58 | a key `g:f` makes its own node `branches[g]`, which is `g`'s new attachment point |
| MetadataTree.BranchAtGroup | src/richexif/main.py:54-55 | the first key with tag `g`, when it is not a key `g:f`, leaves `branches[g]` at the group node |
| MetadataTree.BranchesAttach | src/richexif/main.py:54-60 | after the entries, `branches[g]` is the node of the last key `g:f` if there is one, and otherwise `g`'s group node |
| MetadataTree.PairPlaced | src/richexif/main.py:57-58 | right after a key `g:f`, the last node is `[blue]f:[/blue] value`, a child of the root |
| MetadataTree.LeafPlaced | src/richexif/main.py:59-60 | right after any other key, the last node holds the stripped value, a child of `branches[g]` |
| MetadataTree.EntryPlacedHere | src/richexif/main.py:57-60 | right after entry i, node `EntryNode(m, i)` carries `EntryLabel` of the entry (`[blue]f:[/blue] value` for a key `g:f`, the stripped value otherwise) and is a child of `EntryParent(m, i)` |
| MetadataTree.EntryPlacement | src/richexif/main.py:57-60 | in the finished tree, entry i's node holds `[blue]f:[/blue] value` under the root for a key `g:f`; for any other key it holds the stripped value, under `g`'s attachment point as it stood at that entry; middle segments are ignored |
| MetadataTree.EntryParentOnly | src/richexif/main.py:57-60 | no node other than `EntryParent(m, i)` lists entry i's node as a child |
| MetadataTree.FirstIndexIsNew | src/richexif/main.py:54 | before the first entry with tag `g`, `g` is not a root tag |
| MetadataTree.GroupNodeBeforeEntry | src/richexif/main.py:54-58 | the first key with a new tag has its node right after the tag's group node |
| MetadataTree.GroupPlacedHere | src/richexif/main.py:54-55 | right after the first key with tag `g`, the node `GroupNode` is `[blue]g[/blue]`, a child of the root |
| MetadataTree.GroupNodeAt | src/richexif/main.py:54-55 | the first key with a tag gets the group node `[blue]g[/blue]` under the root, just before its own node |
| MetadataTree.GroupPlacement | src/richexif/main.py:54-55 | every root tag's group node, created with its first key, is labelled `[blue]g[/blue]` and has the root as its only parent |
| MetadataTree.EntryNodeIncreasing | src/richexif/main.py:51 | later entries get later nodes, so children appear in dict order |
| MetadataTree.AddGroup | src/richexif/main.py:54-55 | the tree and the new `branches` are `EnsureGroup` of the old ones |
| MetadataTree.AddKey | src/richexif/main.py:57-60 | the tree and the new `branches` are `AddEntry` of the old ones |
| MetadataTree.AddTagged | src/richexif/main.py:52-60 | the tree and the new `branches` after one pass of the loop body are `Step` of the old ones |
| MetadataTree.MetadataTreeOf | src/richexif/main.py:45-62 | the tree built in place equals `BuildTree` of the file path and the entries |
| Display.DisplayFormat | src/richexif/main.py:65-68 | the callback fails with the `Format must be one of` message exactly when the lower-cased value is not a key of `DISPLAYS`; otherwise it returns the value unchanged |
| Display.SelectAsWritten | src/richexif/main.py:99 | as written, the dispatch succeeds exactly for names that are keys of `DISPLAYS` unchanged; it raises `KeyError` of the name exactly for a name that passes the callback only once lower-cased, and fails with `BadParameter` when even the lower-cased name is not a key |
| Display.UpperCaseTableFails | src/richexif/main.py:99 | `--display TABLE` passes the callback unchanged, then the lookup raises `KeyError("TABLE")` |
| Display.DisplayFormatLowered | src/richexif/main.py:65-68 | the corrected callback fails under the same condition and message, and otherwise returns the lower-cased value, a key of `DISPLAYS` |
| Display.Select | src/richexif/main.py:17-20 | the corrected dispatch succeeds exactly for names that are keys of `DISPLAYS` once lower-cased, and picks that key's renderer; otherwise it fails with `BadParameter` |
| Display.SelectExtendsAsWritten | src/richexif/main.py:99 | wherever the as-written dispatch succeeds, the corrected one gives the same renderer |
| Display.DisplaysKeysAreLower | src/richexif/main.py:17-20 | the keys of `DISPLAYS` are already lower case |
| Display.DisplayMetadata | src/richexif/main.py:98-101 | checks the display name first (`BadParameter`), then the first record (`IndexError`); then prints the table of the filtered record's entries or the `BuildTree` tree of them |
| Scenarios.SplitDeep | src/richexif/main.py:49 | `"EXIF:A:B"` splits into three tags, so it is not a `g:f` key and its root tag is `EXIF` |
| Scenarios.FilterExample | src/richexif/main.py:27-28 | filtering `{"EXIF:Make": ..., "File:Size": ...}` with `"EXIF"` keeps the first entry only |

## Left out

- ExifTool: the extractor session and `get_metadata` are not modelled. The list of records it returns is an input of `FetchMetadata` and `DisplayMetadata`.
- Typer: the command-line parsing, the help text and the path checks (`exists`, `file_okay`, `readable`, `resolve_path`) are not modelled. The file path is the string `str(Path)` after resolution, and the `--display` default `"table"` is not modelled.
- Rich: `console.print`, console markup, the `ROUNDED` box style and the layout of tables and trees are not modelled. A table is its headers and rows; a tree is its labels and parent/child structure.
- Python's `str(value)` and `format(value)` are one opaque parameter `str`. The model assumes both give the same text, as they do for the value types ExifTool returns.
- PyStr.Strip: only ASCII whitespace is stripped (tab, line feed, vertical tab, form feed, carriage return, `\x1c`-`\x1f` and space). Python's `str.strip()` also strips Unicode whitespace such as `\x85` and `\xa0`.
- PyStr.Lower: only ASCII letters are lower-cased. Python's `str.lower()` also folds non-ASCII letters.
- Display.DisplayMetadata: uses the corrected selection `Select`. The as-written dispatch is `Display.SelectAsWritten`, described under Findings.
- Dict keys are not required to be unique: `KeyFilterDistinct` shows the filter keeps uniqueness. The other members do not depend on it.
- The children lists of the finished tree are described node by node: each entry's node and each group node has one known parent. No lemma states that the root's children are exactly the group nodes and the `g:f` nodes, or that a node lists nothing else.
- `main` and `app()` only start the command-line application and are not modelled.

## Findings

| source | as written | input that shows it | evidently intended | confidence | as-written member | corrected member |
|---|---|---|---|---|---|---|
| src/richexif/main.py:65-68 | `display_format` checks `value.lower()` against `DISPLAYS` but returns `value` unchanged, and `case_sensitive=False` does not fold a plain `str` option; `DISPLAYS[display]` on line 99 then raises `KeyError` | `--display TABLE` | return `value.lower()`, so that any capitalisation of `table` or `tree` selects its renderer | not executed; depends on Typer passing the callback's return value through without case folding, which it does for a plain `str` option | Display.SelectAsWritten, Display.UpperCaseTableFails | Display.Select |
