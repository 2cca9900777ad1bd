# wfeb — a Dafny model of the settings mutation and the archive member order

`wfeb` removes edit protection and revision tracking from a Word document. It
unpacks the document's ZIP package, edits the element tree of
`word/settings.xml`, and packs the files into a new archive in a fixed member
order. This project models the two pieces of pure logic in `wfeb.py` and proves
their properties:

- **`modify_settings_xml`** (`settings.dfy`, over the tree of `xml_tree.dfy`).
  The settings document is an immutable tree of `Element(name, attrs, children)`.
  Tags and attribute names are namespace-qualified `QName`s. A node is addressed
  by its path of child indices. Document order is the lexicographic order on
  paths (`Precedes`), which is the pre-order that ElementTree's `find('.//tag')`
  follows. That `find` never looks at the root itself. The operation has two steps:
  - `DisableProtection` finds the first `w:documentProtection` and sets `w:edit="edit"`
    and `w:enforcement="0"` on it.
  - `RemoveTrackRevisions` finds the first `w:trackRevisions` and calls `root.remove` on it.
    ElementTree elements have no `getparent`, so the parent is always the root.
    Removal therefore succeeds only for a child of the root; otherwise it raises `ValueError`,
    which the model returns as `Failure(NotAChildOfRoot(path))`.

  `ModifySettings` runs both steps. It returns a `Status(protectionFound, trackRemoved)`
  in place of the printed status lines.
- **The repack loop of `process_docx`** (`repack.dfy`). The extraction directory is
  given as the tuples of a top-down `os.walk`: each `WalkEntry` holds a folder (its
  segments relative to the directory) and the files in it. `ArchiveOrder` is the
  list of member names in the order they are written:
  - pass one: the top-level `[Content_Types].xml`, when it exists;
  - pass two: every file at any depth under the top-level `_rels`;
  - pass three: every folder whose basename is not `_rels`, skipping files named `[Content_Types].xml`.

  Passes two and three share one definition, `Pass`.

The model follows the code, not the intent written in its comments. In two places
the two differ: removal from the true parent, and a third pass that skips only
what the first two wrote. These are modelled beside the as-written behaviour and
recorded under Findings.

`results.dfy` holds the `Option` and `Result` types.

## Model

| member | source | states |
|---|---|---|
| `XmlTree.FindFirst` | wfeb.py:17 | `find('.//tag')`, answering with the path of the element found. Its contract is carried by `FindFirstSpec` and `FindFirstIff`: `None` exactly when no proper descendant has the tag, otherwise the first one in document order. |
| `XmlTree.FindFirstSpec` | wfeb.py:17 | `find('.//tag')` answers `None` exactly when no proper descendant has the tag. Otherwise it answers the path of the first such descendant in document order. |
| `XmlTree.FindFirstIff` | wfeb.py:26 | `find` answers `p` if and only if `p` is the first matching descendant in document order. |
| `XmlTree.FirstMatchUnique` | wfeb.py:17 | There is only one first match, because document order is total (`PrecedesTotal`). |
| `XmlTree.PrecedesStrictTotalOrder` | wfeb.py:17 | Document order is irreflexive, transitive and total, so "first in document order" is well defined. |
| `XmlTree.PrecedesTotal` | wfeb.py:17 | Two distinct nodes are always ordered one way or the other in document order. |
| `XmlTree.FindFirstSameTags` | wfeb.py:17-26 | What `find` answers depends only on the tree's shape and tags. So the attribute edits of the protection step cannot change what the track-revisions step finds. |
| `XmlTree.ReplaceAtOutside` | wfeb.py:19-20 | Changing one element in place leaves every node outside its ancestor line and its subtree identical. |
| `XmlTree.ReplaceAtAncestor` | wfeb.py:19-20 | Changing one element in place leaves the tag, attributes and child count of each of its ancestors unchanged. |
| `XmlTree.ReplaceAtInside` | wfeb.py:19-20 | After the replacement, the subtree at the changed position is exactly the new element. |
| `Settings.Unprotected` | wfeb.py:19-20 | After the two `set` calls, `w:edit` is `"edit"` and `w:enforcement` is `"0"`. No other attribute is added or changed. |
| `Settings.SetAttrsAt` | wfeb.py:19-20 | The in-place `set` calls on one element. Its contract is carried by `SetAttrsAtSpec`: same shape and tags, and only that element's attributes change. |
| `Settings.SetAttrsAtSpec` | wfeb.py:19-20 | Setting attributes on one element keeps the tree's shape and every tag. It changes the attributes of that element only. |
| `Settings.DisableProtection` | wfeb.py:17-23 | The status is "found" exactly when a `w:documentProtection` descendant exists. With none, the tree is unchanged. |
| `Settings.DisableProtectionSpec` | wfeb.py:17-20 | Only the first protection element's attributes change, to the unprotected map. Every other node, and the shape and tags of the tree, stay as they were. |
| `Settings.DisableProtectionClears` | wfeb.py:18-20 | Whatever its values were before, the first protection element ends with `edit = "edit"` and `enforcement = "0"`. |
| `Settings.DisableProtectionIdempotent` | wfeb.py:17-20 | Running the protection step on its own output gives the same tree again. |
| `Settings.WithoutChild` | wfeb.py:29 | `list.remove` of the `i`-th child keeps the root's tag and attributes. It shortens the children by one, and the rest keep their order and subtrees. |
| `Settings.RemoveTrackRevisions` | wfeb.py:26-30 | With no `w:trackRevisions` descendant, the tree is unchanged and nothing is reported. If the first one is a child of the root, exactly that child is removed. If it lies deeper, the step fails. |
| `Settings.ModifySettings` | wfeb.py:8-33 | The whole operation fails exactly when the first `w:trackRevisions` is not a child of the root. On success, the status reports whether each element existed in the input. |
| `Settings.RemoveFromParent` | wfeb.py:28-29 | Corrected removal from the element's actual parent. Its contract is carried by `RemoveFromParentSpec`. |
| `Settings.RemoveFromParentSpec` | wfeb.py:28-29 | Corrected removal: the node leaves its actual parent's children, and the other children keep their order. Ancestors keep their tags, attributes and child counts, and every other node is unchanged. |
| `Settings.RemoveTrackRevisionsFromParent` | wfeb.py:26-30 | Corrected step two: it never fails, reports removal exactly when a `w:trackRevisions` exists, and removes the first one from its actual parent. |
| `Settings.ModifySettingsFromParent` | wfeb.py:8-33 | Corrected operation: always succeeds, and the status reports whether each element existed. With no `w:trackRevisions`, the tree is the protection step's output. Otherwise the input's first `w:trackRevisions` is taken out of its actual parent in that output, and nothing else changes. |
| `Settings.ModifySettingsAgreesWhenSucceeds` | wfeb.py:26-29 | Whenever the code as written succeeds, its result equals the corrected operation's result. |
| `Settings.NestedTrackRevisionsFails` | wfeb.py:28-29 | For `settings/compat/trackRevisions`, the code as written fails. The corrected operation removes the element and leaves none behind. |
| `Repack.EmitSpec` | wfeb.py:84-90 | One folder's loop writes exactly the kept files, as `folder + [name]`. With distinct file names, no name is written twice. |
| `Repack.PassMembers` | wfeb.py:80-90 | A pass over the walk writes exactly the kept files of the kept folders. |
| `Repack.PassAppend` | wfeb.py:80 | Walk order: over two consecutive stretches of the walk, a pass writes all of the first stretch's files before the second's. |
| `Repack.PassDistinct` | wfeb.py:80-90 | On a walk with no repeated folder and no repeated file within a folder, a pass writes each name at most once. |
| `Repack.ContentTypesPass` | wfeb.py:65-68 | Pass one. Its contract is carried by `ContentTypesFirst`: `[Content_Types].xml` is written exactly when it exists at the top, and then first. |
| `Repack.RelsPass` | wfeb.py:70-77 | Pass two. Its contract is carried by `RelsPassMembers` and `RelsPassShape`: exactly the files in and below the top-level `_rels`, none twice on a well-formed walk. |
| `Repack.RestPass` | wfeb.py:79-90 | Pass three as written. Its contract is carried by `RestPassMembers` and `RestPassShape`: exactly the files of folders whose own name is not `_rels`, other than those named `[Content_Types].xml`. |
| `Repack.ArchiveOrder` | wfeb.py:62-90 | The member names of the new archive, in writing order. Its contract is carried by `ContentTypesFirst`, `ArchiveOrderPhases`, `NestedRelsDropped` and `RelsSubfolderTwice`. |
| `Repack.RelsPassMembers` | wfeb.py:70-77 | Pass two writes exactly the files in the top-level `_rels` folder and all folders below it. |
| `Repack.RelsPassShape` | wfeb.py:70-77 | Every name pass two writes starts with `_rels` and has a file below it. On a well-formed walk, none is written twice. |
| `Repack.RestPassMembers` | wfeb.py:79-90 | Pass three writes exactly the files of folders whose basename is not `_rels`, except files named `[Content_Types].xml`. |
| `Repack.RestPassShape` | wfeb.py:81-86 | No name from pass three has `[Content_Types].xml` as its file name. The folder that directly holds it is never named `_rels`, however deep that folder is. On a well-formed walk, none is written twice. |
| `Repack.ContentTypesFirst` | wfeb.py:65-68 | `[Content_Types].xml` is a member exactly when it exists at the top. When it is, it is the first member. |
| `Repack.ArchiveOrderPhases` | wfeb.py:62-90 | After the optional `[Content_Types].xml`, every position up to the end of pass two holds a name under the top-level `_rels`. Every later position holds a pass-three name. |
| `Repack.NestedRelsDropped` | wfeb.py:81-82 | A file in a folder named `_rels` that is not under the top-level `_rels` is never written. |
| `Repack.DocumentRelsDropped` | wfeb.py:81-82 | In the standard package layout, `word/_rels/document.xml.rels` is missing from the new archive. The corrected order contains it. |
| `Repack.RelsSubfolderTwice` | wfeb.py:73-82 | A file in a sub-folder of the top-level `_rels` is written at least twice, unless its own folder is named `_rels` or the file is named `[Content_Types].xml`. |
| `Repack.ArchiveOrderCorrected` | wfeb.py:79-90 | The member order with pass three corrected. Its contract is carried by `ArchiveOrderCorrectedMembers` and `ArchiveOrderCorrectedDistinct`: every extracted file exactly once, `[Content_Types].xml` first. |
| `Repack.RestPassCorrectedShape` | wfeb.py:79-86 | The corrected pass three writes nothing under the top-level `_rels` and not the top-level `[Content_Types].xml`. |
| `Repack.ArchiveOrderCorrectedMembers` | wfeb.py:62-90 | With pass three corrected, the archive holds exactly the extracted files. `[Content_Types].xml` still comes first. |
| `Repack.ArchiveOrderCorrectedDistinct` | wfeb.py:62-90 | With pass three corrected, a well-formed walk gives each file exactly once. |

## Left out

- The document comparison tool (`debug utils/compare.py`) is not part of this model.
- ZIP extraction, deflate compression and archive writing (wfeb.py:44-45, wfeb.py:64) are library I/O. Only the order of member names is modelled.
- XML parsing and serialisation with the UTF-8 declaration (wfeb.py:10, wfeb.py:33) are foreign library calls. The model starts and ends at the tree. Namespace prefixes and attribute order only affect the serialised text, so they are not modelled.
- Element text and tail are not represented. Neither step reads or writes them. The one exception: removing an element in ElementTree also drops its tail text.
- The backup copy, delete and rename, and the creation and cleanup of the temporary directory (wfeb.py:41, wfeb.py:58-60, wfeb.py:93-94, wfeb.py:101) are file-system side effects with no computed content.
- The existence checks of `process_docx` (wfeb.py:36-38, wfeb.py:50-52), the command line (wfeb.py:103-113) and the printed lines are plumbing. Statuses are returned as values instead.
- `os.walk` is an input. The model takes the walk of `_rels` (wfeb.py:73) to be the entries of the full walk that lie under `_rels`, in the same order. The directory listing order is whatever the file system yields.
- Archive names are lists of path segments. The ZIP entry name is those segments joined with `/`, and no file or folder name contains `/`.
- Settings.ModifySettings: its own contract states only when the operation fails and what the status reports. The resulting tree is pinned down through `ModifySettingsAgreesWhenSucceeds` and the contracts of the two step functions.
- `setup.py` is packaging metadata.

## Findings

| source | as written | input that shows it | evidently intended | confidence | as-written member | corrected member |
|---|---|---|---|---|---|---|
| wfeb.py:28-29 | The parent falls back to `root` because ElementTree elements have no `getparent`. `root.remove` then raises `ValueError` when `w:trackRevisions` is not a child of the root. | `settings` → `compat` → `trackRevisions` | Remove the element from the parent that holds it (the `getparent` test) | medium; not executed | `Settings.NestedTrackRevisionsFails` | `Settings.ModifySettingsFromParent` |
| wfeb.py:81-82 | Pass three skips every folder whose basename is `_rels`, so nested relationship folders are never written. | a walk containing `word/_rels` with `document.xml.rels` | Skip only the top-level `_rels` tree that pass two already wrote ("Skip _rels as it's already processed") | high; not executed | `Repack.DocumentRelsDropped` | `Repack.ArchiveOrderCorrectedMembers` |
| wfeb.py:73-82 | Files in sub-folders of the top-level `_rels` are written by pass two and again by pass three, unless their own folder is named `_rels` or the file is named `[Content_Types].xml`. | a walk containing `_rels/sub` with one file `x` | Each file is written once | medium; not executed | `Repack.RelsSubfolderTwice` | `Repack.ArchiveOrderCorrectedDistinct` |

The corrected members sit beside the as-written ones. `ModifySettings` and
`ArchiveOrder` remain the model of what the program does.
