# Beat Saber references dialogue — a Dafny model

This project models the logic of the Rider plugin dialogue that lets a user add
Beat Saber assemblies as project references (`BeatSaberReferencesDialogue.kt`).
There are two parts:

- **Candidate resolution.** This is the first `init` block of the dialogue. It keeps
  the supplied Beat Saber paths that are existing directories, and throws
  `IllegalArgumentException("Beat saber folders are empty or not found!")` when none is.
  It lists each directory's children whose extension, lower-cased, is `dll` and whose
  name is not the file name of an existing reference's hint path. It then merges the
  listings in path order with `reduce` and drops repeats with `distinct()`. The model
  is a set of pure functions (`ReferenceResolution.Resolve`). The file system is an
  input value: a map from a path to a plain file or to a directory with its children
  in listing order.
- **Selection table and confirmation.** `BeatSaberReferenceTable` is a class whose
  `rows` field holds one row for each found file. Each row is a (ticked, file) value,
  and every row starts unticked. `SetValueAt` changes one row's tick. `GetValueAt`,
  `IsCellEditable`, `GetRowCount` and `GetColumnCount` are reads. The dialogue class
  `BeatSaberReferencesDialogue` builds the table. Its `DoOKAction` loops over the rows
  and appends the ticked files, in row order, to `references`.

Files:
- `Wrappers.dfy`: `Result`, `Outcome`, and the exception kinds that are thrown.
- `FileNames.dfy`: Kotlin's `File.extension` and `File.nameWithoutExtension`, ASCII
  lower-casing, and IntelliJ's `PathUtil.getFileName`.
- `Sequences.dfy`: `distinct()` and `reduce { acc, next -> acc + next }`.
- `ReferenceResolution.dfy`: the resolution pipeline and its properties.
- `ResolutionOrder.dfy`: the order of the found references.
- `ResolutionScenarios.dfy`: worked examples.
- `ReferenceTable.dfy`: the table model.
- `ReferencesDialogue.dfy`: the dialogue and the OK action.

Exceptions are modelled as values, not as preconditions:
- A row index outside the table makes `GetValueAt` and `SetValueAt` fail with
  `IndexOutOfBounds`.
- A column index outside 0..1 does the same for `IsCellEditable`.
- A non-Boolean value written to column 0 fails with `ClassCast`.
- `Open` returns the resolution's `IllegalArgument` failure in place of the throwing
  constructor.

Two details of the code shape the model:
- `distinct()` compares `java.io.File` values, that is, whole paths. A name that occurs
  in two different folders therefore stays twice
  (`ResolutionScenarios.SameNameInTwoFoldersStaysTwice`). Only a folder supplied twice
  collapses (`ReferenceResolution.RepeatedPathAddsNothing`).
- The extension filter is fixed to `dll`, compared after lower-casing.

A row of the table is a `BeatSaberReferencePair(included, file)` value. The constructor,
`GetValueAt` and `SetValueAt` rows below state what happens to it.

## Model

| member | source | states |
|---|---|---|
| `FileNames.Extension` | src/rider/main/kotlin/com/github/fernthedev/bsmt_rider/dialogue/BeatSaberReferencesDialogue.kt:33 | the extension holds no dot, is a suffix of the name, and is empty when the name has no dot |
| `FileNames.NameWithoutExtension` | src/rider/main/kotlin/com/github/fernthedev/bsmt_rider/dialogue/BeatSaberReferencesDialogue.kt:189 | the display name is a prefix of the file name, and is the whole name when there is no dot |
| `FileNames.NameSplitsAtLastDot` | src/rider/main/kotlin/com/github/fernthedev/bsmt_rider/dialogue/BeatSaberReferencesDialogue.kt:189 | a dotted name is its display name, a dot and its extension; an undotted name is its own display name with empty extension |
| `FileNames.ExtensionOfJoin` | src/rider/main/kotlin/com/github/fernthedev/bsmt_rider/dialogue/BeatSaberReferencesDialogue.kt:33 | base + "." + ext (ext without dot) gives back ext as extension and base as display name |
| `FileNames.LastIndexOfAny` | src/rider/main/kotlin/com/github/fernthedev/bsmt_rider/dialogue/BeatSaberReferencesDialogue.kt:33 | the result is -1 or the position of a matching character, and no matching character lies after it |
| `FileNames.LowerAscii` | src/rider/main/kotlin/com/github/fernthedev/bsmt_rider/dialogue/BeatSaberReferencesDialogue.kt:33 | lower-casing keeps the length, leaves no upper-case ASCII letter, changes exactly the upper-case letters, and turns each into the lower-case letter at the same place in the alphabet |
| `FileNames.DllTestIgnoresCase` | src/rider/main/kotlin/com/github/fernthedev/bsmt_rider/dialogue/BeatSaberReferencesDialogue.kt:33 | `extension.toLowerCase() == "dll"` holds exactly for the eight case spellings of dll |
| `FileNames.FileName` | src/rider/main/kotlin/com/github/fernthedev/bsmt_rider/dialogue/BeatSaberReferencesDialogue.kt:26 | the file name of a hint path is its last component: it contains no path separator, ends the path (apart from one trailing separator), and is either the whole rest of the path or follows a separator |
| `FileNames.FileNameOfChild` | src/rider/main/kotlin/com/github/fernthedev/bsmt_rider/dialogue/BeatSaberReferencesDialogue.kt:26 | the file name of folder + separator + name is name, for a non-empty separator-free name |
| `Sequences.Distinct` | src/rider/main/kotlin/com/github/fernthedev/bsmt_rider/dialogue/BeatSaberReferencesDialogue.kt:42 | `distinct()` keeps exactly the input's elements, none twice |
| `Sequences.DistinctKeepsFirstOccurrenceOrder` | src/rider/main/kotlin/com/github/fernthedev/bsmt_rider/dialogue/BeatSaberReferencesDialogue.kt:42 | `distinct()` lists elements in the order of their first occurrence in the input |
| `Sequences.DistinctOfNoDup` | src/rider/main/kotlin/com/github/fernthedev/bsmt_rider/dialogue/BeatSaberReferencesDialogue.kt:42 | a list without repeats is its own `distinct()`, so `distinct()` is idempotent |
| `Sequences.DistinctIgnoresRepeats` | src/rider/main/kotlin/com/github/fernthedev/bsmt_rider/dialogue/BeatSaberReferencesDialogue.kt:42 | appending elements that already occur does not change `distinct()` |
| `Sequences.Reduce` | src/rider/main/kotlin/com/github/fernthedev/bsmt_rider/dialogue/BeatSaberReferencesDialogue.kt:39-40 | the merge of a non-empty list of listings holds exactly the elements of the listings |
| `Sequences.ReduceIsFlatten` | src/rider/main/kotlin/com/github/fernthedev/bsmt_rider/dialogue/BeatSaberReferencesDialogue.kt:39-40 | the left fold `acc + next` equals right-to-left concatenation of the listings, in listing order |
| `Sequences.ReduceRepeatedList` | src/rider/main/kotlin/com/github/fernthedev/bsmt_rider/dialogue/BeatSaberReferencesDialogue.kt:39-42 | merging one of the lists a second time changes nothing after `distinct()` |
| `ReferenceResolution.ExistingFolders` | src/rider/main/kotlin/com/github/fernthedev/bsmt_rider/dialogue/BeatSaberReferencesDialogue.kt:20 | the kept paths are exactly the supplied paths that are existing directories |
| `ReferenceResolution.ExcludedNames` | src/rider/main/kotlin/com/github/fernthedev/bsmt_rider/dialogue/BeatSaberReferencesDialogue.kt:25-27 | the excluded names are exactly the file names of the existing references' hint paths |
| `ReferenceResolution.AcceptsAnyCaseOfDll` | src/rider/main/kotlin/com/github/fernthedev/bsmt_rider/dialogue/BeatSaberReferencesDialogue.kt:33-36 | a child is accepted iff its extension is one of the eight case spellings of dll and its name is not excluded |
| `ReferenceResolution.ListFiles` | src/rider/main/kotlin/com/github/fernthedev/bsmt_rider/dialogue/BeatSaberReferencesDialogue.kt:32-37 | a listing is no longer than the folder's children and holds only files of that folder |
| `ReferenceResolution.ListFilesHoldsAccepted` | src/rider/main/kotlin/com/github/fernthedev/bsmt_rider/dialogue/BeatSaberReferencesDialogue.kt:32-37 | a folder's listing holds exactly its children with a dll extension whose name is not an excluded name |
| `ReferenceResolution.ListFilesKeepsChildOrder` | src/rider/main/kotlin/com/github/fernthedev/bsmt_rider/dialogue/BeatSaberReferencesDialogue.kt:32-37 | for a directory without repeated child names, the listing has no repeats and keeps the children's order |
| `ReferenceResolution.PerFolder` | src/rider/main/kotlin/com/github/fernthedev/bsmt_rider/dialogue/BeatSaberReferencesDialogue.kt:31 | one listing per existing folder, in folder order, each holding exactly that folder's accepted children |
| `ReferenceResolution.Merged` | src/rider/main/kotlin/com/github/fernthedev/bsmt_rider/dialogue/BeatSaberReferencesDialogue.kt:31-40 | the merged listings hold exactly the accepted children of the supplied directories |
| `ReferenceResolution.AcceptedIsNotReferenced` | src/rider/main/kotlin/com/github/fernthedev/bsmt_rider/dialogue/BeatSaberReferencesDialogue.kt:25-36 | an accepted name differs from the file name of every existing reference's hint path |
| `ReferenceResolution.Resolve` | src/rider/main/kotlin/com/github/fernthedev/bsmt_rider/dialogue/BeatSaberReferencesDialogue.kt:19-43 | fails with the IllegalArgumentException message iff no supplied path is a directory; otherwise the found list holds exactly the qualifying files, none twice, each with a dll extension and none named like an existing reference |
| `ReferenceResolution.FoundInMergeOrder` | src/rider/main/kotlin/com/github/fernthedev/bsmt_rider/dialogue/BeatSaberReferencesDialogue.kt:31-42 | with a directory among the paths, resolution succeeds and the found files appear in the order of their first occurrence in the folder-by-folder merge |
| `ResolutionOrder.ExistingFoldersKeepPathOrder` | src/rider/main/kotlin/com/github/fernthedev/bsmt_rider/dialogue/BeatSaberReferencesDialogue.kt:20 | `filter` keeps the supplied order: any two kept paths occur in that order among the supplied paths |
| `ResolutionOrder.ExistingFoldersKeepFirstOrder` | src/rider/main/kotlin/com/github/fernthedev/bsmt_rider/dialogue/BeatSaberReferencesDialogue.kt:20 | two kept folders first occur among the kept paths in the same relative order as among the supplied paths |
| `ResolutionOrder.MergeFollowsFolderOrder` | src/rider/main/kotlin/com/github/fernthedev/bsmt_rider/dialogue/BeatSaberReferencesDialogue.kt:31-40 | in the merge, a file first occurring before another comes from a folder kept no later, and from the same folder it is an earlier child |
| `ResolutionOrder.FoundInPathThenListingOrder` | src/rider/main/kotlin/com/github/fernthedev/bsmt_rider/dialogue/BeatSaberReferencesDialogue.kt:19-43 | the found files come in supplied-path order (by first occurrence of their folder), and files of one folder in that folder's listing order |
| `ReferenceResolution.RepeatedFolderMergesToSame` | src/rider/main/kotlin/com/github/fernthedev/bsmt_rider/dialogue/BeatSaberReferencesDialogue.kt:31-42 | merging an already supplied directory's listing once more changes nothing after `distinct()` |
| `ReferenceResolution.RepeatedPathAddsNothing` | src/rider/main/kotlin/com/github/fernthedev/bsmt_rider/dialogue/BeatSaberReferencesDialogue.kt:20-42 | supplying a path a second time leaves the outcome unchanged |
| `ReferenceResolution.ReferencedFileIsNotOffered` | src/rider/main/kotlin/com/github/fernthedev/bsmt_rider/dialogue/BeatSaberReferencesDialogue.kt:25-36 | a name that ends an existing reference's hint path is never among the found files |
| `ResolutionScenarios.ReferencedAndForeignFilesAreDropped` | src/rider/main/kotlin/com/github/fernthedev/bsmt_rider/dialogue/BeatSaberReferencesDialogue.kt:19-43 | with A.dll referenced, [A.dll, B.DLL, notes.txt] resolves to [B.DLL] |
| `ResolutionScenarios.NoDirectoryFails` | src/rider/main/kotlin/com/github/fernthedev/bsmt_rider/dialogue/BeatSaberReferencesDialogue.kt:20-23 | a missing path and a plain file give the IllegalArgumentException |
| `ResolutionScenarios.SameNameInTwoFoldersStaysTwice` | src/rider/main/kotlin/com/github/fernthedev/bsmt_rider/dialogue/BeatSaberReferencesDialogue.kt:31-42 | X.dll in folders /a and /b gives two found files, /a's first |
| `ResolutionScenarios.AllReferencedGivesEmptyList` | src/rider/main/kotlin/com/github/fernthedev/bsmt_rider/dialogue/BeatSaberReferencesDialogue.kt:19-43 | when every dll is referenced, the result is an empty list, not a failure |
| `ReferenceTable.ColumnEnum.Editable` | src/rider/main/kotlin/com/github/fernthedev/bsmt_rider/dialogue/BeatSaberReferencesDialogue.kt:89-96 | exactly the column named Include is editable |
| `ReferenceTable.Selected` | src/rider/main/kotlin/com/github/fernthedev/bsmt_rider/dialogue/BeatSaberReferencesDialogue.kt:77-84 | the selection holds exactly the files of ticked rows |
| `ReferenceTable.NothingTickedSelectsNothing` | src/rider/main/kotlin/com/github/fernthedev/bsmt_rider/dialogue/BeatSaberReferencesDialogue.kt:77-84 | with no row ticked, confirming selects nothing |
| `ReferenceTable.SelectedKeepsRowOrder` | src/rider/main/kotlin/com/github/fernthedev/bsmt_rider/dialogue/BeatSaberReferencesDialogue.kt:77-84 | for rows with distinct files, ticked files are selected in row order |
| `ReferenceTable.SelectedHasNoRepeats` | src/rider/main/kotlin/com/github/fernthedev/bsmt_rider/dialogue/BeatSaberReferencesDialogue.kt:77-84 | rows with distinct files give a selection without repeats |
| `ReferenceTable.BeatSaberReferenceTable.constructor` | src/rider/main/kotlin/com/github/fernthedev/bsmt_rider/dialogue/BeatSaberReferencesDialogue.kt:108-114 | one row per file, in the same order, each unticked |
| `ReferenceTable.BeatSaberReferenceTable.GetRowCount` | src/rider/main/kotlin/com/github/fernthedev/bsmt_rider/dialogue/BeatSaberReferencesDialogue.kt:158-160 | the row count is the number of rows, and exactly the indices below it can be read |
| `ReferenceTable.BeatSaberReferenceTable.GetColumnCount` | src/rider/main/kotlin/com/github/fernthedev/bsmt_rider/dialogue/BeatSaberReferencesDialogue.kt:170-172 | the column count is 2, and exactly the columns below it can be asked about |
| `ReferenceTable.BeatSaberReferenceTable.IsCellEditable` | src/rider/main/kotlin/com/github/fernthedev/bsmt_rider/dialogue/BeatSaberReferencesDialogue.kt:145-147 | only column 0 is editable; a column outside 0..1 throws an index exception |
| `ReferenceTable.BeatSaberReferenceTable.GetValueAt` | src/rider/main/kotlin/com/github/fernthedev/bsmt_rider/dialogue/BeatSaberReferencesDialogue.kt:182-191 | a row outside the table throws; column -1 gives the row, 0 its tick, 1 the name without extension, any other null |
| `ReferenceTable.BeatSaberReferenceTable.SetValueAt` | src/rider/main/kotlin/com/github/fernthedev/bsmt_rider/dialogue/BeatSaberReferencesDialogue.kt:202-209 | succeeds exactly when the row exists and, on column 0, the value is a Boolean; on column 0 with a Boolean, only that row's tick changes; other columns change nothing; a bad row or a non-Boolean throws and changes nothing; no file changes; reading it back gives the written value, and every other cell reads as before |
| `ReferencesDialogue.BeatSaberReferencesDialogue.constructor` | src/rider/main/kotlin/com/github/fernthedev/bsmt_rider/dialogue/BeatSaberReferencesDialogue.kt:19-48 | the found list is the resolution's result, the table holds one unticked row per found file, and references start empty |
| `ReferencesDialogue.BeatSaberReferencesDialogue.DoOKAction` | src/rider/main/kotlin/com/github/fernthedev/bsmt_rider/dialogue/BeatSaberReferencesDialogue.kt:74-84 | references gain exactly the ticked rows' files, in row order, appended to what was there; each appended file is a found file and none is appended twice; the table is unchanged |
| `ReferencesDialogue.Open` | src/rider/main/kotlin/com/github/fernthedev/bsmt_rider/dialogue/BeatSaberReferencesDialogue.kt:17-23 | building the dialogue fails with the IllegalArgumentException iff no supplied path is a directory; otherwise the new dialogue is over the found files, all unticked |
| `ReferencesDialogue.ConfirmedFilesAreNewDlls` | src/rider/main/kotlin/com/github/fernthedev/bsmt_rider/dialogue/BeatSaberReferencesDialogue.kt:74-84 | whatever the ticks, the files confirmed from resolved rows are qualifying dll files, none twice |

## Left out

- Swing and IntelliJ dialogue plumbing (`DialogWrapper` lifecycle, `init()`, `title`, `createCenterPanel`, `FormBuilder`, `JBTable`/`JBScrollPane`, column widths, `super.doOKAction()`): host-framework behaviour with no logic of its own. The `project` constructor argument is therefore dropped.
- `getColumnName` and `getColumnClass`: constant look-ups into `ColumnEnum`. The column display names are kept as `ColumnEnum.StrName`, and Java `Class` objects are not modelled.
- Real file-system calls (`exists`, `isDirectory`, `listFiles`): replaced by an input map from path to node. Directory listing order is whatever that input says. `listFiles` returning null on an I/O error is not handled by the code, so it is not modelled either.
- `java.io.File` equality: modelled as exact equality of (folder string, child name). Path normalisation such as a trailing separator, and Windows' case-insensitive path comparison, are platform behaviour that is not modelled.
- `FileNames.LowerAscii`: does not model locale-sensitive `toLowerCase()`. Only ASCII letters are lower-cased; this is an assumption about the platform call.
- `FileNames.FileName`: does not model `PathUtil.getFileName`'s special case for Windows UNC roots. It takes the text after the last `/` or `\`, ignoring one trailing separator; this is an assumption about the foreign call.
- Aliasing of `BeatSaberReferencePair` objects: the Kotlin rows are mutable objects, and `getValueAt(i, -1)` hands out the object itself. The model stores rows as values and returns a copy. The code only reads what it gets back, so nothing observable differs.
- Table-change events and listeners: the code fires none of its own, and nothing here is concurrent.
- `ReferenceTable.BeatSaberReferenceTable.SetValueAt`: a `null` value written to column 0 makes Kotlin's `as Boolean` throw a null-pointer or cast error. The model reports both as `ClassCast`.
- `ResolutionOrder.FoundInPathThenListingOrder` and `ReferenceResolution.ListFilesKeepsChildOrder`: the listing-order half holds for a directory whose child names do not repeat, as in a real directory. The file-system input value does not enforce this.
