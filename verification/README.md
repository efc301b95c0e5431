# BCad core: the persistent layer tree, the IGES fixed-column reader, DXF layer and unit helpers

A Dafny model of three parts of BCad, a .NET CAD program.

- **`ReadOnlyTree<TKey, TValue>`** is the persistent AVL map a drawing keeps its layers in.
  - Every `Insert` or `Delete` clones the nodes on the search path and returns a new version. Every older version stays as it was.
  - Each node caches its height. Four rotations restore the AVL balance on the way back up the recorded ancestor stack.
- **The fixed-column IGES reader.** `Load` reads 80-column lines:
  - columns 1-72 are data, column 73 the section letter and 74-80 the sequence number;
  - the Terminate line's counts are checked;
  - parameter lines are grouped into records, and two-line directory entries are read;
  - so are the small scanners it uses: 8-column directory fields, delimited parameter fields, Hollerith strings `nH...` and unsigned integers.
- **DXF helpers.** `DxfFileHandler` keeps a layer table on the tree (get-or-create by name) and maps between the drawing's and the DXF header's unit formats.

## How the model is built

- **Nodes and tree versions.**
  - Nodes are an immutable datatype. A "clone, then set a child" is a fresh node built from the old one's fields.
  - The recorded `Stack<Node>` is a sequence whose element 0 is the top.
  - A dereference of a null node is a `Failure(NullReferenceException)`. That is why `Rebalance`, `BalanceAndReSpine`, `Insert` and `Delete` return a `Result`.
  - The ghost predicates `HeightsCached`, `Ordered` and `Balanced` (together `Valid`) are the tree's invariants. `Keys` and `Entries` are its contents.
- **The reader's scanners.**
  - The `ref int index` parameters become functions from a start index to the value read and the index after it, or a failure.
  - `SplitFields` is a method with a loop, proved equal to a recursive reference definition.
- **.NET library calls** are modelled in `DotNetText`: `Trim`, `Substring`, `Split`, `int.Parse`. `int.Parse` accepts 32-bit values only and fails with a `FormatException` or an `OverflowException`.
- **Directory entries.**
  - `DirectoryFrom` takes the two-line entry reader as a function parameter, and `ParseDirectoryLines` passes it `ReadDirectoryEntry`.
  - The facts about the walk are proved for every reader that checks line numbers the way `ReadDirectoryEntry` does (`ChecksEntries`).
- **`Delete` is modelled as the code is written.** The two places where it departs from its documentation are under Findings. The corrected `DeleteCorrection.DeleteCorrected` is proved to remove exactly the key and keep the tree a valid AVL tree.

## Model

| member | source | states |
|---|---|---|
| KeyOrder.StrictTotalOrder | BCad.Core/Collections/ReadOnlyTree.cs:7 | the key comparison the tree relies on is irreflexive, asymmetric, transitive and total |
| TreeFacts.HeightPositive | BCad.Core/Collections/ReadOnlyTree.cs:55-70 | in a tree whose cached heights are consistent, a height is never negative and is positive exactly at a non-null node |
| TreeFacts.FindInOrdered | BCad.Core/Collections/ReadOnlyTree.cs:337-356 | on an ordered tree the TryFind descent finds a key exactly when the key is stored somewhere in the tree, and it returns the value stored with it |
| TreeFacts.FindIffEntry | BCad.Core/Collections/ReadOnlyTree.cs:331-356 | on an ordered tree TryFind returns v for k if and only if the pair (k, v) is stored in the tree |
| TreeFacts.EntriesFunctional | BCad.Core/Collections/ReadOnlyTree.cs:9-43 | an ordered tree stores at most one value per key |
| TreeFacts.CountIsNumberOfKeys | BCad.Core/Collections/ReadOnlyTree.cs:90-103 | Count of an ordered tree is the number of distinct keys it holds |
| TreeFacts.RightRightKeeps | BCad.Core/Collections/ReadOnlyTree.cs:281-288 | the single left rotation keeps the stored pairs and consistent cached heights, and keeps an ordered tree ordered |
| TreeFacts.LeftLeftKeeps | BCad.Core/Collections/ReadOnlyTree.cs:311-318 | the single right rotation keeps the stored pairs and consistent cached heights, and keeps an ordered tree ordered |
| TreeFacts.RightLeftIsTwoRotations | BCad.Core/Collections/ReadOnlyTree.cs:290-299 | the right-left case is a right rotation of the right child followed by a left rotation of the node |
| TreeFacts.LeftRightIsTwoRotations | BCad.Core/Collections/ReadOnlyTree.cs:320-329 | the left-right case is a left rotation of the left child followed by a right rotation of the node |
| TreeFacts.RebalanceKeeps | BCad.Core/Collections/ReadOnlyTree.cs:259-329 | whenever Rebalance succeeds it keeps the node's pairs and cached heights, and keeps an ordered node ordered |
| TreeFacts.LeftLeftRestores | BCad.Core/Collections/ReadOnlyTree.cs:311-318 | on a node leaning left by two whose left child does not lean right, the rotation balances it and lowers it by one, or keeps its height when the child was level |
| TreeFacts.LeftRightRestores | BCad.Core/Collections/ReadOnlyTree.cs:320-329 | on a node leaning left by two whose left child leans right, the double rotation succeeds, balances it and lowers it by one |
| TreeFacts.LeftRebalanceRestores | BCad.Core/Collections/ReadOnlyTree.cs:301-309 | LeftRebalance picks a rotation that succeeds and rebalances; it lowers the node by one, except on delete with a level left child, where the height may stay |
| TreeFacts.RightRightRestores | BCad.Core/Collections/ReadOnlyTree.cs:281-288 | the mirror of LeftLeftRestores for a node leaning right by two |
| TreeFacts.RightLeftRestores | BCad.Core/Collections/ReadOnlyTree.cs:290-299 | the mirror of LeftRightRestores for a node leaning right by two |
| TreeFacts.RightRebalanceRestores | BCad.Core/Collections/ReadOnlyTree.cs:271-279 | the mirror of LeftRebalanceRestores |
| TreeFacts.RebalanceRestores | BCad.Core/Collections/ReadOnlyTree.cs:259-269 | a node within one of balance is returned unchanged; one off by two comes back balanced and at most one lower (exactly one lower when inserting) |
| TreePaths.DescendIsSearchPath | BCad.Core/Collections/ReadOnlyTree.cs:110-135 | the stack Insert and Delete record is the search path for the key: folded back up, it rebuilds the root it started from |
| TreePaths.DescendMatchesFind | BCad.Core/Collections/ReadOnlyTree.cs:145-168 | the descent stops at a node exactly when TryFind finds the key, and that node holds the value TryFind returns |
| TreePaths.DescendLeftIsSearchPath | BCad.Core/Collections/ReadOnlyTree.cs:208-215 | the walk down the right subtree's left spine ends at the in-order successor, the smallest key of that subtree |
| TreePaths.ReSpineKeeps | BCad.Core/Collections/ReadOnlyTree.cs:243-257 | re-spining a replacement subtree along a search path yields an ordered tree whose pairs are the old root's with the subtree's pairs exchanged |
| TreePaths.InsertReSpineBalances | BCad.Core/Collections/ReadOnlyTree.cs:243-257 | after an insertion below a balanced root, the re-spine succeeds, ends balanced, and grows the height by at most one |
| TreePaths.DeleteReSpineSucceeds | BCad.Core/Collections/ReadOnlyTree.cs:243-257 | re-spining a subtree that shrank by at most one succeeds, and the root's height drops by at most one |
| TreePaths.SuccessorReSpineIsReSpine | BCad.Core/Collections/ReadOnlyTree.cs:217-237 | because the found node is never on the stack, the two-children rebuild never takes its key-replacement branch and is an ordinary delete-mode re-spine |
| TreeInsert.InsertEntries | BCad.Core/Collections/ReadOnlyTree.cs:108-140 | Insert into a valid tree succeeds; the result is valid, holds (key, value), keeps every pair of other keys and only those, and is at most one higher |
| TreeInsert.InsertCorrect | BCad.Core/Collections/ReadOnlyTree.cs:108-140 | after Insert, TryFind(key) gives the new value, every other key's lookup is unchanged, the key set gains the key, and Count grows by one exactly when the key was absent |
| TreeInsert.InsertKeepsOrder | BCad.Core/Collections/ReadOnlyTree.cs:108-140 | on any ordered tree with cached heights, balanced or not, a returning Insert keeps order and cached heights, maps the key to the new value, leaves every other lookup alone and adds exactly the key |
| TreeInsert.InsertExistingKeepsCount | BCad.Core/Collections/ReadOnlyTree.cs:128-134 | inserting an existing key replaces its value and leaves Count unchanged |
| TreeInsert.InsertFreshGrowsCount | BCad.Core/Collections/ReadOnlyTree.cs:108-140 | inserting an absent key grows Count by exactly one |
| TreeDelete.DeleteAbsent | BCad.Core/Collections/ReadOnlyTree.cs:171-172 | deleting an absent key returns the very same tree |
| TreeDelete.DeleteKeepsOrder | BCad.Core/Collections/ReadOnlyTree.cs:145-241 | whenever Delete succeeds, in every case: the result is ordered with consistent heights, the key is no longer found, and no key or pair is new |
| TreeDelete.DeleteAtMostOneChild | BCad.Core/Collections/ReadOnlyTree.cs:174-204 | when the found node has at most one child, Delete on a balanced tree succeeds and removes exactly that key's pair |
| TreeDelete.DeleteExact | BCad.Core/Collections/ReadOnlyTree.cs:174-204 | in the leaf and one-child cases the key is no longer found, every other key's lookup is unchanged and Count drops by one |
| TreeDelete.DeleteTwoChildren | BCad.Core/Collections/ReadOnlyTree.cs:205-238 | in the two-children case, when Delete succeeds, the result is ordered and its pairs are the old tree's with the found node's whole subtree replaced by its right subtree |
| DeleteExamples.TwoChildrenDropsLeftSubtree | BCad.Core/Collections/ReadOnlyTree.cs:205-238 | deleting the root "2" of the valid tree 1 <- 2 -> 3 leaves only "3": the key "1" is lost as well |
| DeleteExamples.InsertThenDeleteLosesKey | BCad.Core/Collections/ReadOnlyTree.cs:108-238 | inserting "2" into 1 -> 3 and then deleting "2" does not give back the keys {1, 3} |
| DeleteExamples.DeleteCanLoseOtherKeys | BCad.Core/Collections/ReadOnlyTree.cs:145-238 | some valid tree and key make Delete succeed with a key set other than the old one minus the key |
| DeleteExamples.LeafParentNotRebalanced | BCad.Core/Collections/ReadOnlyTree.cs:176-191 | deleting the leaf "1" of the valid tree 1 <- 2 -> (3 -> 4) leaves a root whose balance factor is -2 |
| DeleteExamples.DeleteCanUnbalance | BCad.Core/Collections/ReadOnlyTree.cs:176-191 | some valid tree and key make Delete succeed with a tree that is not AVL-balanced |
| DeleteCorrection.RemoveMinCorrect | BCad.Core/Collections/ReadOnlyTree.cs:208-215 | removing the smallest pair of a valid subtree gives a valid subtree without exactly that pair, whose keys are all larger, at most one lower |
| DeleteCorrection.DeleteFromCorrect | BCad.Core/Collections/ReadOnlyTree.cs:145-241 | the corrected removal from a valid subtree succeeds, stays valid, removes exactly the key's pair and lowers the height by at most one |
| DeleteCorrection.DeleteCorrectedExact | BCad.Core/Collections/ReadOnlyTree.cs:142-145 | the corrected delete keeps the tree valid: the key is gone, every other lookup is unchanged, and Count drops by one exactly when the key was present |
| DeleteCorrection.InsertThenDeleteCorrected | BCad.Core/Collections/ReadOnlyTree.cs:108-145 | inserting an absent key and then deleting it with the corrected delete gives back exactly the original pairs |
| IgesReader.SectionTypeFromCharacter | BCad.Iges/IgesFileReader.cs:451-463 | a letter names a section exactly when it is one of S, G, D, P, T; the section's letter is that letter; any other letter is the "Invalid section type" error |
| IgesTextFacts.SectionLettersInverse | BCad.Iges/IgesFileReader.cs:437-463 | the section-letter mapping and its reverse are mutual inverses over the five sections and S, G, D, P, T |
| IgesFileFacts.RejectsLineLength | BCad.Iges/IgesFileReader.cs:36-37 | a line that is not 80 characters long is rejected |
| IgesFileFacts.RejectsUnorderedLine | BCad.Iges/IgesFileReader.cs:36-69 | any 80-column data line whose sequence field (however padded) parses to a number other than its section's new line count is rejected with "Unordered line number" |
| IgesFileFacts.ReadOneLine | BCad.Iges/IgesFileReader.cs:36-69 | any 80-column data line whose sequence field parses to its section's next number appends its data to that section, with parameter lines cut to 64 columns, and reading goes on |
| IgesFileFacts.ReadSectionBlock | BCad.Iges/IgesFileReader.cs:34-71 | any block of 80-column lines of one section numbered on in order appends all their data columns to that section in order |
| IgesFileFacts.ReadFormattedBlock | BCad.Iges/IgesFileReader.cs:34-71 | a section written with zero-padded sequence numbers continuing the lines already read is appended whole to that section |
| IgesFileFacts.CountsChecked | BCad.Iges/IgesFileReader.cs:48-61 | the Terminate check succeeds exactly when all four counts match the collected S, G, D, P counts; otherwise the first mismatch in that order names the error |
| IgesFileFacts.ReadClaimedCounts | BCad.Iges/IgesFileReader.cs:42-61 | a Terminate line claiming some counts ends reading with the collected sections or with the error for the first count that disagrees |
| IgesFileFacts.StopsAtTerminate | BCad.Iges/IgesFileReader.cs:61 | nothing after the first Terminate line is read |
| IgesFileFacts.FormatLineColumns | BCad.Iges/IgesFileReader.cs:38-40 | a line built from 72 data columns, a section letter and a sequence number is 80 long and its three parts read back |
| IgesFileFacts.SequenceFieldReads | BCad.Iges/IgesFileReader.cs:40 | a zero-padded 7-column sequence number is parsed back to its value |
| IgesFileFacts.ReadWhatIsWritten | BCad.Iges/IgesFileReader.cs:34-71 | reading the lines of well-formed S, G, D, P sections followed by a correct Terminate line gives back exactly those sections |
| IgesFileFacts.LoadWhatIsWritten | BCad.Iges/IgesFileReader.cs:19-71 | splitting the whole text at line breaks and reading it gives back the sections it was written from |
| IgesReader.SwallowWhitespace | BCad.Iges/IgesFileReader.cs:416-424 | the index moves past white space only, and stops at the first non-white character or the end |
| IgesReader.SwallowDelimiter | BCad.Iges/IgesFileReader.cs:429-435 | it succeeds, past the character, exactly when the expected delimiter is at the index; otherwise it fails with "Unexpected end of string" or "Expected delimiter" |
| IgesReader.GetField | BCad.Iges/IgesFileReader.cs:257-263 | the field is read exactly when its 8 columns lie within the line, else ArgumentOutOfRange; a value other than the default is never empty |
| IgesRecordFacts.GetFieldReadsBack | BCad.Iges/IgesFileReader.cs:257-263 | a right-justified value in field n is read back trimmed, and a blank field gives the default |
| IgesRecordFacts.FieldIntReadsBack | BCad.Iges/IgesFileReader.cs:219-235 | a number of at most 8 digits right-justified in a directory field is parsed back to itself |
| IgesRecordFacts.FieldIntBlank | BCad.Iges/IgesFileReader.cs:257-263 | a blank directory field reads as the default "0", that is as 0 |
| IgesReader.SplitFields | BCad.Iges/IgesFileReader.cs:265-289 | the loop computes the recursive field splitting, and no field it emits contains either delimiter |
| IgesTextFacts.FieldsOfRecord | BCad.Iges/IgesFileReader.cs:265-289 | fields joined with the field delimiter and closed by the record delimiter split back into exactly those fields, whatever follows |
| IgesTextFacts.OneFieldPerDelimiter | BCad.Iges/IgesFileReader.cs:270-284 | one field is emitted per delimiter up to and including the first record delimiter, and none contains a delimiter |
| IgesTextFacts.FieldsStopAtRecord | BCad.Iges/IgesFileReader.cs:276-279 | text after the record delimiter does not affect the fields |
| IgesTextFacts.UndelimitedTextIsDropped | BCad.Iges/IgesFileReader.cs:265-289 | trailing text with no delimiter produces no field |
| IgesTextFacts.OmittedValues | BCad.Iges/IgesFileReader.cs:293-298 | a delimiter at the index makes ParseString and ParseInt return their default and move past exactly that delimiter |
| IgesTextFacts.ParseStringAt | BCad.Iges/IgesFileReader.cs:291-338 | after digits and 'H', ParseString returns exactly the next length characters and needs the record delimiter at the last column, else the field delimiter |
| IgesTextFacts.ParseStringReadsHollerith | BCad.Iges/IgesFileReader.cs:291-338 | a Hollerith string nH followed by the right delimiter reads back as its text, ending just past the delimiter |
| IgesTextFacts.ParseStringRejectsWrongDelimiter | BCad.Iges/IgesFileReader.cs:330-335 | a Hollerith string followed by any other character fails with "Expected delimiter" |
| IgesTextFacts.ParseStringRejectsMissingDelimiter | BCad.Iges/IgesFileReader.cs:429-432 | a Hollerith string at the very end of the text fails with "Unexpected end of string" |
| IgesTextFacts.ParseStringRejectsShortText | BCad.Iges/IgesFileReader.cs:326-327 | a length longer than the text that follows fails with ArgumentOutOfRange |
| IgesTextFacts.ScanLengthRejects | BCad.Iges/IgesFileReader.cs:305-316 | a character other than a digit before the 'H' fails with "Expected digit" |
| IgesTextFacts.ParseIntReadsDecimal | BCad.Iges/IgesFileReader.cs:340-366 | a non-negative 32-bit number written in decimal and followed by a delimiter reads back, ending past the delimiter |
| IgesTextFacts.ParseIntRejectsNonDigit | BCad.Iges/IgesFileReader.cs:360-361 | a character that is neither white space, a digit nor a delimiter fails with "Expected digit" |
| IgesTextFacts.ParseIntRejectsMinus | BCad.Iges/IgesFileReader.cs:360-361 | a negative number is rejected with "Expected digit" |
| IgesTextFacts.ParseIntRejectsBlank | BCad.Iges/IgesFileReader.cs:349-365 | any non-empty run of white space (none of it a delimiter) before a delimiter leaves no digits, and int.Parse fails with FormatException |
| IgesRecordFacts.ParameterRecordPointers | BCad.Iges/IgesFileReader.cs:185-203 | there is one record per closing line; the first record starts at line 1, record k > 0 starts exactly on the line after the (k-1)-th closing line, and pointers strictly increase |
| IgesReader.ReadDirectoryEntry | BCad.Iges/IgesFileReader.cs:216-241 | an entry that is read carries its line number, a non-zero entity type and a transformation-matrix pointer below its line number |
| IgesRecordFacts.ParseDirectoryLinesEntries | BCad.Iges/IgesFileReader.cs:207-255 | an odd number of lines is rejected; otherwise each kept entry is the one read at its odd line number and points at a parameter record |
| IgesRecordFacts.ParseDirectoryLinesSucceeds | BCad.Iges/IgesFileReader.cs:209-241 | directory parsing succeeds if and only if the line count is even and every two-line entry reads |
| IgesRecordFacts.ParseDirectoryLinesComplete | BCad.Iges/IgesFileReader.cs:243-251 | when directory parsing succeeds, every entry read whose parameter pointer names a record is in the result |
| DxfLayers.GetOrCreateLayerCorrect | src/BCad.FileHandlers/FileHandlers/DxfFileHandler.cs:151-167 | on a valid table the name (null as "0") then maps to the returned layer and nothing else changes; a present name leaves the table as is, an absent one adds an uncolored layer and grows Count by one |
| DxfLayers.GetOrCreateLayerKeepsNames | src/BCad.FileHandlers/FileHandlers/DxfFileHandler.cs:155-166 | if every layer is stored under its own name, the returned layer has the requested name and the table keeps that invariant |
| DxfLayers.GetOrCreateLayerIdempotent | src/BCad.FileHandlers/FileHandlers/DxfFileHandler.cs:157-158 | asking again for the same name returns the same layer and the same table |
| DxfLayers.LoadLayersCorrect | src/BCad.FileHandlers/FileHandlers/DxfFileHandler.cs:25-28 | loading the file's layer table succeeds, keeps the tree valid with layers under their own names, and adds exactly the table's names |
| DxfLayers.LoadedLayerIsFound | src/BCad.FileHandlers/FileHandlers/DxfFileHandler.cs:25-33 | after loading, a request for any loaded name returns the last layer of that name in the table, as read, and leaves the table alone |
| DxfLayers.LoadLastWins | src/BCad.FileHandlers/FileHandlers/DxfFileHandler.cs:25-29 | after loading, every name in the table maps to the last layer of that name |
| DxfLayers.LoadSkipsName | src/BCad.FileHandlers/FileHandlers/DxfFileHandler.cs:25-29 | loading layers none of which has a given name leaves that name's lookup as it was |
| DxfUnits.ToDxfUnitFormat | src/BCad.FileHandlers/FileHandlers/DxfFileHandler.cs:469-498 | writing a unit format succeeds exactly for Architectural and Metric, and reading the written style gives the format back |
| DxfUnits.ToUnitFormat | src/BCad.FileHandlers/FileHandlers/DxfFileHandler.cs:482-498 | the four fractional styles read as Architectural, the three decimal ones as Metric, and anything else is "Unsupported unit format" |
| DxfUnits.DxfUnitFormatNormalises | src/BCad.FileHandlers/FileHandlers/DxfFileHandler.cs:469-498 | reading then writing a style normalises it to Architectural or Decimal, and the result is stable under a second round |

## Left out

- Persistence is not stated as a separate property. The model's nodes are immutable values, so no operation can change an older version. Sharing of untouched subtrees is not modelled.
- Key order: `TKey : IComparable` is modelled as `string` keys in ordinal order. .NET's culture-sensitive `string.CompareTo` is not modelled. The proofs use only its strict total order.
- `GetValue`, called by `GetOrCreateLayer`, is not part of this model. It is modelled as the value `TryFind` returns.
- TreeDelete.DeleteKeepsOrder: it states the facts that hold for every `Delete` when it succeeds. It does not claim that the two-children case succeeds on every balanced tree.
- Collections.Rebalance: its own ensures only says that the result is a node. What it does is stated by `TreeFacts.RebalanceKeeps` and `TreeFacts.RebalanceRestores`.
- Collections.Rebalance: the debug-build assertion that an out-of-range balance factor is exactly 2 or -2 is not modelled. The model follows the release build: -2 takes the right-heavy branch and every other factor outside -1..1 takes the left-heavy one.
- Stream reading: `StreamReader.ReadToEnd` is not modelled. `LoadSections` takes the file text as a parameter.
- `ParseGlobalLines`, `ParseDouble` and `ParseDateTime` are not modelled (the global section, doubles, and dates with `DateTime`).
- Entity creation: `IgesParameterData.ParseFields` and `IgesEntity.CreateEntity` are not modelled. The record grouping keeps every closed record, and directory filtering takes the set of parameter pointers as a parameter.
- `ParseDirectoryLines`' transformation-matrix dictionary and its list of created entities are not modelled. The kept directory entries stand in for the entities.
- IGES entity types, colors and enum values are plain integers. The enums' numeric values are not part of this model.
- `IgesFile.cs` is not part of this model. `MaxDataLength` is taken as 72, the data columns of the fixed IGES format.
- The "Unexpected duplicate terminate line" error is not modelled. The loop breaks at the first Terminate line, so that branch cannot be reached; `IgesFileFacts.StopsAtTerminate` states what happens instead.
- IgesReader.SectionTypeChar: the default branch, which throws for a value outside the enum, is not modelled, because `SectionType` has only the five named cases.
- `char.IsDigit` is modelled as ASCII '0'-'9'. `char.IsWhiteSpace` is modelled by its fixed list of Unicode white-space characters.
- Text is counted in characters. .NET strings are UTF-16 code units, so a character outside the Basic Multilingual Plane counts as two there. On such text the source's 80-column length check, its `Substring` offsets and its 8-column `GetField` columns fall elsewhere than the model's, which counts the character once.
- IgesReader.ClosesRecord: it tests the last character ordinally. The source's `EndsWith(string)` compares with the current culture, so a line whose record delimiter is followed by characters the culture ignores (a soft hyphen U+00AD, say) still closes a record there but not in the model.
- IgesReader.ScanDigits: because `char.IsDigit` is modelled as ASCII, a non-ASCII decimal digit (Unicode category Nd, such as an Arabic-Indic digit) gives `IgesException("Expected digit")` in the model. In the source `char.IsDigit` lets it through and `int.Parse` then throws `FormatException`.
- `int.Parse`: culture settings are not modelled, and neither is acceptance of trailing NUL characters. It reads an optional sign, decimal digits and surrounding white space within the 32-bit range.
- IgesReader.ParseString: its ensures is weak (it only says the index advances). Its behaviour is stated by the `IgesTextFacts.ParseString*` lemmas.
- IgesReader.ParseInt: same as ParseString. Its behaviour is stated by the `IgesTextFacts.ParseInt*` lemmas.
- IgesReader.DirectoryFrom takes the two-line entry reader as a parameter, while the source reads the fields inline. `ParseDirectoryLines` passes `ReadDirectoryEntry`.
- DXF layer contents: a layer's entities and the `ToColor` conversion of a DXF color are not modelled. A layer is a name and an optional color.
- DxfLayers.LoadLayers: layer names are non-null strings. The source inserts each table layer under its DXF name as is, and the `"0"` default applies only in `GetOrCreateLayer`. So a null name in the table, which would fail at `CompareTo` on a non-empty tree, is not modelled.

## Findings

| source | as written | input that shows it | evidently intended | confidence | as-written member | corrected member |
|---|---|---|---|---|---|---|
| BCad.Core/Collections/ReadOnlyTree.cs:164-168, 205-238 | The search loop breaks at the found node without pushing it, so the key-equality branch at line 220 never matches. The two-children rebuild therefore never puts the successor in the found node's place. The successor stays where it was, and the found node's right subtree, rebuilt along its left spine, replaces the found node. The found node's left subtree is lost. | Valid tree 1 <- 2 -> 3, delete "2": the result holds only "3" | the result holds {1, 3}, still a valid AVL tree | not executed | DeleteExamples.TwoChildrenDropsLeftSubtree | DeleteCorrection.DeleteCorrectedExact |
| BCad.Core/Collections/ReadOnlyTree.cs:176-191, 243-257 | In the leaf case the cloned parent is passed to BalanceAndReSpine as the current node, and only the popped ancestors are rebalanced. The parent itself is never rebalanced. | Valid tree 1 <- 2 -> (3 -> 4), delete "1": the root "2" has balance factor -2 | every node of the result has balance factor between -1 and 1 | not executed | DeleteExamples.LeafParentNotRebalanced | DeleteCorrection.DeleteCorrectedExact |
