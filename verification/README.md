# VredVRTools scene-graph algorithms in Dafny

`VredVRTools.py` is a plug-in for the VRED visualisation host. Most of it is
dialog code and thin calls into the host. Inside it sit a few tree and string
algorithms. They decide which scene nodes to collect, delete, move, rename or
re-material, and the decision rests on centres, bounding boxes, child counts
and names. This project models those algorithms over an immutable scene tree
and proves what they do.

| file | module | models |
|---|---|---|
| `wrappers.dfy` | `Wrappers` | `Option` and `Result` |
| `scene_tree.dfy` | `SceneTree` | the node datatype: name, kind (geometry or not), bounding-box centre, 6-float box, material, primitive count, children |
| `tree_walk.dfy` | `TreeWalk` | `findGeosRecursive`, plus an order-stable `Filter` shared by the other modules |
| `tessellation.dfy` | `Tessellation` | `compareBoundingBox`, the clean-up after tessellation, the quality presets |
| `duplicate_faces.dfy` | `DuplicateFaces` | `remove_face` as written, and the guard it evidently meant |
| `symmetry.dfy` | `Symmetry` | `remove_symmetry` |
| `naming.dfy` | `Naming` | `int()` / `str()` on counters, `split('_')[-1]`, `str.strip`, `GetNodeBasename` |
| `rename.dfy` | `Rename` | `Rename_default_Recursive`, `Rename_change_Recursive` |
| `material_match.dfy` | `MaterialMatch` | `Calpercent`, `cos_sim`, the distance and size tests, the matching loop of `materialsCore` |
| `material_table.dfy` | `MaterialTable` | the in-memory table built by `exportMaterialData` |

The host's mutations are pure functions here:

- Renaming returns the rewritten tree.
- `remove_face` and the tessellation clean-up return the node with its surviving children.
- `remove_symmetry` returns a plan: the children that stay, the children that move, and the new node's name and material.
- The matcher returns the material each new geometry leaf ends with.

Centres and boxes computed by the host are plain fields of the node.

Every geometry test in the source (`vrdGeometryNode(n).isValid()` and
`getType() == 'Geometry'`) is modelled by one test, `kind == Geometry`.
Geometry nodes may have children, because the source iterates the children of
geometry nodes.

Square roots are avoided. The matcher's tests are stated on squared lengths
(`MaterialMatch.Qualifies`). `MaterialMatch.QualifiesIffRootForm` proves this
form equivalent to the source's form. The source's form takes the roots as
inputs and is written `QualifiesWithRoots`.

Points where the model follows what the code does rather than what its
names, labels and comments suggest:

- `remove_symmetry` (line 193) and the `remove_face` caller (line 389) act on a node whose type is `'Geometry'`, even though they operate on its children.
- The comment at line 342 says pieces outside the original box are cleared. But a piece lying outside the grown box on all six sides is kept, because `compareBoundingBox` returns None there (lines 229-230).
- The primitive-count guard in `remove_face` never rejects a group. See Findings.

## Model

| member | source | states |
|---|---|---|
| TreeWalk.Collect | VredVRTools.py:118-135 | every collected node is a geometry node accepted by the predicate |
| TreeWalk.CollectCharacterization | VredVRTools.py:118-135 | the walk returns, in depth-first child order (strict lexicographic order of child-index paths), exactly the geometry nodes that pass the predicate and have no geometry ancestor; every such node is returned; so the walk never descends below a geometry node, even one the predicate rejects |
| TreeWalk.CollectNoNesting | VredVRTools.py:127-135 | no collected node lies inside another collected node: the child-index paths of any two collected nodes are not prefixes of one another |
| TreeWalk.CollectIsFilter | VredVRTools.py:128-135 | the predicate only filters: walking with a predicate equals walking without one and then keeping the accepted nodes in order |
| TreeWalk.FilterMembers | VredVRTools.py:202-205 | a node is kept by the order-stable filter exactly when it was present and passes the test |
| TreeWalk.FilterPartition | VredVRTools.py:202-205 | the nodes that pass a test and the nodes that fail it together form the original list, as a multiset |
| TreeWalk.FilterKeepsOrder | VredVRTools.py:202-205 | two kept nodes stay in their original relative order |
| Tessellation.CompareBoundingBox | VredVRTools.py:221-230 | the piece is deleted exactly when two of the six containment checks differ |
| Tessellation.CompareBoundingBoxCases | VredVRTools.py:221-230 | a piece is deleted iff it is neither inside the original box grown by the tolerance nor outside it on all six sides |
| Tessellation.UnchangedBoxKept | VredVRTools.py:221-230 | with a non-negative tolerance a piece whose box equals the original is kept |
| Tessellation.ProcessNodes | VredVRTools.py:312-316 | every node handed to tessellation is a geometry node |
| Tessellation.TrimTessellationKeepsExactly | VredVRTools.py:343-353 | after the clean-up a node keeps exactly those children that the comparison against its pre-tessellation box (tolerance 1) does not reject, and nothing but its children changes |
| Tessellation.SetQuality | VredVRTools.py:232-246 | each of the four labels loads its own chordal, normal and maximum-chord preset; any other text changes nothing; stitching and UV settings are never touched |
| Tessellation.DefaultSettings | VredVRTools.py:274-283 | the dialog starts on the medium preset, with stitching enabled at tolerance `0.10` and UVs not preserved |
| Tessellation.DefaultMatchesInitialEntry | VredVRTools.py:253-259 | choosing the entry the combo box starts on leaves the initial fields unchanged |
| Tessellation.SetQualityIdempotent | VredVRTools.py:232-246 | choosing the same quality twice is the same as choosing it once |
| Tessellation.PresetsDistinct | VredVRTools.py:232-241 | the four labels are distinct and select four distinct presets |
| DuplicateFaces.AsWrittenCountsUniform | VredVRTools.py:380-382 | as written, every child of the node is given the same primitive count, the count of the last child |
| DuplicateFaces.AsWrittenGuardPasses | VredVRTools.py:378-385 | as written, a child is deleted iff a later sibling has exactly the same centre |
| DuplicateFaces.GroupDeletions | VredVRTools.py:378-386 | one centre group deletes exactly the children with that centre that are not the group's last and whose group passes the count guard |
| DuplicateFaces.GroupDeletionsCorrect | VredVRTools.py:378-386 | dropping the last index of a uniform group deletes exactly the children that the deletion rule selects at that centre |
| DuplicateFaces.GroupNotDeleted | VredVRTools.py:379-383 | a group of one child, or one whose counts differ, deletes nothing |
| DuplicateFaces.DeletionSet | VredVRTools.py:375-386 | the loop over the distinct centres deletes exactly the children that the rule selects, whatever order the set yields the centres in |
| DuplicateFaces.KeptFromSpec | VredVRTools.py:384-386 | the surviving indices are exactly the undeleted ones, in increasing order |
| DuplicateFaces.LastOfGroupKept | VredVRTools.py:384 | the last child with any given centre is never deleted |
| DuplicateFaces.RemoveFace | VredVRTools.py:364-392 | a geometry node is processed and anything else is refused; only the child list changes, and it does not grow |
| DuplicateFaces.SurvivorsMembers | VredVRTools.py:384-386 | the survivors are exactly the children at positions the rule does not delete |
| DuplicateFaces.SurvivorsKeepOrder | VredVRTools.py:384-386 | two surviving children keep their original relative order |
| DuplicateFaces.RemoveFaceSurvivors | VredVRTools.py:368-386 | as written, a node is a survivor iff it is a child that no later sibling shares a centre with; everything but the child list is unchanged |
| DuplicateFaces.RemoveFaceKeepsOrder | VredVRTools.py:368-386 | as written, the survivors keep their original relative order |
| DuplicateFaces.RemoveFaceLeavesDistinctCentres | VredVRTools.py:375-386 | as written, the surviving children have pairwise distinct centres |
| DuplicateFaces.RemoveFaceKeepsEveryCentre | VredVRTools.py:375-386 | every centre present before the removal is still present after it |
| DuplicateFaces.RemoveFaceKeepsUnique | VredVRTools.py:378-379 | a child that no later sibling shares a centre with survives |
| DuplicateFaces.RemoveFaceIdempotent | VredVRTools.py:364-386 | a second run deletes nothing |
| DuplicateFaces.GuardCounterexample | VredVRTools.py:380-383 | two faces at one centre with counts 10 and 12: as written the first is deleted, with each face's own count it is kept |
| DuplicateFaces.RemoveFaceIntended | VredVRTools.py:380-383 | the corrected operation refuses non-geometry nodes; only the child list changes, and it does not grow |
| DuplicateFaces.RemoveFaceIntendedSurvivors | VredVRTools.py:380-386 | with the corrected guard, a node is a survivor iff it is a child the own-count rule does not delete; everything but the child list is unchanged |
| DuplicateFaces.RemoveFaceIntendedKeepsOrder | VredVRTools.py:380-386 | with the corrected guard, the survivors keep their original relative order |
| DuplicateFaces.IntendedGuard | VredVRTools.py:380-383 | with each child's own count, a group with mixed counts is left whole and a uniform group is treated exactly as the code treats it |
| DuplicateFaces.RemoveFaceIntendedAgrees | VredVRTools.py:380-383 | when children at one centre always report one count, the corrected and as-written operations give the same result |
| DuplicateFaces.RemoveFaceIntendedKeepsMixedGroup | VredVRTools.py:380-383 | with the corrected guard, a face whose centre is shared by faces of different counts survives |
| Symmetry.SplitSymmetry | VredVRTools.py:193-208 | a plan exists iff the node is geometry with centre y exactly 0; the new node is named `<name>_symmetry` and gets the node's material |
| Symmetry.SplitSymmetrySides | VredVRTools.py:202-205 | every moved child has centre y < 0, and every kept child has centre y ≥ 0 |
| Symmetry.SplitSymmetryPartitions | VredVRTools.py:202-205 | the kept and moved children together are the original children as a multiset: none is lost or duplicated |
| Symmetry.SplitSymmetryMembers | VredVRTools.py:202-205 | a child moves iff its centre y is below 0 and stays otherwise |
| Symmetry.SplitOrderStable | VredVRTools.py:202-205 | two children that end up on the same side keep their relative order |
| Naming.ParseIntRejectsNonNumeral | VredVRTools.py:999-1001 | a segment holding a character that is neither a digit nor a leading sign makes `int()` fail |
| Naming.IntToStringRoundTrip | VredVRTools.py:1007 | parsing `str(i)` gives back `i` |
| Naming.IntToStringInjective | VredVRTools.py:1019 | distinct integers print differently |
| Naming.IntToStringHasNoUnderscore | VredVRTools.py:1019 | a printed integer is non-empty and contains no `_`, so it is the last segment of `base_k` |
| Naming.LastSegmentIsSuffix | VredVRTools.py:999 | `split('_')[-1]` is the longest `_`-free suffix of the name |
| Naming.LastSegmentAfterUnderscore | VredVRTools.py:999 | the last segment of `stem_tail` is `tail` when `tail` has no `_` |
| Naming.StripLeftSpec | VredVRTools.py:1007 | left strip removes the longest prefix made of set characters and no more |
| Naming.StripRightSpec | VredVRTools.py:1007 | right strip removes the longest suffix made of set characters and no more |
| Naming.StripIsStrippedSlice | VredVRTools.py:1007 | `strip` keeps the slice between the outermost characters outside the set |
| Naming.ContainsIffOccurs | VredVRTools.py:1083 | the substring test holds iff the substring occurs at some position |
| Naming.BasenameCases | VredVRTools.py:996-1009 | the name is unchanged when its last segment is no integer or exceeds 10000000; otherwise the characters of `'_' + str(idx)` are stripped from both ends |
| Naming.BasenameKeepsWordSuffix | VredVRTools.py:998-1001 | a name whose last `_`-segment is a word (it holds a non-digit that is not a leading sign) is its own base name |
| Naming.CounterReadsBack | VredVRTools.py:998 | for every stem and integer n, `int(('stem_' + str(n)).split('_')[-1])` gives back n: a counter written after the last underscore is the one read back |
| Naming.BasenameKeepsLargeNumber | VredVRTools.py:1003-1004 | a name ending in `_n` with n above 10000000 is its own base name |
| Naming.BasenameOfCounterName | VredVRTools.py:1007 | the base name of `stem_n` is `stem` stripped of the characters of `_n`, so it is a character-set strip and not a suffix removal |
| Naming.BasenameRemovesCounter | VredVRTools.py:1007 | when the stem neither starts nor ends with a character of `_n`, the base name of `stem_n` is `stem` |
| Naming.BasenameOfNumber | VredVRTools.py:1007 | a name that is only a counter has the empty base name |
| Naming.BasenameCutsCounterCharsFromStem | VredVRTools.py:1007 | a stem ending in a character of `_n` loses that character too |
| Rename.SuffixedInjective | VredVRTools.py:1019 | `base_a` and `base_b` coincide only when `a == b` |
| Rename.RenameDefaultKeepsShape | VredVRTools.py:1011-1056 | renaming changes names only: kinds, centres, boxes, materials, counts and child lists are unchanged at every depth |
| Rename.RenameDefaultRecordsCount | VredVRTools.py:1016-1021 | a node with k ≥ 1 geometry children gets a name whose last `_`-segment reads back through `int()` as k; a node without geometry children keeps its name |
| Rename.RenameDefaultChild | VredVRTools.py:1018-1031 | the j-th geometry child (counting from 0) becomes `base_j` with j below the geometry count, and every other child is renamed recursively |
| Rename.RenameDefaultChildrenDistinct | VredVRTools.py:1018-1019 | two geometry children of one node get different names |
| Rename.RenameDefaultChildDiffersFromParent | VredVRTools.py:1018-1021 | no geometry child gets its parent's new name |
| Rename.RenameDefaultUsesAllCounters | VredVRTools.py:1018-1021 | every counter 0 … k-1 is given to some geometry child |
| Rename.RenameDefaultOfCounterName | VredVRTools.py:1013-1021 | for a node named `stem_m` with a clean stem, the node becomes `stem_k` and the j-th geometry child `stem_j` |
| Rename.RenameChangeKeepsShape | VredVRTools.py:1058-1092 | change-mode renaming changes names only, at every depth |
| Rename.ChangePlanAt | VredVRTools.py:1081-1085 | a child needing a name gets the seed counter plus the number of earlier children that were renamed; the others get none |
| Rename.ChangePlanFinal | VredVRTools.py:1081-1085 | after the loop the counter equals the seed plus the number of renamed children |
| Rename.RenameChangeNodeName | VredVRTools.py:1071-1088 | a node with geometry children becomes `base_(i0 + renamed)`, where i0 is its trailing integer (0 if none, no cap); otherwise it keeps its name |
| Rename.RenameChangeChild | VredVRTools.py:1081-1092 | a geometry child whose name contains the base is untouched; one whose name does not is named with the next counter; other children are renamed recursively |
| Rename.ChangePlanIncreasing | VredVRTools.py:1081-1085 | counters are handed out in strictly increasing child order |
| Rename.RenameChangeRecordsCounter | VredVRTools.py:1073-1088 | the node's new last segment reads back as the final counter, which is above the counter of every renamed child, so a later run seeded from it hands out no counter twice |
| Rename.RenameChangeDistinct | VredVRTools.py:1081-1088 | renamed children get pairwise distinct names, all different from the node's new name |
| MaterialMatch.CalpercentRange | VredVRTools.py:1275-1288 | the ratio is 1 exactly when the inputs are equal (0 and 0 included), and lies in [0, 1] for non-negative inputs |
| MaterialMatch.CalpercentSymmetric | VredVRTools.py:1275-1288 | the ratio does not depend on argument order |
| MaterialMatch.CalpercentOfSquares | VredVRTools.py:1275-1288 | the ratio of squares is the square of the ratio, so the size test can be stated on squared lengths |
| MaterialMatch.DistanceCondition | VredVRTools.py:1227-1235 | for the true root, `dist <= t` iff t ≥ 0 and the squared distance is at most t² |
| MaterialMatch.SizeCondition | VredVRTools.py:1341 | `Calpercent` of the two lengths × 100 ≥ the size threshold iff the same test holds on squared lengths with squared thresholds |
| MaterialMatch.CosCondition | VredVRTools.py:1258-1271 | `cos_sim` ≥ 0.8 iff neither diagonal is zero, the dot product is non-negative, and its square is at least 0.64 times the product of the squared lengths |
| MaterialMatch.QualifiesIffRootForm | VredVRTools.py:1339-1355 | the four-condition test on squares agrees with the source's test on roots |
| MaterialMatch.IdenticalLeafQualifies | VredVRTools.py:1339-1355 | an old leaf at the same place with the same non-zero diagonal and child count always matches, for any non-negative distance threshold and any size threshold up to 100 |
| MaterialMatch.DiagonalDictLast | VredVRTools.py:1303-1307 | the centre-to-diagonal dictionary holds, for each centre, the diagonal of the last old leaf with that centre |
| MaterialMatch.OldCandidates | VredVRTools.py:1333-1337 | the matcher sees one candidate per old leaf, in order, at that leaf's centre |
| MaterialMatch.OldCandidatesMixLeaves | VredVRTools.py:1303-1307 | where old leaves share a centre, each candidate carries the first leaf's material and child count but the last leaf's diagonal |
| MaterialMatch.LastMatch | VredVRTools.py:1333-1356 | the reference selection: the last candidate that matches, or none |
| MaterialMatch.PickMaterialIsLastMatch | VredVRTools.py:1333-1356 | the loop with no early exit ends on the material of the last matching candidate, or on the starting material when none matches |
| MaterialMatch.LeafMaterialOrigin | VredVRTools.py:1316-1356 | a leaf ends with the check material or with some old leaf's material |
| MaterialMatch.MatchMaterials | VredVRTools.py:1312-1329 | one material per geometry leaf under the new node |
| MaterialMatch.MatchMaterialsOrigin | VredVRTools.py:1294-1356 | every new leaf ends with the check material or with the material of a geometry leaf under the old node |
| MaterialMatch.UnmatchedLeafKeepsCheckMat | VredVRTools.py:1323-1356 | a new leaf that no old candidate matches keeps the check material |
| MaterialMatch.MatchedLeafTakesLastMaterial | VredVRTools.py:1333-1356 | a new leaf takes the material of the last matching candidate |
| MaterialTable.KeepChars | VredVRTools.py:925 | the filtered name holds exactly the name's whitelisted characters: CJK ideographs, CJK compatibility ideographs, ASCII letters and `_` |
| MaterialTable.KeepCharsFixedPoints | VredVRTools.py:925 | filtering changes nothing exactly when every character is whitelisted |
| MaterialTable.KeepCharsIdempotent | VredVRTools.py:925 | filtering twice is filtering once |
| MaterialTable.DedupIsOrderedDedup | VredVRTools.py:926-927 | the dedup keeps each distinct value once, at the position of its first occurrence |
| MaterialTable.ContainsModeSearchStrings | VredVRTools.py:924-927 | in mode 0 the search strings are the filtered names, deduplicated in first-occurrence order |
| MaterialTable.ZipColumns | VredVRTools.py:962-965 | building the columns succeeds iff every reference row has at least four cells; otherwise it fails with an index error |
| MaterialTable.ZipColumnsLast | VredVRTools.py:962-965 | a key is in the dictionary iff some row's second cell is that key, and it maps to the fourth cell of the last such row |
| MaterialTable.ReplacementMap | VredVRTools.py:965-966 | the header key `SearchString` is never in the result |
| MaterialTable.ReplacementMapCases | VredVRTools.py:957-966 | the dictionary is built iff all rows are long enough and one row carries the header key; other keys map to the last row's fourth cell |
| MaterialTable.BuildTable | VredVRTools.py:929-955 | one row per search string, with row name equal to the search string and the mode's match label |
| MaterialTable.BuildTableReplacementFromRows | VredVRTools.py:957-969 | with a reference file, the export succeeds iff every row has four cells and one row names the header; row i then gets the fourth cell of the last reference row whose second cell is its search string, and nothing if there is none or the search string is the header key |
| MaterialTable.NoReferenceNoReplacement | VredVRTools.py:914 | without a reference file the table is always built and no row has a replacement |

## Findings

| source | as written | input that shows it | evidently intended | confidence | as-written member | corrected member |
|---|---|---|---|---|---|---|
| VredVRTools.py:380-383 | the count guard reads `node`, which the loop at line 370 has rebound to the last child, so every entry of `PCounts` is the same value and the guard always passes | two faces at one centre with primitive counts 10 and 12: the first is deleted | compare each grouped child's own primitive count, and delete only when the group's counts agree | not executed | DuplicateFaces.GuardCounterexample | DuplicateFaces.RemoveFaceIntendedKeepsMixedGroup |

`DuplicateFaces.RemoveFace` models the code as written.
`DuplicateFaces.RemoveFaceIntended` is the corrected operation:

- `DuplicateFaces.IntendedGuard` relates it to the code per child.
- `DuplicateFaces.RemoveFaceIntendedAgrees` shows the two coincide when the counts agree within each group.

## Left out

- Dialogs, buttons, layouts, message boxes, progress bars and undo bracketing: user interface with no decision logic.
- The other tools of the plug-in are thin host calls or depend on host behaviour that cannot be seen: geometry merging, normal unification, environment and texture clean-up, VR controller mapping, Datasmith export.
- The tessellation call, and the host's computation of boxes and centres: these are host calls. Boxes and centres are node fields, and the tessellated node is an input (`after`) to `Tessellation.TrimTessellation`.
- Reading the reference CSV and writing the export CSV (file I/O and encoding): the reference file is modelled as its rows, and the export as the rows it would write.
- Selection: the selected nodes are a parameter. `remove_face` acts on the one selected node, `remove_symmetry` on each selected node separately.
- Symmetry.SplitSymmetry: returns a plan (kept children, moved children, new name, new material). It does not model the new `Shell` node's kind, box or position in the parent, nor the final re-selection.
- Tessellation.TrimTessellation: `process_nodes.index(node)` is taken as the node's own position. If a node is selected twice, both entries carry the same pre-tessellation box, so the lookup finds the same box. Trimming it a second time is not modelled.
- MaterialMatch.Qualifies: exact real arithmetic on squared lengths replaces IEEE floating point and `pow(..., 0.5)`. Rounding effects are not modelled.
- MaterialMatch.MatchMaterials: the old and new subtrees are assumed disjoint. The source first gives every new leaf the check material (lines 1323-1324) and then reads old materials live (line 1356), so an old leaf that is also a new leaf would hand over the check material. The model reads the old materials as they were before the check pass.
- MaterialMatch.MatchedLeafTakesLastMaterial: holds under the same assumption of disjoint old and new subtrees; when they overlap, the material handed over may be the check material.
- MaterialMatch.OldCandidates: the dictionary keyed by centre assumes that host vectors hash and compare by value. `oldgeonodes[...]` and `oldVectors.index` are modelled by position.
- Rename.RenameDefault: `geos.index(childgeo)` is taken as the child's position among the geometry children, assuming the host hands out distinct child handles.
- Naming.ParseInt: `int()` is modelled as an optional sign followed by ASCII digits. Surrounding whitespace and non-ASCII digits, which Python also accepts, are not modelled.
- Centres: the source asks for world-space centres in `remove_symmetry` and `remove_face` and local ones in `materialsCore`. The model takes the centre field as given in both.
- MaterialTable.SearchStrings: a matching mode other than 0 or 1 gives an empty table, as in the code. The mode is a plain integer.
