# A verified model of the JSON engine, the circular list and the OTA loop

This project models the bundled cJSON library (parser, printer, tree, JSON Pointer, JSON Patch and JSON
Merge Patch), the intrusive list of `include/lite-list.h` and the download loop of the OTA sample, and
proves what they promise. `dafny verify dfyconfig.toml` checks all of it.

Trees are values (`Json`), and `Meaning` is what is left of a tree when the order of object members is
forgotten. Each routine has a specification on values or sequences; the code that works by updating
buffers, links or a context is written as methods with loops that are proved to compute it: the parse
buffer, the print buffer, the two string passes, minification, the child list, `sort_list`, the circular
list, patch generation and application, and the OTA process.

| files | contents |
|---|---|
| `CString`, `Sequences`, `Json` | C strings and their order, sequences, trees, lookup, meaning |
| `Sorting`, `SortTies`, `SortList`, `Comparison`, `RepeatedKeys`, `SortEffects` | merge sort on sequences and on linked nodes, the two comparisons |
| `Pointer`, `PointerLaws`, `PointerDecode` | JSON Pointer: encoding, search, resolution, decoding |
| `Patch`, `PatchDescent`, `PatchRoundTrip`, `PatchLaws`, `PatchRules`, `PatchTransfers`, `CreatedEdits`, `CreateEffects`, `PatchLoops`, `PatchApply` | JSON Patch |
| `MergePatch`, `MergeOrder`, `MergeGenerate`, `MergeLoops` | JSON Merge Patch |
| `Unicode`, `UnescapePass`, `JsonText`, `ParsePrint` | escapes, the text of a tree, parse after print |
| `Grammar`, `GrammarParts`, `GrammarParses` | the grammar of what the parser accepts |
| `PrintLayout`, `PrintShortest` | the layout of formatted output, the length of unformatted output |
| `Allocation`, `ParseBuffer`, `PrintBuffer` | the parser and printer on their buffers, with a ledger of blocks |
| `Minify`, `MinifyPieces`, `MinifyLaws`, `MinifyExactly` | minification in place |
| `ChildList`, `LiteList` | the two linked lists |
| `Ota`, `OtaLaws` | the download loop |

## What the code does differently from what one would expect

- `detach_path` ignores case even in the case-sensitive calls, so a patch can remove the wrong member
  (`PatchLaws.RoundTripNeedsFoldedKeys`) or one where there is none to remove (`PatchLaws.AbsentKeyRemovesVariant`);
  `PatchLaws.DetachIgnoresCase` gives the exact condition.
- `decode_pointer_inplace` writes a decoded slash one place too far and does not move the characters after an
  escape (`PointerDecode.DecodeLosesEscapes`); `PointerDecode.DecodeUndoesEncode` gives the exact condition.
- `decode_array_index_from_pointer` takes letters after a first digit for digits, an empty token for 0, and
  wraps around at 2^64 (`Pointer.DecodeIndexAcceptsLetters`, `Pointer.DecodeIndexWraps`);
  `Pointer.DecodeIndexReadsToken` gives the exact condition.
- `sort_list` does not restore the link from the first node to the last; appending afterwards can lose the item
  or cut off members; `SortList.AppendAfterSort` gives the exact condition and what is lost.
- With repeated keys the two comparisons can disagree (`Comparison.ComparisonsDisagreeOnRepeatedKeys`);
  `RepeatedKeys.AgreementExactly` gives the exact condition.
- A merge patch cannot set a member to null; `MergeGenerate.MergePatchRoundTrip` gives the exact condition.
- The generator of merge patches sorts members ignoring case and merges them by plain keys: a member can be lost
  where the two orders differ (`MergeLoops.MixedCaseLosesMember`); its theorems are about trees where they agree
  (`MergeGenerate.Ordered`).
- `minify_string` takes any backslash before a quote for an escape (`MinifyExactly.BackslashEndKeepsBlanks`);
  `MinifyExactly.MinifyPrintExactly` gives the exact condition.
- A move or copy to the root fails, and a value moved there is lost (`PatchTransfers.TransferToRootFails`).
- A string literal is read twice, and a malformed `\u` escape can make the two passes see different escapes, or
  stand for NUL, which ends the string (`Grammar.Piece`).
- A replacement or move that fails halfway has already lost an item (`PatchRules.FailureLeaves`).
- A download that is refused is tried again if exactly one chunk has just been fetched (`Ota.RefusalIgnored`);
  `Ota.RefusalIsFinal` gives the exact condition.

## Model

| member | source | states |
|---|---|---|
| `PatchRoundTrip.PatchesRoundTrip` | external_libs/cJSON/cJSON_Utils.c:1141-1301 | applying the generated patches in order to a copy of `from` returns status 0 and yields `to` up to member order, for all trees whose keys survive `detach_path` and `decode_pointer_inplace` |
| `PatchRoundTrip.PatchRun` | external_libs/cJSON/cJSON_Utils.c:1141-1279 | the same for the edits of `create_patches`, at every level of nesting |
| `PatchRoundTrip.ArrayRun` | external_libs/cJSON/cJSON_Utils.c:1170-1213 | the edits of the three array loops, applied to an array whose first elements are done, turn the rest into the wanted elements |
| `PatchRoundTrip.ObjectRun` | external_libs/cJSON/cJSON_Utils.c:1215-1274 | the edits of the member merge turn the meaning of the object into the wanted one, whatever order its members are in by then |
| `PatchDescent.EditsDescend` | external_libs/cJSON/cJSON_Utils.c:301-346 | edits whose paths go through a child act on that child alone, with the status they have there |
| `PatchDescent.PatchesUnder` | external_libs/cJSON/cJSON_Utils.c:1141-1279 | the edits generated for a path are those for the empty path with the path put in front |
| `PatchDescent.PatchesBelow` | external_libs/cJSON/cJSON_Utils.c:1141-1279 | a tree that differs only inside gets edits below its root, never of the root itself |
| `Patch.ComposedPatchReadsBack` | external_libs/cJSON/cJSON_Utils.c:1096-1134 | a patch object made by `compose_patch` is decoded and applied as the edit it was made from, in either mode |
| `Patch.ApplyComposed` | external_libs/cJSON/cJSON_Utils.c:1038-1094 | applying an array of composed patches is applying the edits one after the other up to the first failure |
| `Patch.KeyDiffOrders` | external_libs/cJSON/cJSON_Utils.c:1227-1239 | the difference is negative, positive or zero as the first key of `from` is smaller, larger or equal; an exhausted list comes after every key |
| `PatchLaws.NoPatchesIffSortedEqual` | external_libs/cJSON/cJSON_Utils.c:1141-1279 | no patches are generated exactly for trees that `compare_json` calls equal |
| `PatchLaws.NoPatchesIffEqual` | external_libs/cJSON/cJSON_Utils.c:1281-1309 | with distinct keys, the generated array is empty exactly for trees that are equal up to member order |
| `PatchLaws.DetachIgnoresCase` | external_libs/cJSON/cJSON_Utils.c:464-467 | a case-sensitive removal does what was asked, which is nothing if the key is absent, if and only if no member before the one with the key, or no member at all, has a key that differs from it in case alone |
| `PatchLaws.AbsentKeyRemovesVariant` | external_libs/cJSON/cJSON_Utils.c:464-467 | removing a key that is absent removes one that differs in case |
| `PatchLaws.RoundTripNeedsFoldedKeys` | external_libs/cJSON/cJSON_Utils.c:464-467 | keys `A` and `a` side by side: the generated patch removes the wrong member and the result is not the tree asked for |
| `PatchLoops.PatchArray.Create` | external_libs/cJSON/cJSON_Utils.c:1141-1279 | `create_patches` appends exactly the edits of the specification to the patch array and leaves both trees sorted as the specification says |
| `CreateEffects.AfterKeepsMeaning` | external_libs/cJSON/cJSON_Utils.c:1215-1220 | generating patches sorts both trees in place but changes the meaning of neither |
| `CreatedEdits.CreatedExactly` | external_libs/cJSON/cJSON_Utils.c:1141-1279 | on distinct keys an edit is generated if and only if it settles a difference: it replaces a scalar or a node of another type, adds or removes a key that one object lacks, or an element at the end of the longer array, at any depth |
| `PatchTransfers.MoveIsRemoveThenAdd` | external_libs/cJSON/cJSON_Utils.c:904-959 | if `from` names the node at place `at + [i]`, a move does what removing that node and adding its value do, as section 4.4 of RFC 6902 has it: the value added is that of the node, the document is without it |
| `PatchTransfers.MoveNeedsNode` | external_libs/cJSON/cJSON_Utils.c:914-928 | if `from` names no node, a move has status 5 and a removal 13, and nothing changes |
| `PatchTransfers.MoveElement` | external_libs/cJSON/cJSON_Utils.c:914-917 | from an array, for the index n, the element n is moved and the others stay in order |
| `PatchTransfers.MoveMember` | external_libs/cJSON/cJSON_Utils.c:464-467 | from an object the value of the first member is moved whose key is equal ignoring case |
| `PatchRules.DetachRemoves` | external_libs/cJSON/cJSON_Utils.c:453-473 | a removal takes out the one child that is named, an element by its index or the first member whose key is equal ignoring case, and fails if there is none |
| `PatchRules.DetachPathRemoves` | external_libs/cJSON/cJSON_Utils.c:430-482 | `detach_path` takes out the node that the path names, and only that; it fails exactly if there is none |
| `PatchRules.PutElsewhere` | external_libs/cJSON/cJSON_Utils.c:807-1035 | changing the parent of a place leaves every place that is not below it alone |
| `PatchRules.AddToArray` | external_libs/cJSON/cJSON_Utils.c:981-1004 | `-` appends, an index up to the length inserts in front of that element, a larger one has status 10, anything else 11, and then the array is as it was |
| `PatchRules.AddToOther` | external_libs/cJSON/cJSON_Utils.c:1005-1024 | in an object the first member with the key goes and the new one comes last; in a scalar nothing changes and the status is 9 |
| `PatchRules.AddedElementFound` | external_libs/cJSON/cJSON_Utils.c:959-1004 | after an addition to an array the path leads to the value |
| `PatchRules.AddedMemberFound` | external_libs/cJSON/cJSON_Utils.c:959-1017 | after an addition to an object with distinct keys the path leads to the value |
| `PatchRules.OpNames` | external_libs/cJSON/cJSON_Utils.c:742-781 | the six names of section 4 of RFC 6902 are read as their operations, and nothing else is |
| `PatchRules.OpRules` | external_libs/cJSON/cJSON_Utils.c:882-1024 | below the root: what each of the five operations that change the document makes of it |
| `PatchRules.RootRules` | external_libs/cJSON/cJSON_Utils.c:838-880 | the root is written by an addition or replacement and invalid after a removal; without a value the status is 7 |
| `PatchRules.StatusMeans` | external_libs/cJSON/cJSON_Utils.c:818-957 | when exactly the status is 2, 3, 4, 5, 7 or 13, and that only a test answers 1 |
| `PatchRules.AddStatusMeans` | external_libs/cJSON/cJSON_Utils.c:976-1024 | when exactly it is 9, 10 or 11 |
| `PatchRules.FailureLeaves` | external_libs/cJSON/cJSON_Utils.c:807-1035 | a patch that fails leaves the document as it was, but for a replacement, which has lost the item at `path`, and a move, which has lost the one at `from` |
| `PatchRules.ApplyInOrder` | external_libs/cJSON/cJSON_Utils.c:1038-1094 | applying two arrays of patches one after the other is applying them as one, unless the first fails: then the second is not looked at |
| `PatchRules.ApplyOnePatch` | external_libs/cJSON/cJSON_Utils.c:1038-1094 | an array of one patch does what the patch does, and an empty one nothing |
| `PatchTransfers.CopyIsAdd` | external_libs/cJSON/cJSON_Utils.c:904-959 | a copy does what adding the value at the source does |
| `PatchTransfers.TransferToRootFails` | external_libs/cJSON/cJSON_Utils.c:959-980 | nothing can be moved or copied to the root, and a value moved there is gone |
| `PatchTransfers.TestDecides` | external_libs/cJSON/cJSON_Utils.c:831-836 | on distinct keys a test succeeds exactly if the path leads to an item equal to the value up to member order, and the document keeps its meaning |
| `PatchLoops.PatchArray.CreateForArray` | external_libs/cJSON/cJSON_Utils.c:1170-1213 | the array loops append the edits for common, surplus and new elements |
| `PatchLoops.PatchArray.CreateForBoth` | external_libs/cJSON/cJSON_Utils.c:1177-1190 | the first loop stops at the end of the shorter array and has made the edits of all pairs before it |
| `PatchLoops.PatchArray.RemoveRest` | external_libs/cJSON/cJSON_Utils.c:1192-1205 | the second loop makes one removal, always at the same index, for each surplus element |
| `PatchLoops.PatchArray.AddRest` | external_libs/cJSON/cJSON_Utils.c:1206-1210 | the third loop makes one addition at the end for each new element |
| `PatchLoops.PatchArray.CreateForObject` | external_libs/cJSON/cJSON_Utils.c:1215-1274 | the merge loop over the sorted members appends the edits of the specification |
| `PatchLoops.PatchArray.ObjectRound` | external_libs/cJSON/cJSON_Utils.c:1225-1272 | one round handles the smaller key, or both if they are equal, and leaves the rest of the goal unchanged |
| `PatchApply.Target.ApplyOne` | external_libs/cJSON/cJSON_Utils.c:807-1035 | `apply_patch`, branch by branch and for all six operations, gives the document and status of the specification, also when it stops halfway |
| `PatchApply.Target.Apply` | external_libs/cJSON/cJSON_Utils.c:1038-1094 | the patches are applied in order and the first failing status is returned with the document as it is then |
| `PatchApply.DiffAndPatch` | external_libs/cJSON/cJSON_Utils.c:1141-1309 | the loops run one after the other: status 0 and the meaning of `to` |
| `Patch.LastSlash` | external_libs/cJSON/cJSON_Utils.c:960-971 | the split of a path into parent and child is at its last slash |
| `Comparison.SortedEqualIsMeaning` | external_libs/cJSON/cJSON_Utils.c:604-690 | on distinct keys, sort-then-walk comparison decides equality up to member order at every level |
| `Comparison.LookupEqualIsMeaning` | external_libs/cJSON/cJSON.c:2977-3100 | on distinct keys, comparison by lookup decides equality up to member order at every level |
| `Comparison.ComparisonsAgree` | external_libs/cJSON/cJSON_Utils.c:604-690 | on distinct keys the two comparisons always agree |
| `Comparison.ComparisonIsEquivalence` | external_libs/cJSON/cJSON.c:2977-3100 | on distinct keys both comparisons are reflexive, symmetric and transitive |
| `Comparison.ComparisonsDisagreeOnRepeatedKeys` | external_libs/cJSON/cJSON_Utils.c:604-690 | with a repeated key the two comparisons can give different answers |
| `RepeatedKeys.LookupEqualExactly` | external_libs/cJSON/cJSON.c:3008-3095 | on any two separate trees, comparison by lookup is true exactly if they have the same meaning and in both members with the same key mean the same |
| `RepeatedKeys.LookupIsPartialEquivalence` | external_libs/cJSON/cJSON.c:2977-3100 | on all trees it is symmetric and transitive and every item equals itself; a separate copy equals the original exactly where repeats mean the same |
| `RepeatedKeys.SortedEqualDistinct` | external_libs/cJSON/cJSON_Utils.c:604-690 | a tree that `compare_json` finds equal to one with distinct keys has distinct keys |
| `RepeatedKeys.OnceDistinct` | external_libs/cJSON/cJSON.c:1876-1906 | dropping all but the first member of each key leaves distinct keys and the same meaning |
| `RepeatedKeys.DistinctIsWeakest` | external_libs/cJSON/cJSON_Utils.c:604-690 | a tree has distinct keys if and only if its repeats mean the same and the two comparisons agree on it and every separate tree with distinct keys |
| `RepeatedKeys.AgreementExactly` | external_libs/cJSON/cJSON_Utils.c:604-690 | the comparisons agree on a tree and every separate tree with distinct keys if and only if it has distinct keys or has repeats that do not mean the same |
| `RepeatedKeys.IncoherentEqualsNone` | external_libs/cJSON/cJSON_Utils.c:604-690 | a tree whose repeats do not mean the same equals no separate tree with distinct keys, by either comparison |
| `Comparison.CompareDoubleExact` | external_libs/cJSON/cJSON.c:538-542 | the relative tolerance never confuses two integers of at most fifteen digits |
| `PatchLoops.CompareJson` | external_libs/cJSON/cJSON_Utils.c:604-690 | the recursive walk answers as the specification does and leaves both trees as the specification says |
| `SortEffects.EffectAnswers` | external_libs/cJSON/cJSON_Utils.c:604-690 | sorting on the way does not change the answer |
| `SortEffects.EffectKeepsMeaning` | external_libs/cJSON/cJSON_Utils.c:655-657 | with distinct keys comparing sorts both trees but changes the meaning of neither |
| `PatchLoops.CompareItems` | external_libs/cJSON/cJSON_Utils.c:635-653 | the array walk is true exactly when both arrays end together and agree pairwise |
| `PatchLoops.CompareMembers` | external_libs/cJSON/cJSON_Utils.c:655-682 | the member walk is true exactly when both lists end together with equal keys and values |
| `PatchLoops.CompareAny` | external_libs/cJSON/cJSON.c:2977-3100 | `cJSON_Compare` answers true for one and the same item and as the specification does for two |
| `PatchLoops.CompareByLookup` | external_libs/cJSON/cJSON.c:3008-3100 | on two separate items `cJSON_Compare` answers as the specification does |
| `PatchLoops.CompareElements` | external_libs/cJSON/cJSON.c:3035-3057 | the element walk is true exactly when both arrays end together and agree pairwise |
| `PatchLoops.LookUpAll` | external_libs/cJSON/cJSON.c:3059-3095 | one of the two loops: every member is found in the other object with an equal value |
| `Sorting.SortCorrect` | external_libs/cJSON/cJSON_Utils.c:484-593 | the merge sort returns a permutation in key order |
| `Sorting.SortMembersCorrect` | external_libs/cJSON/cJSON_Utils.c:595-602 | sorting members with distinct keys gives strictly increasing keys, the same members and the same meaning |
| `Sorting.PermutedMeaning` | external_libs/cJSON/cJSON_Utils.c:595-602 | permuting members with distinct keys does not change what the object means |
| `SortTies.EqualKeysReversed` | external_libs/cJSON/cJSON_Utils.c:531-592 | elements with equal keys come out in reverse order |
| `SortTies.SortExactly` | external_libs/cJSON/cJSON_Utils.c:484-593 | the result is the one list in key order with the elements of each key reversed |
| `SortList.SortNodes` | external_libs/cJSON/cJSON_Utils.c:484-593 | on the heap: the result chain is the sort of the node sequence, inner links are right in both directions, no other node changes, and the first `prev` link is kept or null |
| `SortList.IsAscending` | external_libs/cJSON/cJSON_Utils.c:498-507 | the early exit is taken exactly for a strictly ascending list |
| `SortList.FindMiddle` | external_libs/cJSON/cJSON_Utils.c:509-521 | the slow pointer ends at the middle, rounded up |
| `SortList.Cut` | external_libs/cJSON/cJSON_Utils.c:522-527 | cutting gives two proper lists with nothing in common |
| `SortList.SortBoth` | external_libs/cJSON/cJSON_Utils.c:529-531 | sorting one half does not disturb the other |
| `SortList.Merge` | external_libs/cJSON/cJSON_Utils.c:531-592 | relinking merges two sorted chains into the merge of their sequences |
| `SortList.MergeOne` | external_libs/cJSON/cJSON_Utils.c:535-569 | one round moves the smaller first node, the second list's on a tie, to the end of the result |
| `SortList.Take` | external_libs/cJSON/cJSON_Utils.c:547-559 | linking a node to the end keeps what is merged and what is left apart and intact |
| `SortList.Join` | external_libs/cJSON/cJSON_Utils.c:571-590 | the rest of one half is appended whole |
| `SortList.SortObject` | external_libs/cJSON/cJSON_Utils.c:595-602 | same nodes in key order; the list is a proper child list again if and only if first and last node kept their places |
| `SortList.AppendAfterSort` | external_libs/cJSON/cJSON_Utils.c:595-602 | appending after a sort: the children are the sorted nodes and the item if and only if first and last node kept their places; if another node is first the item is lost, otherwise the item follows the node that was last and the nodes sorted behind it are lost |
| `MergePatch.MergeIsRfc` | external_libs/cJSON/cJSON_Utils.c:1321-1378 | on distinct keys `merge_patch` computes MergePatch of section 2 of RFC 7396 |
| `MergePatch.MergeIdempotent` | external_libs/cJSON/cJSON_Utils.c:1321-1378 | applying the same merge patch twice equals applying it once |
| `MergePatch.RfcIdempotent` | external_libs/cJSON/cJSON_Utils.c:1321-1378 | the same for the algorithm of the RFC on values |
| `MergeGenerate.MergeDiff` | external_libs/cJSON/cJSON_Utils.c:1390-1470 | merging the difference of two values gives the second if and only if each of its null members is null in the first |
| `MergeGenerate.GenerateIsDiff` | external_libs/cJSON/cJSON_Utils.c:1390-1470 | if at each level `strcmp` and the order that ignores case agree on the keys of both objects, the generated patch means exactly that difference, in the meaning of either mode; the root of a case-sensitive call is free |
| `MergeGenerate.NoPatchIffEqual` | external_libs/cJSON/cJSON_Utils.c:1462-1467 | no patch is generated exactly for two objects that are equal up to member order |
| `MergeGenerate.MergePatchRoundTrip` | external_libs/cJSON/cJSON_Utils.c:1321-1470 | merging the generated patch into a copy of `from` gives `to` up to member order if and only if the null members of `to` are null in `from` |
| `MergeGenerate.MergePatchRoundTripWithoutNulls` | external_libs/cJSON/cJSON_Utils.c:1321-1470 | in particular whenever no object reached through objects of `to` has a null member |
| `MergeGenerate.AlignedEqual` | external_libs/cJSON/cJSON_Utils.c:1449-1456 | on such trees the comparison in the generator is the same with and without case |
| `MergeGenerate.LowerKeysAligned` | external_libs/cJSON/cJSON_Utils.c:1390-1470 | trees with lower-case keys are such trees |
| `MergeOrder.MergedInOrder` | external_libs/cJSON/cJSON_Utils.c:1337-1376 | members that the patch does not name keep their order in front, and the ones it sets follow in the order of the patch |
| `MergeLoops.MixedCaseLosesMember` | external_libs/cJSON/cJSON_Utils.c:1402-1430 | with keys in mixed case the patch for {a, B} to {B} sets B and then removes it: it is lost |
| `MergeLoops.Members.MergeAll` | external_libs/cJSON/cJSON_Utils.c:1337-1376 | the loop over the patch members does what the specification says, one member at a time |
| `MergeLoops.RunMerge` | external_libs/cJSON/cJSON_Utils.c:1321-1378 | `merge_patch` computes the specification |
| `MergeLoops.RunGenerate` | external_libs/cJSON/cJSON_Utils.c:1390-1470 | `generate_merge_patch` computes the specification |
| `MergeLoops.GenerateAll` | external_libs/cJSON/cJSON_Utils.c:1415-1461 | the merge loop makes the members of the patch in order |
| `MergeLoops.GenerateOne` | external_libs/cJSON/cJSON_Utils.c:1449-1456 | a key in both objects: nothing if equal, else a nested patch that ignores case |
| `MergeLoops.DiffAndMerge` | external_libs/cJSON/cJSON_Utils.c:1321-1470 | both loops one after the other give `to` exactly under the condition on null members |
| `Pointer.PointerRoundTrip` | external_libs/cJSON/cJSON_Utils.c:198-259 | for every node of a tree with distinct keys, the pointer found from the root resolves to exactly that node, keys with `~` and `/` included |
| `Pointer.ResolvePointerOf` | external_libs/cJSON/cJSON_Utils.c:301-346 | the encoded path of a place resolves to that place |
| `Pointer.FindPointerFinds` | external_libs/cJSON/cJSON_Utils.c:198-259 | the search returns the encoded path of the node it is asked for |
| `Pointer.PointerEncodedLength` | external_libs/cJSON/cJSON_Utils.c:157-170 | the length computed is the length of the encoded text |
| `Pointer.EncodeStringAsPointer` | external_libs/cJSON/cJSON_Utils.c:173-196 | the loop writes exactly the encoded text and a terminator, inside a buffer of the computed length |
| `Pointer.WriteEncoded` | external_libs/cJSON/cJSON_Utils.c:173-196 | one run of the loop extends the buffer by the encoding |
| `Pointer.ComposePath` | external_libs/cJSON/cJSON_Utils.c:1118-1123 | path, slash and encoded suffix fill the buffer that was allocated for them exactly |
| `Pointer.ComparePointers` | external_libs/cJSON/cJSON_Utils.c:120-154 | the comparison of a key with an encoded token, character by character |
| `Pointer.TokenMatchesEncoded` | external_libs/cJSON/cJSON_Utils.c:120-154 | a token that is the encoding of a key matches exactly the keys equal to it in the chosen mode |
| `Pointer.DecodeArrayIndex` | external_libs/cJSON/cJSON_Utils.c:274-299 | the digit loop computes the index function |
| `Pointer.DecodeIndexDecimal` | external_libs/cJSON/cJSON_Utils.c:274-299 | the decimal text of an index decodes to it |
| `Pointer.DecodeIndexAcceptsLetters` | external_libs/cJSON/cJSON_Utils.c:285-289 | the token `5a` is taken for the index 99 |
| `Pointer.DecodeIndexAccepts` | external_libs/cJSON/cJSON_Utils.c:274-299 | exactly which tokens are taken for an index, and that an accepted token has the form of section 4 of RFC 6901 if and only if it is not empty and has no character above `9` |
| `Pointer.DecodeIndexReadsToken` | external_libs/cJSON/cJSON_Utils.c:274-299 | a token is read as the index it spells if and only if it has that form and the number fits in 64 bits |
| `Pointer.DecodeIndexValue` | external_libs/cJSON/cJSON_Utils.c:274-299 | a token of that form is read as its number modulo 2^64 |
| `Pointer.DecodeIndexWraps` | external_libs/cJSON/cJSON_Utils.c:285-289 | the decimal text of 2^64 is taken for the index 0 |
| `Pointer.GetItemFromPointer` | external_libs/cJSON/cJSON_Utils.c:301-346 | the walk ends at the node the specification resolves to, or nowhere |
| `PointerLaws.ResolveLeads` | external_libs/cJSON/cJSON_Utils.c:301-346 | a pointer resolves to a place if and only if its tokens lead there, each naming an element by its index or the first member with the key, so nothing is found where a token names no child |
| `PointerLaws.TokenMatchesExactly` | external_libs/cJSON/cJSON_Utils.c:120-154 | a token matches exactly the keys it is the encoding of, in the chosen mode; a malformed one matches none |
| `PointerLaws.TokensOf` | external_libs/cJSON/cJSON_Utils.c:301-346 | every pointer is a list of tokens |
| `PointerLaws.NoPointerIsRoot` | external_libs/cJSON/cJSON_Utils.c:301-346 | a text that does not start with a slash stays at the root |
| `PointerLaws.MalformedKept` | external_libs/cJSON/cJSON_Utils.c:359-390 | a token whose first tilde starts no escape is left as it is |
| `Pointer.FirstMatch` | external_libs/cJSON/cJSON_Utils.c:324-332 | the member loop stops at the first matching key |
| `PointerDecode.DecodePointerInPlace` | external_libs/cJSON/cJSON_Utils.c:359-390 | the loop rewrites the string as the specification does, writing never ahead of reading |
| `PointerDecode.DecodeUndoesEncode` | external_libs/cJSON/cJSON_Utils.c:359-390 | decoding undoes encoding if and only if the key has no slash and each character that is not a tilde sits where it was before encoding |
| `PointerDecode.PlainDecodesBack` | external_libs/cJSON/cJSON_Utils.c:359-390 | in particular for keys without tilde and slash |
| `PointerDecode.DecodeLosesEscapes` | external_libs/cJSON/cJSON_Utils.c:359-390 | a key with a slash, or with a tilde followed by another character, comes back changed |
| `CString.CompareIgnoringCase` | external_libs/cJSON/cJSON.c:133-154 | the loop computes the comparison of the folded strings |
| `CString.Trichotomy` | external_libs/cJSON/cJSON_Utils.c:83-108 | string comparison orders any two strings |
| `CString.LessTransitive` | external_libs/cJSON/cJSON_Utils.c:83-108 | and the order is transitive |
| `CString.LessIsLexicographic` | external_libs/cJSON/cJSON_Utils.c:83-108 | one string is less than another if it is a proper prefix or has the smaller byte where they first differ |
| `CString.FoldAlphabet` | external_libs/cJSON/cJSON.c:133-154 | folding maps the 26 capital letters to the small ones, and nothing else |
| `Json.Find` | external_libs/cJSON/cJSON.c:1876-1906 | lookup returns the first member whose key is equal in the chosen mode |
| `Json.MeaningIsLookup` | external_libs/cJSON/cJSON.c:1876-1906 | the meaning of an object is what lookup sees of it |
| `GrammarParses.ParsesExactly` | external_libs/cJSON/cJSON.c:1308-1707 | `parse_value` reads a text as a tree if and only if the tree is not nested too deep and a concrete syntax of the grammar has that text and that tree: any bytes up to 32 between tokens, all eight short escapes, `\u` escapes, leading zeros and the malformed escapes that the two passes over a string let through |
| `GrammarParses.ParsesDocument` | external_libs/cJSON/cJSON.c:1091-1131 | parsing a buffer succeeds exactly for a byte order mark or none, white space and such a text, and stops after it |
| `GrammarParses.ParsesWholeDocument` | external_libs/cJSON/cJSON.c:1121-1131 | if the end is required, exactly if nothing but white space comes between the value and the terminator |
| `GrammarParses.Unambiguous` | external_libs/cJSON/cJSON.c:1308-1707 | a text has no more than one tree |
| `GrammarParts.SkipWhite` | external_libs/cJSON/cJSON.c:1034-1057 | all bytes up to 32 are skipped, up to a larger one |
| `GrammarParts.LiteralRead` | external_libs/cJSON/cJSON.c:769-895 | a string literal of the grammar is read as its value, up to its closing quote |
| `GrammarParts.LiteralDerived` | external_libs/cJSON/cJSON.c:769-895 | whatever is read as a string is such a literal |
| `GrammarParts.NumberRead` | external_libs/cJSON/cJSON.c:305-379 | an integer of the grammar is read as its value, unless digits, a fraction or an exponent follow within the 63 characters that are copied |
| `GrammarParts.NumberDerived` | external_libs/cJSON/cJSON.c:305-379 | whatever is read as a number is such an integer |
| `GrammarParts.HexCode` | external_libs/cJSON/cJSON.c:611-644 | four hexadecimal digits of either case count as the number they spell |
| `GrammarParts.HexCodeMalformed` | external_libs/cJSON/cJSON.c:611-644 | four characters with one that is no digit count as 0 |
| `GrammarParts.CStrIs` | external_libs/cJSON/cJSON.c:814-876 | the value of a string ends at the first NUL in it |
| `PrintLayout.PrintedLayout` | external_libs/cJSON/cJSON.c:1363-1821 | formatted output is accepted by an automaton that fixes every line break, tab and blank, and all it opens it closes |
| `PrintLayout.LinesIndented` | external_libs/cJSON/cJSON.c:1737-1814 | every line starts with as many tabs as brackets and braces are open there outside strings, less one before a closing brace, and then with a key or that brace |
| `PrintLayout.MembersOnOwnLines` | external_libs/cJSON/cJSON.c:1737-1801 | every object member stands on a line of its own |
| `PrintShortest.PrintedShortest` | external_libs/cJSON/cJSON.c:898-1821 | no text of a tree in which control characters are escaped is shorter than its unformatted output: no escape, zero or blank can be spared |
| `ParsePrint.ParsePrintRoundTrip` | external_libs/cJSON/cJSON.c:1308-1821 | for every tree with NUL-free strings and nesting within the limit, parsing the formatted or unformatted text consumes all of it and rebuilds the tree |
| `ParsePrint.ParsePrintValue` | external_libs/cJSON/cJSON.c:1308-1360 | the same inside a larger text, up to a delimiter |
| `ParsePrint.ParseQuote` | external_libs/cJSON/cJSON.c:769-1017 | a string that is escaped and quoted is read back, whatever follows it |
| `ParsePrint.ParsePrintNumber` | external_libs/cJSON/cJSON.c:305-379 | a printed number is read back |
| `ParsePrint.ParseScalars` | external_libs/cJSON/cJSON.c:611-873 | scalar values written as `\uXXXX` or surrogate pairs parse to their concatenated UTF-8 encoding, which decodes to them alone |
| `Unicode.Utf16LiteralScalar` | external_libs/cJSON/cJSON.c:648-766 | one literal gives the UTF-8 bytes of its scalar value |
| `Unicode.DecodeUtf8All` | external_libs/cJSON/cJSON.c:711-760 | UTF-8 text decodes uniquely (section 3 of RFC 3629) |
| `Unicode.Utf8KeepsOrder` | external_libs/cJSON/cJSON.c:711-760 | encoded characters are in the order of the characters, byte by byte |
| `Unicode.ParseHexDigits` | external_libs/cJSON/cJSON.c:611-644 | the shift loop computes the value of four digits, or 0 |
| `Unicode.ParseHex4Hex4` | external_libs/cJSON/cJSON.c:611-644 | four digits written by `%04x` are read back |
| `UnescapePass.RoundFits` | external_libs/cJSON/cJSON.c:817-870 | what a round of the unescape pass writes fits in the room the scan pass left for what it reads, also when the passes disagree about backslashes |
| `UnescapePass.UnescapeFits` | external_libs/cJSON/cJSON.c:782-873 | the unescaped string is never longer than the scan pass allows |
| `UnescapePass.ScanIsAligned` | external_libs/cJSON/cJSON.c:782-805 | the scan pass never ends within an escape, and its count is that of the text before the quote |
| `UnescapePass.Scan` | external_libs/cJSON/cJSON.c:782-805 | the scan loop finds the closing quote and counts the escapes |
| `UnescapePass.EncodeUtf8` | external_libs/cJSON/cJSON.c:711-760 | the encoding loop writes exactly the UTF-8 bytes |
| `UnescapePass.ReadLiteral` | external_libs/cJSON/cJSON.c:648-709 | the code point and length of a literal, or 0 in each error case |
| `UnescapePass.Utf16LiteralToUtf8` | external_libs/cJSON/cJSON.c:648-766 | reads a literal and writes its bytes, or reads nothing |
| `UnescapePass.UnescapeOnce` | external_libs/cJSON/cJSON.c:817-870 | one round reads and writes what the specification says |
| `UnescapePass.UnescapeInto` | external_libs/cJSON/cJSON.c:814-873 | every write of the pass is inside the buffer sized by the scan pass, for every input; success leaves the unescaped string and a terminator |
| `ParseBuffer.Parser.SkipWhitespace` | external_libs/cJSON/cJSON.c:1034-1057 | skips characters up to the blank, steps back at the end of the buffer, never goes backwards |
| `ParseBuffer.Parser.SkipBomAndSpace` | external_libs/cJSON/cJSON.c:1060-1073 | a byte order mark at the start is skipped |
| `ParseBuffer.Parser.ParseDigits` | external_libs/cJSON/cJSON.c:305-379 | copies at most 63 characters and reads the number in them |
| `ParseBuffer.Parser.ReadString` | external_libs/cJSON/cJSON.c:769-895 | agrees with the specification unless its block is refused; the block is kept on success and freed on failure |
| `ParseBuffer.Parser.ReadValue` | external_libs/cJSON/cJSON.c:1308-1360 | succeeds exactly when the specification does and no block is refused; then strictly advances, stays inside the buffer, restores the depth; accounts for every block in any case |
| `ParseBuffer.Parser.ReadArray` | external_libs/cJSON/cJSON.c:1437-1532 | the same for arrays, with the nesting limit |
| `ParseBuffer.Parser.ReadElements` | external_libs/cJSON/cJSON.c:1468-1509 | the element loop: on failure, of the text or of an allocation, the whole list built so far is freed |
| `ParseBuffer.Parser.ReadObject` | external_libs/cJSON/cJSON.c:1597-1707 | the same for objects |
| `ParseBuffer.Parser.ReadMembers` | external_libs/cJSON/cJSON.c:1626-1685 | the member loop: on failure, of the text or of an allocation, items, keys and values read so far are freed |
| `ParseBuffer.Parser.ReadMember` | external_libs/cJSON/cJSON.c:1630-1678 | whatever one round allocates is reachable from its item, wherever it fails |
| `ParseBuffer.Parser.ReadName` | external_libs/cJSON/cJSON.c:1653-1669 | key and colon; a key without a colon is kept for the cleanup |
| `ParseBuffer.ParseWithOpts` | external_libs/cJSON/cJSON.c:1075-1168 | succeeds exactly when the specification does on the text with its terminator and no block is refused; exactly the blocks of the tree are left allocated, as many as the tree needs, and none on failure at any point |
| `ParseBuffer.ParseAndDelete` | external_libs/cJSON/cJSON.c:253-274 | parsing and deleting gives back every block exactly once, whatever was refused on the way |
| `JsonText.ParsedHeight` | external_libs/cJSON/cJSON.c:1308-1532 | a tree parsed at some depth is no higher than what the nesting limit leaves |
| `Allocation.BlocksOfTree` | external_libs/cJSON/cJSON.c:241-250 | an item owns as many blocks as its tree needs: one for a string, one for each element, two for each member |
| `Allocation.Allocator.Delete` | external_libs/cJSON/cJSON.c:253-274 | frees every block of a list of items once and nothing else |
| `Allocation.Allocator.DeleteOne` | external_libs/cJSON/cJSON.c:257-272 | children, string, key and item, each once |
| `PrintBuffer.CountEscapes` | external_libs/cJSON/cJSON.c:925-949 | the first pass counts the characters escaping adds |
| `PrintBuffer.PutEscapes` | external_libs/cJSON/cJSON.c:970-1012 | the second pass writes the escaped text |
| `PrintBuffer.Printer.Ensure` | external_libs/cJSON/cJSON.c:439-522 | succeeds exactly when the capacity allows it and a larger buffer, if one is needed, is granted; keeps the text written, and leaves a fixed buffer in place |
| `PrintBuffer.Printer.UpdateOffset` | external_libs/cJSON/cJSON.c:525-535 | moves the offset to the terminator |
| `PrintBuffer.Printer.PrintString` | external_libs/cJSON/cJSON.c:898-1017 | success depends on the length alone and means the quoted string was written |
| `PrintBuffer.Printer.PrintValue` | external_libs/cJSON/cJSON.c:1363-1434 | unless a larger buffer is refused, success depends on the length of the printed text alone; it means exactly that text and a terminator, every write inside the buffer |
| `PrintBuffer.Printer.PrintArray` | external_libs/cJSON/cJSON.c:1535-1594 | the same for arrays, depth restored |
| `PrintBuffer.Printer.PrintElements` | external_libs/cJSON/cJSON.c:1558-1582 | the element loop writes the items and their separators |
| `PrintBuffer.Printer.PrintObject` | external_libs/cJSON/cJSON.c:1710-1821 | the same for objects, depth restored |
| `PrintBuffer.Printer.PrintPairs` | external_libs/cJSON/cJSON.c:1737-1801 | the member loop writes the members, indented |
| `PrintBuffer.PrintPreallocated` | external_libs/cJSON/cJSON.c:1288-1306 | succeeds exactly when the buffer is at least two characters longer than the text, so the documented slack of five suffices |
| `PrintBuffer.PrintBuffered` | external_libs/cJSON/cJSON.c:1258-1286 | the size of the first buffer has no influence on the text, which is printed whenever it fits in an int and no buffer is refused |
| `PrintBuffer.PrintGrown` | external_libs/cJSON/cJSON.c:1183-1245 | the result is the text cut to its length, for every text that fits in an int unless a buffer is refused |
| `PrintBuffer.PrintThenParse` | external_libs/cJSON/cJSON.c:1075-1821 | printing into a buffer and parsing what it holds gives the tree back, unless the parser is refused a block |
| `Minify.MinifyInPlace` | external_libs/cJSON/cJSON.c:2829-2875 | the loop leaves the minified text and a terminator; the write index never passes the read index |
| `Minify.MinifyString` | external_libs/cJSON/cJSON.c:2807-2827 | strings are copied up to a quote that no backslash precedes |
| `Minify.SkipOneLineComment` | external_libs/cJSON/cJSON.c:2780-2791 | skips to the end of the line |
| `Minify.SkipMultiLineComment` | external_libs/cJSON/cJSON.c:2793-2805 | skips to the end of the comment or of the text |
| `MinifyPieces.MinifyKeeps` | external_libs/cJSON/cJSON.c:2780-2875 | in front of any text: string literals and other characters are kept, white space, line and block comments and lone slashes are dropped, and minifying goes on after them |
| `MinifyPieces.Pieces` | external_libs/cJSON/cJSON.c:2780-2875 | every text is a row of such pieces, the last of which may be cut off, so the minified text of anything is known |
| `MinifyLaws.MinifyIdempotent` | external_libs/cJSON/cJSON.c:2780-2875 | minifying twice is minifying once, on every text |
| `MinifyExactly.MinifyPrintExactly` | external_libs/cJSON/cJSON.c:2780-2875 | minifying formatted output gives the unformatted output if and only if every string or key that ends in a backslash is followed by nothing but closing brackets of arrays |
| `MinifyExactly.Classify` | external_libs/cJSON/cJSON.c:2780-2875 | every printed value is copied clean, leaves a string open, or differs from the unformatted text whatever follows; which of the three is decided by its strings |
| `MinifyExactly.OpensQuote` | external_libs/cJSON/cJSON.c:2807-2827 | a printed string that ends in a backslash is not closed: what follows is copied up to the next quote that no backslash precedes |
| `MinifyExactly.MinifyPrint` | external_libs/cJSON/cJSON.c:2780-2875 | in particular it works for trees in which no string or key ends in a backslash |
| `MinifyExactly.BackslashEndKeepsBlanks` | external_libs/cJSON/cJSON.c:2813-2826 | a string that ends in a backslash makes the blanks after it survive |
| `ChildList.AddItem` | external_libs/cJSON/cJSON.c:1952-1983 | the item follows the node the first `prev` link leads to: with the right link that is appending, without a link the item is dropped, with a wrong one the nodes after it are |
| `ChildList.ChainUnique` | external_libs/cJSON/cJSON.c:1847-1864 | the first node of a chain determines it |
| `ChildList.Detach` | external_libs/cJSON/cJSON.c:2183-2217 | removes the node from the sequence, first, last and only child included, and clears its links |
| `ChildList.InsertBefore` | external_libs/cJSON/cJSON.c:2274-2285 | inserts in front of a child, the first one included |
| `ChildList.Replace` | external_libs/cJSON/cJSON.c:2288-2335 | replaces one child by another, first, last and only child included |
| `ChildList.ItemAt` | external_libs/cJSON/cJSON.c:1847-1864 | the walk ends at the child with that index, or null |
| `ChildList.InsertItem` | external_libs/cJSON/cJSON.c:2259-2286 | inserts at an index, appends past the end, refuses a negative index |
| `ChildList.InsertItemStrict` | external_libs/cJSON/cJSON_Utils.c:693-728 | inserts at an index up to the length, refuses beyond it |
| `ChildList.DetachItem` | external_libs/cJSON/cJSON_Utils.c:393-427 | detaches by index, or nothing |
| `ChildList.ReplaceItem` | external_libs/cJSON/cJSON.c:2337-2345 | replaces by index, or nothing |
| `ChildList.RunOps` | external_libs/cJSON/cJSON.c:1952-2345 | every run of these calls keeps the child list intact and refines the run on sequences |
| `LiteList.AddBetween` | include/lite-list.h:66-72 | linking in between neighbours is insertion |
| `LiteList.Add` | include/lite-list.h:82-85 | adds in front |
| `LiteList.AddTail` | include/lite-list.h:95-98 | adds at the end |
| `LiteList.Delete` | include/lite-list.h:107-127 | unlinks one entry and leaves its own links alone |
| `LiteList.ReplaceHead` | include/lite-list.h:136-142 | a new head takes over the entries, also when there are none |
| `LiteList.ReplaceHeadInit` | include/lite-list.h:144-148 | and the old head is an empty list |
| `LiteList.ReplaceEntry` | include/lite-list.h:136-142 | an entry is exchanged in its place |
| `LiteList.MoveTo` | include/lite-list.h:165-180 | moving an entry of either of two lists takes it out and adds it at the end asked for |
| `LiteList.RotateLeft` | include/lite-list.h:224-232 | the first entry goes to the end |
| `LiteList.RotateFully` | include/lite-list.h:224-232 | as many rotations as there are entries are the identity |
| `LiteList.ForEachSafe` | include/lite-list.h:325 | iterating with deletion visits every entry once, in order, and leaves the entries not deleted |
| `LiteList.StepConserves` | include/lite-list.h:66-232 | an insertion, deletion, replacement, move or rotation accounts for every entry |
| `LiteList.InsertTo` | include/lite-list.h:82-98 | adding to one of two lists, at either end |
| `LiteList.ReplaceIn` | include/lite-list.h:136-142 | exchanging an entry of one of two lists leaves the other alone |
| `LiteList.RunSteps` | include/lite-list.h:66-232 | every run of insertions, deletions, replacements, moves and rotations on two disjoint lists keeps both rings intact, refines the run on sequences and accounts for every entry |
| `Ota.OtaContext.FetchAll` | samples/ota/ota_mqtt_sample.c:436-471 | the fetch loop computes the specification |
| `Ota.OtaContext.TryOnce` | samples/ota/ota_mqtt_sample.c:405-491 | one attempt computes the specification |
| `Ota.OtaContext.EndOfOta` | samples/ota/ota_mqtt_sample.c:500-517 | counting, retrying or reporting failure |
| `Ota.OtaContext.ProcessOta` | samples/ota/ota_mqtt_sample.c:382-527 | the whole process, with its jumps back, computes the specification |
| `OtaLaws.AttemptStart` | samples/ota/ota_mqtt_sample.c:309-335 | every attempt starts one download or skips it: it starts in the middle only of a local part of the offered version whose digest was computed, is skipped only if such a part is as long as the file or the file is empty, and starts at 0 in every other case |
| `OtaLaws.ResumesOwnVersion` | samples/ota/ota_mqtt_sample.c:405-527 | in the log of a whole run no download starts in the middle of anything else |
| `OtaLaws.DownloadIs` | samples/ota/ota_mqtt_sample.c:436-471 | the fetch loop writes each piece where the one before ended, stops at the first pass that has to, and that pass decides result, place and failure count |
| `OtaLaws.ReportsFailureLate` | samples/ota/ota_mqtt_sample.c:500-522 | if no download is refused and all data can be written, failure is reported only after 5 - c retries, c being the count the run starts with |
| `OtaLaws.FailureIsReported` | samples/ota/ota_mqtt_sample.c:500-522 | a run that fails reports it last and resets the count, or has lost its connection |
| `Ota.SuccessIsChecked` | samples/ota/ota_mqtt_sample.c:474-522 | success is reported at most once, last, right after a firmware check that passed in that attempt, and only then is the result true |
| `Ota.FailuresBounded` | samples/ota/ota_mqtt_sample.c:500-522 | a count of failures within the limit stays within it |
| `Ota.RetriesBounded` | samples/ota/ota_mqtt_sample.c:500-512 | if all sizes seen as `int` lie between 0 and b, a call makes at most (5 - c) + (6 - c) * floor(b / 51200) retries, c being the count it starts with |
| `Ota.Subtract` | samples/ota/ota_mqtt_sample.c:504 | the 32-bit difference of two sizes that are not negative is their difference |
| `Ota.CountedStep` | samples/ota/ota_mqtt_sample.c:503-509 | a counted failure pays for all the whole chunks that may follow it |
| `Ota.ChunkStep` | samples/ota/ota_mqtt_sample.c:503-509 | a retry that is not counted uses up a chunk |
| `Ota.ProcessEnds` | samples/ota/ota_mqtt_sample.c:382-527 | if every attempt ends, the process ends within that many attempts plus one |
| `Ota.RefusalIsFinal` | samples/ota/ota_mqtt_sample.c:446-509 | a refused download is final if and only if the bytes fetched since the last retry are not exactly one chunk |
| `Ota.RefusalIgnored` | samples/ota/ota_mqtt_sample.c:446-512 | a download refused after its first chunk is tried again |

## Left out

- ParseBuffer.Parser.ParseDigits: numbers are integers of at most fifteen digits; `strtod` and `sprintf` on fractions, exponents and larger numbers are library behaviour, and where the code would go on with such a number the model stops with a failure.
- ParsePrint.ParsePrintNumber: only for those integers, for the same reason.
- GrammarParses.ParsesExactly: the grammar has those integers only, for the same reason.
- MergeGenerate.GenerateIsDiff: states that the condition on the order of the keys suffices; whether two keys in different order matter depends on what else the objects hold.
- PatchApply.Target.ApplyOne: edits a tree value, not linked nodes. A move whose `from` is present but no string is excluded: the code reads its missing text.
- PatchApply.Target.Apply: a test may only come last, because the sorting it does can leave a child list to which a later addition is lost (`SortList.AppendAfterSort`), which trees as values do not show; the check that the patches are an array is not modelled, nor that a test sorts the value inside its patch.
- PatchLoops.PatchArray.Create: the order in which both trees are left is shown, the links of their nodes are not (`SortList.SortObject`). The overflow check of the index against ULONG_MAX is not modelled.
- PatchLoops.CompareJson: the same holds for the links.
- UnescapePass.EncodeUtf8: shifts and masks are written as arithmetic; `Unicode.ContinuationByte`, `Unicode.LeadByte` and `Unicode.SurrogatePair` show on 32-bit words that they are the same.
- MergeLoops.RunMerge: edits a sequence of members rather than linked nodes; that each detach and append is right on nodes is `ChildList`.
- Pointer.GetItemFromPointer: asks for keys without embedded NUL characters, which C strings cannot hold.
- ParseBuffer.ParseWithOpts: the buffer ends with a terminator, as it does for C strings; `cJSON_ParseWithLength` on other buffers and the error position are not modelled. Items are values that carry the addresses of their blocks; the linking of new items into the list is `ChildList`.
- PrintBuffer.Printer.Ensure: the buffer grows as `realloc` does it; the copy of the first offset + 1 bytes that replaces it with hooks of one's own is not modelled.
- ChildList.Replace: the deletion of the replaced item is `Allocation.Allocator.DeleteOne`.
- Ota.OtaContext.ProcessOta: waiting for the upgrade command and for the acknowledgement of the report is not modelled; the answers of the network, the file system and the OTA service are parameters.
- PatchRoundTrip.PatchesRoundTrip: states that the conditions on keys suffice; the exact conditions are given for one removal (`PatchLaws.DetachIgnoresCase`) and one key (`PointerDecode.DecodeUndoesEncode`), since whether a bad key matters depends on whether a patch touches it.
- `cJSON_Duplicate`: trees are values, so a copy is the value itself.
- Allocator hooks, raw items, reference items, constant keys, the `cJSON_Create*` and `cJSON_Add*ToObject` helpers and the global error pointer.
- Locale decimal points, NaN and infinity.
- The other list macros (backward and entry iteration), which only rename what is modelled.
- The other samples, the HAL, MQTT, gateway, file and resource services and the tools: I/O, or the same retry loop as the OTA sample.
