# Verification of a small storage engine

Dafny models of the four components of the repository that share pages, with proofs about them.

* **B+ tree index, `amlayer`** (`Am*.dfy`). Leaves are pages of 1020 bytes: a header, key slots that grow up,
  recId cells that grow down from the page end, and a free list of cells inside the page. `AmLeafPage`,
  `AmLeafSteps`, `AmCompact`, `AmLeafBuf` and `AmHalves` are the leaf: its cell lists, its space, insertion,
  deletion, compaction and the two halves of a split. `AmNode` is an internal page. `AmTree`, `AmSplit`,
  `AmLeaves`, `AmPaths`, `AmClimb`, `AmDescend` and `AmUpdate` are the tree over a file of pages, level by
  level: each level is the list of its pages with the lower bound of their keys, and the level below is
  computed from the pages themselves. `AmIndex` is the index with its search stack, `AmRun` whole runs,
  `AmPairs`, `AmCursor`, `AmScan`, `AmDrain` the scans, with deletions under the cursor, and `AmFull` and
  `AmLimits` runs that reach a leaf on which an insertion is not defined, and the limits of scans and of the stack.
* **Paged files and their buffer pool, `pflayer`** (`Pf*.dfy`). `PfPool` gives each routine of buf.c as a
  function on the pool, `PfStore`, `PfRun`, `PfLru` and `PfLost` prove what those functions keep and lose over all runs, and
  `PfHash`, `PfFrames`, `PfBuffer` are the pointer structures (chained hash table, doubly linked used list,
  free list), each routine proved equal to its function. `PfChain`, `PfFs`, `PfFile`, `PfClient` are the files
  with their chains of free pages, and clients of both.
* **Bulk loader, `bulklayer`** (`Bl*.dfy`): building the index bottom-up, searching it and scanning it.
* **Slotted pages, `splayer`** (`Sp*.dfy`): a page is its 4096 bytes; header and slot directory are read from
  those bytes. `SpStore` gives the operations as functions on records, `SpPage` and `SpFile` the code on bytes,
  `SpHistory` whole runs.

Objects and buffers that the C code updates in place are classes and arrays; each such method is tied to a
specification function or to the contents before it, and the properties of whole runs are lemmas about those.

## What the code does that its documentation does not say

* A leaf can fill up with the cells of one key. `AM_SplitLeaf` then compacts an empty range of keys, and
  `AM_Compact` leaves `keyPtr` undefined on one (amlayer/am.c:38, amlayer/aminsert.c:212). The same happens on
  a leaf that was emptied while all its cells are on the free list (amlayer/aminsert.c:69).
  `AmFull.DefinedIffCanTake` is the exact condition, on the leaf's header, for an insertion to compact only
  ranges with keys in them; `AmFull.FillOneKey` and `AmFull.StrandLeaf` reach both bad states by ordinary calls.
  `AmHalves.RoomyCanTake` and `AmRun.Run` show that neither is reached while no key has more than
  `MaxRecIds(attrLength)` recIds, which is at least one for every attribute length from 1 to 255.
* `AM_DeleteEntry` leaves its search path on the stack when it answers AME_NOTFOUND, and `AM_OpenIndexScan`
  always does. The stack is not checked against its 50 entries (amlayer/amstack.c:19-23), so the methods of
  `AmIndex` that search require room for one more path, and say how much they leave behind.
  `AmLimits.FillStack` opens scans for a key that is there, each closed before the next (`AM_CloseIndexScan`, so
  that the 20 rows of the scan table do not run out), until there is no room left.
* Some answers leave pages fixed: AME_NOTFOUND the leaf (amlayer/amfns.c:171-176, 207-212), a wrong attribute
  length page 0 (amlayer/amsearch.c:39-40, 45-46), an open that fails as below the two leaves
  (amlayer/amscan.c:116-120), an unknown operator the leaf (amlayer/amscan.c:265-268). `PF_GetThisPage` refuses a
  fixed page (`PfFile.Files.GetThisPage`), so from then on every call that comes to such a page answers AME_PF:
  deleting an absent key twice answers AME_NOTFOUND and then AME_PF. The contracts of `AmIndex` and `AmScan` are
  about a call that finds no page of the index fixed, and do not compose across those answers.
* `AM_OpenIndexScan` on a value past the last key of a leaf that is not the last reads the next leaf's header
  over the one it holds, then unfixes the page that header names, which is not fixed
  (amlayer/amscan.c:113-120; `AmScan.NextNotFixed`): it answers AME_PF. `AmScan.OpensIff` is the exact
  condition, and `AmLimits.OpenFails` an index built by insertions and at most one deletion where it happens,
  whatever the operator.
* `PF_AllocPage` does not mark a page taken from the free list dirty (pflayer/pf.c:596-605); a client that
  unfixes it clean may lose the page's new state. `PfStore.Disciplined` is what a client must keep to;
  `PfLost.KeptIff` shows, for a pool of any size and every policy, that the page's content is kept if and only if it
  does; by `PfLost.TakenPageLost` the page taken from the free list stays in use exactly when its frame happened to
  be dirty, and otherwise is neither in use nor free; `PfLost.PageLost` is the least file where that happens.
* `PFbufReleaseFile` writes the dirty pages of the file without counting them in the physical writes
  (pflayer/buf.c:413-418), which `PFbufInternalAlloc` counts (pflayer/buf.c:169).
* bulklayer/blinternal.h:35 says that level 0 is just above the leaves; the loader counts from 1
  (bulklayer/blbulk.c:25).
* `SP_GetNextRec` is written to end in SP_EOF, but `PF_GetThisPage` never answers PFE_EOF
  (pflayer/pf.c:542-545), so it ends in SP_ERROR.
* `SP_DeleteRec` does not check its slot number (splayer/sp.c:245-248). On a slot that the page has not handed
  out it leaves the page in order if and only if the bytes there read as a deleted slot
  (`SpPage.RemoveRecord`); `SpPage.OverwriteRecord` is a page on which it writes into a live record.

## Model

| member | source | states |
|---|---|---|
| AmEntries.InsertOnMap | amlayer/amfns.c:247-353 | Inserting (k, r) puts r at the front of k's list and changes the map from keys to lists nowhere else. |
| AmEntries.DeleteOnMap | amlayer/amfns.c:113-237 | Deleting (k, r) takes the first r off k's list, drops k when that empties it, and changes nothing else; without k nothing changes. |
| AmEntries.RemoveFirstIs | amlayer/amfns.c:183-205 | Taking the first r off a list drops its first occurrence and nothing else; without r the list stays. |
| AmEntries.HasIs | amlayer/amfns.c:159-212 | A pair is in the entries exactly when its recId is in the list of its key in the map. |
| AmEntries.AsMapInjective | amlayer/amfns.c:247-353 | A strictly increasing entry sequence is determined by its map, so the map is all the index holds. |
| AmLeafPage.LayoutUnique | amlayer/aminsert.c:85-157 | The chains of a well-formed leaf can be read off it in one way only: the key lists and the free list that follow from its pointers. |
| AmLeafPage.SpaceAccounting | amlayer/aminsert.c:41-80 | On every well-formed leaf the gap, the free cells and the bytes of the entries add up to the page without its header. |
| AmLeafSteps.PushTaken | amlayer/aminsert.c:85-123 | Taking a free cell, or else one from the gap, for a recId makes it the first of its key's list, and every cell from recIdPtr on is still on exactly one list. |
| AmLeafSteps.OpenSlot | amlayer/aminsert.c:127-157 | Shifting the keys from a place on opens an entry with an empty list there and disturbs no other. |
| AmLeafSteps.UnlinkCell | amlayer/amfns.c:183-205 | Unlinking the cell at a position of a list takes just that recId off it, and the cell is on the free list and on no other. |
| AmLeafSteps.CloseSlot | amlayer/amfns.c:214-224 | Closing the slot of an empty list drops that entry and keeps the others and all cells. |
| AmLeafSteps.DeleteFound | amlayer/amfns.c:183-227 | The two steps together delete the first such recId, and its key exactly when the list became empty. |
| AmCompact.CompactDone | amlayer/aminsert.c:186-218 | Keys low..high copied list by list are a well-formed page with those entries, their recIds in order, contiguous cells and no free list. |
| AmLeafBuf.LeafBuf.InsertToLeafFound | amlayer/aminsert.c:85-123 | The page is the one with the recId at the head of the list, its cell taken from the free list if it has one. |
| AmLeafBuf.LeafBuf.InsertToLeafNotFound | amlayer/aminsert.c:127-157 | The entries are those before with (value, [recId]) at index. |
| AmLeafBuf.LeafBuf.CompactInPlace | amlayer/aminsert.c:66-74 | Compaction in place keeps all entries and leaves no free cell. |
| AmLeafBuf.LeafBuf.InsertintoLeaf | amlayer/aminsert.c:6-81 | The entry goes in exactly when gap and free cells together hold enough bytes for it (one more than enough for a new key if there are free cells), wherever they are; otherwise FALSE and the page unchanged. |
| AmLeafBuf.LeafBuf.SearchLeaf | amlayer/amsearch.c:181-287 | Whether value is a key of the leaf, and the index where it is or where it belongs between its neighbours. |
| AmLeafBuf.LeafBuf.FindInList | amlayer/amfns.c:183-205 | The walk stops at the first cell with the recId, knowing the cell before it, or at the end when there is none. |
| AmLeafBuf.LeafBuf.FreeCell | amlayer/amfns.c:191-196 | The cell leaves its list for the head of the free list. |
| AmLeafBuf.LeafBuf.RemoveSlot | amlayer/amfns.c:216-224 | The slots above move down by one; numKeys and keyPtr go down with them. |
| AmLeafBuf.LeafBuf.DeleteFromLeaf | amlayer/amfns.c:178-227 | The first such recId of the list goes, with its key if it was alone; if there is none, nothing changes. |
| AmLeafBuf.CompactList | amlayer/aminsert.c:195-205 | One list is written to descending cells, in order, and ended. |
| AmLeafBuf.CompactKeys | amlayer/aminsert.c:186-206 | All lists of low..high are written one below another. |
| AmLeafBuf.Compact | amlayer/aminsert.c:163-220 | The temporary page is well formed, holds exactly entries low..high in order, and has no free list. |
| AmHalves.RoomyCanTake | amlayer/aminsert.c:41-80 | On a leaf whose lists are short (MaxRecIds), an insertion that does not fit finds two keys to split, and one that compacts finds a key. |
| AmHalves.HalfHasRoom | amlayer/am.c:37-61 | Either part of at least two entries leaves room for one more key with a recId. |
| AmHalves.HalfTakes | amlayer/am.c:49-61 | Either compacted half of a leaf accepts one more entry. |
| AmHalves.InsertInto | amlayer/am.c:49-61 | The insertion whose result AM_SplitLeaf ignores succeeds. |
| AmHalves.SplitHalves | amlayer/am.c:37-71 | The two halves together hold the entries with the new one in place, both have keys, the returned key divides them, and the left one has the lower half of the old keys (and the new one if it belongs there). |
| AmNode.NodeBuf.BinSearch | amlayer/amsearch.c:89-175 | The index is the number of keys <= value, and the page is the child at that index. |
| AmNode.NodeBuf.AddtoIntPage | amlayer/am.c:218-247 | The pair is put in at offset; the other pairs keep their order. |
| AmNode.NodeBuf.FillRootPage | amlayer/am.c:251-272 | The page becomes a node of one key and two children. |
| AmNode.GatherPairs | amlayer/am.c:297-311 | A temporary page holds the maxKeys + 1 pairs in order. |
| AmNode.SplitIntNode | amlayer/am.c:276-332 | Half of the pairs go left, the middle key up, the rest right under the middle child. |
| AmTree.RangeDown | amlayer/amsearch.c:89-175 | The child chosen by the number of keys <= k is the one whose range contains k. |
| AmSplit.HalvesOk | amlayer/am.c:276-332 | Since maxKeys is even, both halves of a full node with one more pair have exactly maxKeys/2 keys. |
| AmSplit.HalvesItems | amlayer/am.c:276-332 | The children of the two halves, with the promoted key between them, are those of the node with the new child in. |
| AmSplit.DownInsert | amlayer/am.c:146-158 | With room in the parent, the level below is as before with the new page right after its sibling. |
| AmSplit.DownSplit | amlayer/am.c:159-210 | The same when the parent splits and the new node is on the parent's level. |
| AmSplit.DownRoot | amlayer/am.c:169-194 | The same two levels below a root that splits. |
| AmSplit.ParentTakes | amlayer/am.c:146-158 | Adding the pair to a parent with room completes the tree: the leaves are those with the pending page in its place. |
| AmSplit.ParentSplits | amlayer/am.c:159-210 | Splitting a full parent leaves the same situation one level up, with the same leaves to come. |
| AmSplit.RootSplits | amlayer/am.c:169-194 | Splitting a full root gives a tree one level higher whose root is still page 0. |
| AmClimb.StepTakes | amlayer/am.c:136-158 | The step of the climb on a parent with room, at the frame on top of the stack. |
| AmClimb.StepRoot | amlayer/am.c:159-194 | The step on a full root. |
| AmClimb.StepUp | amlayer/am.c:159-210 | The step on a full lower node: the rest of the path is still right for the page one level up. |
| AmLeaves.ContentsSorted | amlayer/amsearch.c:8-85 | In a tree the leaves from left to right hold strictly increasing keys, each with a list that is not empty. |
| AmLeaves.LeafChanged | amlayer/aminsert.c:6-81 | Replacing a leaf by one that fits its range keeps the tree and changes the contents there only. |
| AmLeaves.LeafSplits | amlayer/am.c:63-72 | With a leaf split, the tree lacks only the new page in its parent; chain and contents already have it. |
| AmLeaves.RootLeafSplits | amlayer/am.c:74-94 | When the root is a leaf, page 0 becomes a node over the two halves and the tree is complete. |
| AmLeaves.DepthBound | amlayer/amstack.c:5-23 | A tree with h levels of nodes has at least 2^h leaves, so with int page numbers a search pushes at most 30 frames. |
| AmPaths.PathFrame | amlayer/am.c:136-210 | The path on the stack stays right while pages below its frames split. |
| AmPaths.InsertHere | amlayer/amfns.c:247-353 | An insertion at the place of k in the leaf whose range contains k is an insertion into the whole contents. |
| AmPaths.DeleteHere | amlayer/amfns.c:113-237 | The same for a deletion. |
| AmPaths.HalvesFit | amlayer/am.c:37-72 | The halves can stand side by side where the leaf stood: keys in range, chained, divided by the key. |
| AmDescend.LevelsRise | amlayer/amsearch.c:48-82 | On every level of a tree the separators strictly increase. |
| AmDescend.SearchStep | amlayer/amsearch.c:48-82 | One turn of the descent goes to the page whose range contains value, and the frame it pushes names the parent and the child taken. |
| AmDescend.LeafFound | amlayer/amsearch.c:83-84 | The descent ends at a well-formed leaf whose range contains value. |
| AmUpdate.MaxKeysOk | amlayer/amfns.c:73-78 | For every attribute length from 1 to 255 maxKeys is even, at least 2, and the largest even number of pairs that fit the page. |
| AmUpdate.FreshTreeOk | amlayer/amfns.c:60-83 | The page AM_CreateIndex writes is a tree with no entries, whatever its bytes past the header. |
| AmUpdate.RoomyTakes | amlayer/amfns.c:247-353 | In a file of roomy leaves every insertion is defined. |
| AmUpdate.RoomyInsert | amlayer/aminsert.c:6-81 | An insertion below the limit of recIds keeps a leaf roomy. |
| AmUpdate.RoomyDelete | amlayer/amfns.c:178-227 | So does any deletion. |
| AmUpdate.SplitClimbed | amlayer/am.c:8-213 | Leaf split and climb together are the tree with the pair inserted. |
| AmUpdate.SplitRootLeaf | amlayer/am.c:74-94 | So is the split of a root that is a leaf; the leftmost leaf is page 2 from then on. |
| AmUpdate.InsertDone | amlayer/aminsert.c:6-81 | An entry that fits its leaf is inserted into the contents, and the tree is kept. |
| AmUpdate.DeleteDone | amlayer/amfns.c:178-227 | A deletion in the leaf is one in the contents, and the tree is kept. |
| AmIndex.Index.Create | amlayer/amfns.c:60-91 | A new index is a valid tree of one page and holds nothing. |
| AmIndex.CreateIndex | amlayer/amfns.c:8-92 | AME_INVALIDATTRTYPE for a type other than c, i and f; else AME_INVALIDATTRLENGTH unless the length is 4, or 1 to 255 for c; else any error of the paged file as AME_PF; else the index is new and empty. |
| AmIndex.Index.AllocPage | pflayer/pf.c:607-622 | A new page is the next number; its content is unknown. |
| AmIndex.Index.PushStack | amlayer/amstack.c:15-23 | One more frame on the stack. |
| AmIndex.Index.EmptyStack | amlayer/amstack.c:39-43 | The stack is empty. |
| AmIndex.Index.RootAttrLength | amlayer/amsearch.c:31-46 | The attribute length on the root page is the index's. |
| AmIndex.Index.Search | amlayer/amsearch.c:8-85 | Found exactly when value is a key of the index; the leaf whose range contains value and the place in it, and on the stack exactly the path to that leaf. |
| AmIndex.Index.SearchAtLeaf | amlayer/amsearch.c:83-84 | At the leaf whose range contains value: found exactly when value is a key of the index, and the place in the leaf. |
| AmUpdate.LookupHere | amlayer/amsearch.c:8-85 | What the leaf whose range contains k says of k is what the whole index says of it. |
| AmUpdate.HasHere | amlayer/amfns.c:159-212 | A pair is in the index exactly when it is in the leaf that the search for its key comes to. |
| AmIndex.Index.AddtoParent | amlayer/am.c:112-213 | From any pending page with its path, the climb ends in a valid tree with the same leaves plus that page, and no leaf page has changed. |
| AmIndex.Index.HalveNode | amlayer/am.c:161-167 | The two halves of a full node with one more child, in two buffers. |
| AmIndex.Index.SplitRootNode | amlayer/am.c:160-194 | Page 0 becomes a node over the two halves, on new pages. |
| AmIndex.Index.SplitLowerNode | amlayer/am.c:160-203 | The left half stays on its page, the right half goes to a new one. |
| AmIndex.Index.SplitLeaf | amlayer/am.c:8-109 | The file after a leaf split: right half on a new page, chained after the left; a root leaf moves to a page of its own under a new root. |
| AmIndex.Index.NewRoot | amlayer/am.c:77-94 | The root's part of that. |
| AmIndex.Index.InsertEntry | amlayer/amfns.c:247-353 | Which error is returned and when; on success the tree is valid and its contents are the old ones with just that pair inserted, through splits of leaves, nodes and the root; an error changes no page. |
| AmIndex.Index.InsertFound | amlayer/amfns.c:287-352 | The same once the parameters are checked. |
| AmIndex.Index.InsertBySplit | amlayer/amfns.c:322-351 | The case of a full leaf: split, then climb. |
| AmIndex.Index.DeleteEntry | amlayer/amfns.c:113-237 | AME_NOTFOUND exactly when the pair is not in the index; on success just that pair is gone, every leaf stays, and the tree is valid. |
| AmIndex.Index.DeleteFound | amlayer/amfns.c:159-229 | The same once the parameters are checked. |
| AmRun.RunIsMap | amlayer/amfns.c:113-353 | Over any run the sorted entries are exactly the map from keys to lists that the operations describe. |
| AmRun.ListAtMostInserted | amlayer/aminsert.c:85-123 | A key never has more recIds than were inserted under it. |
| AmRun.FewInsertsOrderly | amlayer/amfns.c:247-353 | Runs that insert each key at most MaxRecIds times and delete only what is there are orderly. |
| AmRun.Run | amlayer/amfns.c:8-353 | Every orderly run from AM_CreateIndex on, for type c with any length from 1 to 255 and for i and f with length 4, succeeds at every step and ends in a valid tree with exactly the contents of the run. |
| AmFull.DefinedIffCanTake | amlayer/aminsert.c:41-80 | On a well-formed leaf an insertion compacts only ranges with keys in them if and only if CanTake holds of its header: two keys, or one key and the bytes for the entry, or no key and a gap larger than a slot. |
| AmFull.OneKeyLeaf | amlayer/amsearch.c:8-85 | In an index with one key all recIds are on the leaf that the search for the key comes to. |
| AmFull.OneKeyTakes | amlayer/aminsert.c:41-80 | With fewer than 165 recIds under one key of a 4-byte attribute one more is defined. |
| AmFull.FillOneKey | amlayer/am.c:38-46 | 165 calls of AM_InsertEntry with one key of a 4-byte attribute reach an index that does not take the key: the next insertion compacts the range 1..0. |
| AmFull.StrandLeaf | amlayer/aminsert.c:64-69 | Deleting all of them again leaves a leaf with no key and no gap, and the next insertion compacts the range 1..0. |
| AmPairs.PairsDelete | amlayer/amfns.c:113-237 | Deleting a pair drops its first occurrence from the index's list of pairs in scan order. |
| AmPairs.KeepIs | amlayer/DOC:54-63 | What is left of a list of pairs is all those not chosen for deletion, in their order. |
| AmCursor.SkipLeaf | amlayer/amscan.c:321-341 | Passing an empty leaf does not change what is still to come; past the last leaf nothing is. |
| AmCursor.SettleAt | amlayer/amscan.c:385-405 | After the check on the previous record the cursor is on the next cell to return, even when the key before it was deleted or left a stale copy. |
| AmCursor.CellHere | amlayer/amscan.c:407-412 | The recId at the cursor is the first still to come. |
| AmCursor.StepInList | amlayer/amscan.c:410-412 | Within a list the cursor moves to the next cell. |
| AmCursor.StepToKey | amlayer/amscan.c:415-425 | After a list it moves to the next key. |
| AmCursor.StepToLeaf | amlayer/amscan.c:426-446 | After the last key it moves to the next leaf, or the scan is over. |
| AmCursor.CutSameList | amlayer/amfns.c:183-205 | Deleting the returned recId from a list with more to come keeps the cursor right. |
| AmCursor.CutKeyKept | amlayer/amfns.c:183-205 | So does deleting it from the key before the cursor's, if that key stays. |
| AmCursor.CutKeyGone | amlayer/amfns.c:214-224 | And if that key goes: the cursor is then one slot too far or on the stale last slot. |
| AmCursor.ScanSurvivesDelete | amlayer/amscan.c:387-446 | Deleting the pair that a scan returned last never changes what the scan will return. |
| AmScan.Scan.OpenAll | amlayer/amscan.c:80-94 | A scan of all will return every pair in key order, newest first within a key. |
| AmScan.OpenIndexScan | amlayer/amscan.c:25-276 | Which error is returned and when, AME_PF exactly when the scan does not open; a NULL value gives a scan of all, and EQUAL, GREATER_THAN and GREATER_THAN_EQUAL scans will return exactly the pairs that satisfy the operator. |
| AmScan.Scan.Open | amlayer/amscan.c:96-276 | The same from the search on; the search path stays on the stack. |
| AmScan.OpensIff | amlayer/amscan.c:111-126 | The scan opens if and only if the branch for a value past the last key of a leaf with a next page is not taken, and a leaf has no next page exactly when it is the last. |
| AmScan.NextNotFixed | amlayer/amscan.c:113-120 | The page named by the next leaf's header is neither of the two pages that are fixed, so unfixing it fails. |
| AmScan.Scan.Start | amlayer/amscan.c:133-276 | The row that the switch on the operator sets up. |
| AmScan.Scan.SkipEmptyLeaves | amlayer/amscan.c:321-341 | The loop stops at a leaf with keys, or at the end with nothing to come. |
| AmScan.Scan.FindNextEntry | amlayer/amscan.c:280-469 | The first pair still to come is returned and the rest will be; with none left, AME_EOF. |
| AmScan.Scan.CheckPrevious | amlayer/amscan.c:385-405 | The row after the check. |
| AmScan.Scan.Advance | amlayer/amscan.c:407-452 | The row after the step. |
| AmScan.GetLeftPageNum | amlayer/amscan.c:487-505 | The page is the leftmost leaf: 0 while the root is a leaf, 2 afterwards. |
| AmScan.WantedHere | amlayer/amscan.c:133-276 | The pairs an operator wants are those from the place of the value in its leaf, then those of the leaves after it. |
| AmDrain.ScanAndDelete | amlayer/DOC:54-63 | A scan of all during which any of the returned records are deleted returns every recId once, in order, then AME_EOF, and leaves exactly the pairs not deleted. |
| AmDrain.Follow | amlayer/amscan.c:280-469 | From any opened scan to AME_EOF, deleting any of what it returns: it returns exactly what it was to return, in order, and the index loses exactly the pairs deleted. |
| AmDrain.SelectAndDelete | amlayer/amscan.c:25-469 | A scan for EQUAL, GREATER_THAN or GREATER_THAN_EQUAL to its end, if it opens: the recIds whose key is equal, above, or at least the value, each once, in order, and of those pairs exactly the deleted ones are gone. |
| AmDrain.WantedSlice | amlayer/amscan.c:133-276 | The pairs that an operator selects are a contiguous part of the pairs of the index: all keys in it satisfy the operator and none before or after does. |
| AmDrain.WantedEqual | amlayer/amscan.c:133-151 | For EQUAL they are the list of the value, in its order. |
| AmDrain.Drain | amlayer/DOC:54-63 | Deleting every record as it comes returns everything in order and leaves the index empty. |
| AmLimits.ManyKeys | amlayer/amfns.c:247-353 | Inserting the keys 0 to 83 with a 4-byte attribute makes an index of more than one leaf. |
| AmLimits.RootSeparator | amlayer/amsearch.c:48-82 | The predecessor of the root's first separator belongs to a leaf that is not the last, right before the leaf that starts at the separator. |
| AmLimits.NoneAbove | amlayer/amscan.c:111-126 | An absent key whose successor starts the next leaf is past the last key of its leaf: the scan does not open. |
| AmLimits.OpenFails | amlayer/amscan.c:96-120 | An index reached by insertions and at most one deletion on which opening a scan answers AME_PF. |
| AmLimits.PresentOpens | amlayer/amscan.c:111-126 | A scan opens on every key that is in the index. |
| AmLimits.FillStack | amlayer/amscan.c:96-276 | Opening a scan for a key that is there again and again, each time with success, leaves a path each time until the 50 entries of the stack cannot hold another. |
| PfStore.FrameTakenKeeps | pflayer/buf.c:94-187 | Taking a frame forgets no page and evicts no fixed one; it fails with PFE_NOBUF exactly when all frames hold fixed pages. |
| PfStore.GetKeeps | pflayer/buf.c:192-277 | Which error PFbufGet reports; no page's content changes, and only the page asked for becomes fixed. |
| PfStore.UnfixKeeps | pflayer/buf.c:279-325 | Unfixing changes no page; unfixed clean pages equal the disk afterwards if and only if the caller kept to the discipline. |
| PfStore.AllocKeeps | pflayer/buf.c:327-377 | A new page is fixed with whatever its frame held; no other page changes. |
| PfStore.UsedKeeps | pflayer/buf.c:440-478 | Marking a page used changes no content, and after it the page may be unfixed clean whatever was written to it. |
| PfStore.StoreKeeps | pflayer/pf.c:515-567 | Writing through the pointer to a fixed page changes that page only. |
| PfStore.ReleaseKeeps | pflayer/buf.c:380-437 | Releasing a file changes no page; on success none of its pages is in the pool and all are on disk. |
| PfStore.ReleaseFails | pflayer/buf.c:380-437 | It fails exactly when one of the file's pages is fixed. |
| PfStore.ReleaseTakes | pflayer/buf.c:404-436 | Releasing takes from the pool just the pages of the file that are nearer the front than its first fixed page, all of them if there is none. |
| PfRun.StepRefines | pflayer/buf.c:192-478 | Every disciplined call keeps the pool in order, and the contents of all pages stay those of a store without buffers (the error code is the pool's). |
| PfRun.RunRefines | pflayer/buf.c:192-478 | Cache transparency over every run of disciplined calls: the pool over the disk refines the plain page map. |
| PfRun.StampsKept | pflayer/buf.c:94-437 | Every call keeps the used list in the order of last unfixes. |
| PfRun.LastUnfixIs | pflayer/buf.c:279-325 | The last unfix of a page is the latest call of the run that unfixed it with success. |
| PfRun.EvictsOldest | pflayer/buf.c:94-182 | In every run from an empty pool: a page that PFbufGet or PFbufAlloc takes the frame of is one that nobody has fixed, and that happens only with no free frame and no more frames to be had; under policy 0 its last unfix is older than that of every other such page, under another policy newer. |
| PfRun.EvictsIff | pflayer/buf.c:94-182 | A successful get or allocation takes the frame of some page if and only if the page asked for has none, no frame is free and no more can be had. |
| PfPool.GetWrites | pflayer/buf.c:164-171 | PFbufGet writes a page exactly when it takes a dirty frame from it. |
| PfPool.AllocWrites | pflayer/buf.c:164-171 | So does PFbufAlloc. |
| PfLost.GetsFix | pflayer/buf.c:192-277 | Getting other pages that are there fixes them all, as long as an unfixed page still has its frame. |
| PfLost.Dropped | pflayer/buf.c:164-180 | For every pool size and policy, an unfixed page in a clean frame is what the disk holds once as many other pages have been got as there are frames. |
| PfLost.KeptIff | pflayer/buf.c:279-325 | For every pool size and policy, a page unfixed clean keeps its content through that if and only if the caller kept to the discipline; otherwise it goes back to what the disk holds. |
| PfLost.TakenPageLost | pflayer/pf.c:596-605 | In the pool of 20 frames, a page that PF_AllocPage took from the free list and the client unfixed clean stays in use if and only if its frame was dirty; otherwise its link is that of a free page again, and the chain does not have it. |
| PfLost.PageLost | pflayer/pf.c:596-605 | A file of 21 pages, one of them free, on which that loses the page. |
| PfLru.RecencyDistance | pflayer/buf.c:228-264 | A page is as far back in the order of recency as different pages were requested since. |
| PfLru.SinceIs | pflayer/buf.c:192-325 | The pages requested since the last request of a page are those requested after it. |
| PfLru.RequestWorks | pflayer/buf.c:192-325 | A run of get and unfix never fails on pages that exist. |
| PfLru.MissIff | pflayer/buf.c:192-325 | Under policy 0 a request is a physical read exactly when the page was never requested or at least cap different others were since. |
| PfLru.ReadsMonotone | pflayer/buf.c:192-325 | A larger pool never reads more. |
| PfLru.ReadsAre | pflayer/buf.c:192-325 | The physical reads of a run are as many as its requests of a page not requested before, or with at least cap different others since. |
| PfHash.HashTable.Init | pflayer/hash.c:12-30 | The table is empty. |
| PfHash.HashTable.Find | pflayer/hash.c:33-66 | The frame of the page in the map that the chains stand for, or null. |
| PfHash.HashTable.Insert | pflayer/hash.c:68-119 | An error exactly when the page is there already; else it is added and nothing else changes. |
| PfHash.HashTable.Delete | pflayer/hash.c:121-166 | An error exactly when the page is not there; else it is taken away and nothing else changes. |
| PfFrames.Lists.InsertFree | pflayer/buf.c:15-26 | The frame is first on the free list. |
| PfFrames.Lists.LinkHead | pflayer/buf.c:29-55 | The frame is first on the doubly linked used list. |
| PfFrames.Lists.Unlink | pflayer/buf.c:57-91 | The frame is off the used list and the others stay in order. |
| PfBuffer.BufMgr.Init | pflayer/buf.c:1-14 | An empty pool. |
| PfBuffer.BufMgr.PoolIsOk | pflayer/buf.c:94-187 | Valid pointer structures give the pool invariant that PfStore and PfRun assume: different pages in the frames, and never more frames than allowed. |
| PfBuffer.BufMgr.FindVictim | pflayer/buf.c:147-162 | The walk finds the last or first unfixed frame, or null when all are fixed. |
| PfBuffer.BufMgr.InternalAlloc | pflayer/buf.c:94-187 | A frame at the head of the used list, from the free list, from malloc, or from the victim, which is on disk first. |
| PfBuffer.BufMgr.Evict | pflayer/buf.c:164-180 | The victim is written if dirty, off the hash table and off the list. |
| PfBuffer.BufMgr.Get | pflayer/buf.c:192-277 | The pointer structures do what PfPool.Get says, and the hash table and the used list agree; logical reads count every call, physical reads the calls that read a page, physical writes those after which a page in a dirty frame is no longer in the pool. |
| PfBuffer.BufMgr.ReadIn | pflayer/buf.c:228-262 | The same for a page that is not in the pool; a failed read gives its frame back. |
| PfBuffer.BufMgr.Unfix | pflayer/buf.c:279-325 | PfPool.Unfix: the page becomes the most recent. |
| PfBuffer.BufMgr.Alloc | pflayer/buf.c:327-377 | PfPool.Alloc: the page starts with what its frame held; the write counter as for Get. |
| PfBuffer.BufMgr.ReleaseFile | pflayer/buf.c:380-437 | PfPool.ReleaseFile: up to the first fixed page; no counter changes. |
| PfBuffer.BufMgr.ReleaseStep | pflayer/buf.c:390-432 | One frame of the walk: a page of the file leaves the pool, written first if dirty, and the rest of the walk is the same function. |
| PfBuffer.BufMgr.WriteFixed | pflayer/pf.c:515-567 | Writing through the pointer to a fixed page changes the content of that page only. |
| PfBuffer.BufMgr.Used | pflayer/buf.c:440-478 | PfPool.Used. |
| PfChain.InUseIff | pflayer/pf.c:453-513 | A page is in use exactly when it is below numpages and not on the free chain. |
| PfChain.ChainTakes | pflayer/pf.c:596-605 | Taking the first free page leaves the rest of the chain. |
| PfChain.FileGrows | pflayer/pf.c:606-622 | A page past the end is in use and not on the chain. |
| PfChain.ChainAdds | pflayer/pf.c:640-690 | A disposed page is the new head of the chain, which stays acyclic. |
| PfFs.AllocFromChain | pflayer/pf.c:596-632 | Allocation from the chain keeps every file in order. |
| PfFs.AllocAtEnd | pflayer/pf.c:606-632 | So does allocation at the end. |
| PfFs.DisposeUsed | pflayer/pf.c:640-690 | So does disposing of a used page. |
| PfFs.ReleasedFile | pflayer/pf.c:387-389 | A released file has no page in the pool and all its pages on disk as they were. |
| PfFile.Files.Init | pflayer/pf.c:176-197 | No files and an empty pool. |
| PfFile.Files.GetThisPage | pflayer/pf.c:515-567 | Which error is returned and when; the pointer is to the page's frame; the page is fixed only on PFE_OK, and then may be unfixed clean; no page changes. |
| PfFile.Files.GetNextPage | pflayer/pf.c:453-513 | Which error is returned and when, also while pages are fixed: the least page above the argument that is in use or fixed decides, a full pool stops at the first page; on success the page found is fixed, and nothing else changes. |
| PfFile.Files.GetFirstPage | pflayer/pf.c:427-450 | The same from the start of the file. |
| PfFile.Files.AllocPage | pflayer/pf.c:569-638 | The page returned was not in use and is now, fixed; no other page changes; PFE_NOBUF exactly when all frames are fixed. |
| PfFile.Files.TakeFreePage | pflayer/pf.c:596-605 | The case of a chain that is not empty. |
| PfFile.Files.AddPage | pflayer/pf.c:606-632 | The case of an empty chain: the file grows by one page, which may be unfixed clean. |
| PfFile.Files.GrowFile | pflayer/pf.c:612-632 | The header counts the new page, and its frame is dirty and marked used. |
| PfFile.Files.InUseMeans | pflayer/pf.c:453-513 | In every valid state the pages in use are those below numpages that are not on the chain. |
| PfFile.Files.DisposePage | pflayer/pf.c:640-690 | Which error is returned and when; on success the page is no longer in use and is the first of the chain. |
| PfFile.Files.UnfixPage | pflayer/pf.c:692-721 | By a disciplined client it changes no page. |
| PfFile.Files.FillPage | pflayer/pf.c:515-567 | Writing the data of a fixed page changes that page only and keeps every file in order. |
| PfFile.Files.CreateFile | pflayer/pf.c:216-260 | An error exactly when the file exists; else a file with no pages. |
| PfFile.Files.OpenFile | pflayer/pf.c:297-360 | An error exactly when there is no such file; else the header comes from disk as it was left. The policy of the pool is set in both cases. |
| PfFile.Files.CloseFile | pflayer/pf.c:362-424 | It fails exactly when a page of the file is fixed; else no frame holds its pages and pages and header are on disk as they were. |
| PfClient.Serve | pflayer/buf.c:192-325 | On the pointer structures, a run of requests reads from disk once for each request of a page not requested before, or since whose last request at least PF_MAX_BUFS different others were. |
| PfClient.AllocAndDispose | pflayer/pf.c:569-690 | Disposing of the page just allocated restores the pages in use; if it came from the chain, the chain and the header too. |
| PfClient.UnfixAndDispose | pflayer/pf.c:640-721 | A page unfixed dirty and disposed of is out of use and first of the chain. |
| PfClient.Call | pflayer/buf.c:192-478 | Any disciplined call on the pointer structures is the step that PfRun runs over, and contents refine the plain page map. |
| PfClient.WritePage | pflayer/pf.c:569-721 | A page allocated, written and unfixed dirty is in use and holds the data; no other page changes. |
| PfClient.WriteAndReopen | pflayer/pf.c:297-424 | Data written to a page is read back after the file was closed and opened again. |
| PfClient.ListPages | pflayer/pf.c:427-513 | PF_GetFirstPage and then PF_GetNextPage to the end, each page unfixed before the next, meet exactly the pages not on the free chain, once each, in ascending order, then PFE_EOF; no page changes. |
| BlPages.Packed | bulklayer/blbulk.c:11-41 | Which pages a packed level has, and that all but the last are full. |
| BlPages.LeavesLinked | bulklayer/blbulk.c:11-24 | In a loaded index every leaf that names a next one is named back by it, only the first leaf names none before it, and only the last none after it. |
| BlPages.EntriesFit | bulklayer/blinternal.h:39-43 | As many entries go on a page as fit after its header. |
| BlPages.NodeEndsOk | bulklayer/blbulk.c:25-37 | A packed level of nodes cuts the data into non-empty pieces in order. |
| BlPages.LevelEnds | bulklayer/blbulk.c:11-38 | So does every level of a loaded index. |
| BlPages.LeastLevels | bulklayer/blbulk.c:25-41 | numLevels <= h if and only if n <= Mleaf * Mint^(h-1): it is the least height with room. |
| BlPages.RoomIs | bulklayer/blbulk.c:25-41 | The room of an index of one level is 510 entries, and each further level multiplies it by 510. |
| BlBulk.L.Extend | bulklayer/blbulk.c:6 | There is room for one more, and the list is as it was. |
| BlBulk.L.Add | bulklayer/blbulk.c:13 | One more page at the end of the list. |
| BlBulk.LeafFilled | bulklayer/blbulk.c:11-24 | A leaf that is full, or holds the last of the data, is leaf m of the packed level. |
| BlBulk.NodeFilled | bulklayer/blbulk.c:25-37 | A node that is full, or over the last of the pages below, is node m of the packed level. |
| BlBulk.CreateIndex | bulklayer/bl.c:10-41 | An error exactly when the file cannot be made, opened or extended; else an index with nothing in it. |
| BlBulk.Bulk.Create | bulklayer/bl.c:29-35 | The header page: no root, no leaves, keys of type i and length 4. |
| BlBulk.Bulk.FinishLeaf | bulklayer/blbulk.c:12-14 | The leaf is written and its largest key and page number are listed. |
| BlBulk.Bulk.TurnPage | bulklayer/blbulk.c:12-19 | A full leaf is finished and chained to the page after it. |
| BlBulk.Bulk.LoadLeaves | bulklayer/blbulk.c:11-24 | The leaves are packed, chained both ways, and hold the data in order; the list has the largest key of each. |
| BlBulk.Bulk.FinishNode | bulklayer/blbulk.c:26-29 | The node is written and listed. |
| BlBulk.Bulk.LoadLevel | bulklayer/blbulk.c:25-37 | A packed level of nodes over the level below, each key the largest under its child. |
| BlBulk.Bulk.BulkLoad | bulklayer/blbulk.c:8-41 | No records leave the index as it is; any others become a valid index of packed levels up to one root, of the least height. |
| BlSearch.Bs | bulklayer/blsearch.c:3-5 | A slot with the key if there is one, else the number of smaller keys; duplicates allowed. |
| BlSearch.Descends | bulklayer/blsearch.c:15-18 | If the key occurs under the node, it occurs under the child chosen, duplicates included. |
| BlSearch.LeafAnswers | bulklayer/blsearch.c:12-15 | Whether the leaf holds the key decides whether the data does. |
| BlSearch.BL_Search | bulklayer/blsearch.c:6-18 | For any sorted data the search ends, succeeds exactly when the key occurs, and returns a value paired with it. |
| BlScan.MatchingIsFilter | bulklayer/blscan.c:3-5 | The rows of a scan are exactly the entries from its position on whose key is equal to, below, above, at most, at least or other than the scan key, as the operator says, each once, in order; for any other operator none. |
| BlScan.ScanDesc.OpenScan | bulklayer/blscan.c:6-10 | The scan will return all matching entries. |
| BlScan.ScanDesc.GetNext | bulklayer/blscan.c:11-20 | The next matching entry, its key compared with the scan key as the operator says, or BL_EOF when none is left, or BL_ERROR when the scan is closed. |
| BlScan.ScanDesc.CloseScan | bulklayer/blscan.c:21 | The scan is closed. |
| BlScan.ScanAll | bulklayer/blscan.c:11-20 | Calling it until BL_EOF returns exactly the entries whose keys compare with the scan key as the operator says, in order. |
| SpBytes.IntRoundTrip | splayer/sptype.h:25-41 | An integer stored in four bytes reads back as itself, negative ones too. |
| SpStore.AddedDead | splayer/sp.c:205-219 | An insert takes length plus slot from gap and total, and leaves the dead bytes as they are. |
| SpStore.RemovedDead | splayer/sp.c:245-259 | A delete gives the record's bytes to the total; they are dead until the total passes half a page, and then none are. |
| SpStore.InsertKeepsSpace | splayer/sp.c:143-227 | Inserts keep at most half a page dead on every page. |
| SpStore.DeleteKeepsSpace | splayer/sp.c:235-265 | So do deletes. |
| SpStore.NextLiveIsNext | splayer/sp.c:352-422 | The record a scan goes to is the least live one after its position. |
| SpPage.NoOverlap | splayer/sp.c:204-217 | In the bytes of a page, no byte of a live record belongs to another live record or to the directory. |
| SpPage.InitNewPage | splayer/sp.c:84-95 | The bytes of a page without records. |
| SpPage.AddRecord | splayer/sp.c:201-219 | The page holds the records it had and the new one, byte for byte, in a new slot. |
| SpPage.MoveRecords | splayer/sp.c:109-122 | Every live record is in the temporary page, at the place its slot now names. |
| SpPage.CompactPage | splayer/sp.c:102-135 | The same records in the same slots, and all free bytes contiguous. |
| SpPage.RemoveRecord | splayer/sp.c:245-260 | For a slot handed out: the record is gone, the others are unchanged, and the page is compacted exactly when more than half of it is free. For any other slot in the page: the page stays in order if and only if the bytes there read as deleted. |
| SpPage.MarkDeleted | splayer/sp.c:245-257 | For any slot in the page: unless it reads as deleted, its length, the record count and the free bytes change and no other byte does. |
| SpPage.MarkedBeyond | splayer/sp.c:251-258 | After marking a slot that was not handed out the record count is one short, and compaction does not mend it. |
| SpPage.OverwriteRecord | splayer/sp.c:245-256 | A page with one live record, and a slot number not handed out whose deletion writes into that record. |
| SpFile.File.FindRoom | splayer/sp.c:155-181 | The first page whose free bytes in the middle hold record and slot (length + 8), read off its bytes, or none. |
| SpFile.File.InsertRec | splayer/sp.c:143-227 | The record goes to the first page with room, or to a new one exactly when every page has less than length + 8 bytes in the middle, and the RID names its slot. |
| SpFile.File.DeleteRec | splayer/sp.c:235-265 | An error exactly when there is no such page; that record is deleted if its slot was handed out; else the file stays as it was or is no longer in order, the former exactly when the bytes at the slot read as deleted. |
| SpFile.File.GetThisRec | splayer/sp.c:266-327 | The record's bytes if and only if page and slot exist, the slot is live and the record is not longer than the buffer; else an error. |
| SpFile.File.GetNextRec | splayer/sp.c:352-422 | The first live record after the RID if there is one and it is not longer than the buffer; else an error. |
| SpFile.ScanAll | splayer/sp.c:339-422 | From the first record on until the scan stops: every live record exactly once, in RID order. |
| SpHistory.NeverReissued | splayer/sp.c:204-224 | No RID is handed out twice, even after its record is deleted. |
| SpHistory.Remembered | splayer/sp.c:143-327 | In every run a RID gives exactly the inserted bytes until it is deleted, and nothing ever after. |
| SpHistory.OnlyInserted | splayer/sp.c:143-327 | Every RID with a record was returned by an insert of that record. |
| SpHistory.RunSpace | splayer/sp.c:84-262 | On every page of every run the free bytes add up and at most half a page is dead. |
| SpHistory.Perform | splayer/sp.c:143-265 | The operations on the bytes give the file and the RIDs of the run. |
| SpHistory.RunOkIff | splayer/sp.c:143-265 | The runs considered: each record fits on an empty page, and each delete names a slot that its page has handed out, or no page. |
| SpHistory.ReadBack | splayer/sp.c:143-327 | After any run, a buffer of at least the record's length reads back what an operation inserted as long as its RID has not been deleted; otherwise the answer is an error. |

## Left out

- The bytes of an `amlayer` page: key slots and recId cells are separate arrays indexed by slot number and by byte offset, and the header is a record. Offsets, sizes and the free list are those of the bytes; that slots and cells do not collide is part of a well-formed leaf, not a consequence of overwriting.
- Key types: one order of integers stands for the int, float and string comparisons of `AM_Compare`; an attribute length does not limit the keys.
- Fixing and unfixing of pages by `amlayer`, the answers after which pages stay fixed, and exits on errors of the paged files except in `AmIndex.CreateIndex`: its pages are a sequence, as `AM_InsertEntry` sees them when no page of the index is fixed and nothing fails. Page numbers are unbounded; `AmRun.Run` bounds the number of operations so that they fit an int.
- `AM_EmptyStack`, `AM_RootPageNum` and `AM_LeftPageNum` across several open indexes: one index is open.
- Scan operators LESS_THAN, LESS_THAN_EQUAL and NOT_EQUAL, which compare page numbers as if they followed the chain of leaves, and the allocation of rows of `AM_scanTable`.
- A recId equal to AME_EOF or another negative code, which a caller of `AM_FindNextEntry` cannot tell from that code.
- AmLeafBuf.LeafBuf.CompactInPlace: requires a key, because `AM_Compact` leaves keyPtr undefined on an empty range; AmFull.DefinedIffCanTake is the exact condition on the leaf.
- AmLeafBuf.CompactKeys: requires a range with a key in it, for the same reason.
- AmLeafBuf.Compact: requires a range with a key in it, for the same reason.
- AmLeafBuf.LeafBuf.InsertintoLeaf: requires a leaf that does not compact the empty range (one that is not Stranded), for the same reason.
- AmHalves.SplitHalves: requires two keys, for the same reason: with one, `AM_SplitLeaf` compacts the range 1..0.
- AmIndex.Index.SplitLeaf: requires two keys, for the same reason.
- AmIndex.Index.InsertBySplit: requires two keys, for the same reason.
- AmIndex.Index.InsertEntry: requires Takes for a correct value (the leaf is one on which CanTake holds), because elsewhere the source reads a page with an undefined keyPtr, and room on the stack for a path.
- AmIndex.Index.InsertFound: requires Takes and room on the stack, for the same reasons.
- AmIndex.Index.PushStack: requires a free entry; the source writes past the array otherwise, as it would after AmLimits.FillStack.
- AmIndex.Index.Search: requires room on the stack for a path, for the same reason.
- AmIndex.Index.DeleteEntry: requires room on the stack for a path, for the same reason; and it does not say that AME_NOTFOUND leaves the leaf fixed, so that it describes a call that finds no page of the index fixed.
- AmIndex.Index.DeleteFound: requires room on the stack for a path, for the same reason.
- AmRun.Run: requires an orderly run; a run that is not may reach a leaf without CanTake (AmFull.FillOneKey) or fill the stack (AmLimits.FillStack).
- AmScan.OpenIndexScan: requires room on the stack for a path, an operator other than LESS_THAN, LESS_THAN_EQUAL and NOT_EQUAL unless the open fails, and for a NULL value the right attribute length, which the source then does not check and reads a recId pointer at the wrong offset.
- AmScan.Scan.Open: requires room on the stack for a path and an operator other than those three unless the open fails.
- AME_SCAN_TAB_FULL of `AM_OpenIndexScan`: one row of the scan table is modelled.
- PfFile.Files.UnfixPage: requires the client to keep to the discipline; PfLost.KeptIff shows what happens otherwise.
- PfFile.Files.OpenFile: requires the file not to be open; a file opened twice has two descriptors and two sets of buffers in the source.
- File names, descriptors of files opened twice, malloc that fails, and reads and writes of the disk that fail: the disk is a map from pages to contents. A page past the end of the disk file is an incomplete read.
- Allocation in `bulklayer` and `splayer` on a file with free pages: neither layer disposes of pages, so a new page is one past the end.
- Errors of the paged files under `bulklayer` and `splayer` (BL_ERROR and SP_ERROR from a page that cannot be fixed): their pages are a sequence.
- Opening, closing and statistics of index files.
- SpPage.RemoveRecord: requires a slot that lies in the page and a length read there that can be added to the free bytes; outside, the source reads and writes beyond the page or overflows an int.
- SpPage.MarkDeleted: requires the same of its slot.
- SpFile.File.DeleteRec: requires the same of its slot.
- SpFile.File.GetNextRec: requires a slot number of -1 or more; below, the source reads the header as slots.
- SpFile.File.InsertRec: requires the record to fit an empty page (at most 4068 bytes), because the source writes past the start of a new page otherwise.
- `am_bulkload.c`, printing, statistics, plotting and the programs around the layers.
