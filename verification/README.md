# ramfs, modelled and proved in Dafny

ramfs is a small file system in RAM, written in C. A directory keeps its children in one of two
indexes: an array sorted by name (`src/ramfs_vector.c`) or a red-black tree (`src/rbtree.c`). This
project models

- the red-black tree, with its parent pointers, its null node shared by all trees, its two upward
  fixup loops and its deletion that trades the places of two nodes by rewiring links;
- the file system over sorted arrays: binary search, path walking, create, mkdir, unlink, rmdir,
  rename, printing of paths, file handles, directory cursors, teardown;
- the two indexes side by side, as the same ordered set of names.

## How it is built

The code changes things in place, and so does the model: `RbTree`, `Node`, `RamFs`, `Entry`,
`Handle`, `Cursor` and `Memory` are classes whose methods make the assignments that the C functions
make, behind the same tests. What they do is stated about ghost values.

- A red-black tree has a ghost `tree`, an inductive tree of node objects. A position in it is a
  context `Ctx` (the way from the node up to the root) and the subtree below; `Plug` puts them
  together. `cells` is a map from node to its four fields, and `Formed` says that these fields are
  the links and colours of the tree. Rotation, painting, trading places and unlinking are lemmas
  about maps of cells (`RbLinks`, `RbSwap`); the methods of `RbTree` realise them. `Valid` is the
  whole invariant: links in both directions, key order, black root, no red node with a red child,
  equal black heights, right count, null node black and linked to itself. `rotations` counts.
- A file system has a ghost `store`, a map from entry to parent, name, type and children. `Walk`
  follows a sequence of names from a directory. `Inv` is the invariant: children strictly sorted
  by name, names non-empty and without slash, every entry but the root listed by exactly the
  directory that its parent pointer names, and every entry reached from the root, so that the
  parent relation has no cycle. `PathMaps` abstracts further, to a finite map from sequences of names
  to entries, each known by the number of the operation that made it.

| file | about |
|---|---|
| `Names.dfy`, `Powers.dfy` | the order of names, sorted lists and slots in them; powers of two |
| `RbShape.dfy`, `RbLinks.dfy`, `RbBalance.dfy`, `RbOrder.dfy`, `RbSwap.dfy` | trees and contexts, their cells, colours and heights, keys, two nodes that trade places |
| `RbTree.dfy`, `RbMeaning.dfy`, `RbShared.dfy` | the operations of the tree; what a valid tree is, said of its pointers; two trees that share the null node |
| `FsStore.dfy`, `FsChanges.dfy`, `FsMove.dfy`, `Paths.dfy` | the store and walking in it, adding and deleting, moving, the text of paths |
| `RamFs.dfy`, `PathMap.dfy`, `FsRuns.dfy`, `RenameExamples.dfy` | the operations on paths, what they mean, all runs of them, two renames that go wrong |
| `Teardown.dfy`, `Files.dfy`, `DirCursor.dfy` | recursive freeing, file handles, directory cursors |
| `NameIndex.dfy` | the tree and the array as one index |

## Assumptions

- Every allocation succeeds. `remove_index` shifts before a shrinking `realloc` that may fail
  (`src/ramfs_vector.c:117-123`), and `ramfs_rename` removes before an `insert` that may fail
  (`src/ramfs_vector.c:574-584`).
- A name or a path is a sequence of the bytes 1 to 255, compared as unsigned bytes (`strcmp`).
  The root has no name (its pointer is NULL); it is modelled as the empty name.
- At size zero `realloc` frees the buffer and may return NULL, which `ramfs_truncate` reports as a failure
  although the buffer is gone (`src/ramfs_vector.c:364-367`). Which of the two `realloc` does is a parameter
  of the model; runs over handles leave out the failing call on a file that is not empty.
- `ramfs_unlink` and `ramfs_rmdir` are called on an entry of this file system, and `ramfs_rmdir` not on an
  empty root, which has no parent for the code to look in.
- `pos + len` in `ramfs_write`, and positions in `ramfs_seek`, do not wrap around.
- A node given to insert is in no other tree; its key does not change while it is in one (the tree never
  writes the key, which is a constant field here). Keys are not NULL.
- New bytes that `realloc` leaves undefined are arbitrary in the model (`Files.Realloc`).

## Where the code does not do what is wanted of it

- `ramfs_rename` tests neither that the new name is non-empty nor that the new place is not at or
  under the old one (`src/ramfs_vector.c:558-582`). `RamFs.Rename` is proved to keep the invariant
  exactly when the call fails, or changes nothing, or meets both conditions. `RenameExamples` has two
  calls after which it does not hold, wherever they are possible: a to a/b, and a to b/.
- `ramfs_truncate` returns 0 for success and -1 for failure; its comment says 1 and 0
  (`include/ramfs/ramfs.h:139`). The model follows the code.
- `ramfs_seek` puts a negative position at 0; its comment announces -1
  (`include/ramfs/ramfs.h:183`). The model follows the code.
- `ramfs_rbtree_next` and `ramfs_rbtree_previous` end at the null node; their comments say NULL
  (`src/rbtree.h:174`, `src/rbtree.h:181`). `first` and `last` do return NULL on an empty tree.
- The first test for an empty last name in create and mkdir adds where it should subtract
  (`src/ramfs_vector.c:314`, `src/ramfs_vector.c:661`), so it sees only the path that is empty
  altogether; the later `strlen` test (lines 326 and 674) catches a path that ends in a slash.

## Model

| member | source | states |
|---|---|---|
| RbTrees.RbTree.Insert | src/rbtree.c:237-283 | From any valid tree a valid tree: NULL exactly when the key is present, which includes a node that is in this tree already, and then nothing at all has changed; otherwise the in-order sequence is the old one with that node at the one sorted place for its key, all other node objects kept, count one more, at most two rotations |
| RbTrees.RbTree.Descend | src/rbtree.c:243-260 | The way down finds the key, or ends in the gap where it belongs, with the parent and the last comparison telling which pointer leads there |
| RbTrees.RbTree.InsertFixup | src/rbtree.c:168-229 | A red node under a possibly red parent becomes a red-black tree again with the same nodes in the same order, in at most two rotations |
| RbTrees.RbTree.RaiseTurn | src/rbtree.c:174-227 | One turn moves the red pair strictly nearer the root without a rotation, or leaves no violation after at most two |
| RbTrees.RbTree.RaiseLeft | src/rbtree.c:196-199 | With the red node on the outside, two paints and one rotation at the grandparent leave no violation, same nodes, same order |
| RbTrees.RbTree.RecolorLeft | src/rbtree.c:180-189 | With a red uncle the violation moves exactly two levels up, without a rotation, and nothing else is broken |
| RbTrees.RbTree.RestructureLeft | src/rbtree.c:190-200 | With a black uncle one or two rotations leave no violation at all |
| RbTrees.RbTree.RecolorRight | src/rbtree.c:204-214 | The same on the other side |
| RbTrees.RbTree.RestructureRight | src/rbtree.c:215-225 | The same on the other side |
| RbTrees.RbTree.RotateLeft | src/rbtree.c:117-139 | The pointer writes realise a left rotation anywhere in the tree, in-order sequence and node set kept, the null node not written |
| RbTrees.RbTree.RotateRight | src/rbtree.c:144-166 | The same for a right rotation |
| RbTrees.RbTree.DeleteNode | src/rbtree.c:341-419 | Deleting any node of a valid tree leaves a valid tree whose in-order sequence is the old one without exactly that node object, count one less, the node itself unlinked and black, at most three rotations |
| RbTrees.RbTree.Exchange | src/rbtree.c:348-390 | The pointer writes make the two nodes trade places, also when the second is the right child of the first, and when the first is the root |
| RbTrees.RbTree.TradePlaces | src/rbtree.c:348-390 | The new tree is the old shape with the two nodes renamed into each other, still red-black, and differs from the old order only in where the node to delete stands |
| RbTrees.RbTree.SmallestRight | src/rbtree.c:349-353 | The loop ends at the leftmost node of the right subtree |
| RbTrees.RbTree.ChangeParentPtr | src/rbtree.c:313-328 | Exactly the pointers in `parent`, or the root, that led to one node lead to the other |
| RbTrees.RbTree.ChangeChildPtr | src/rbtree.c:330-339 | Exactly the parent pointer of a real child changes, and only if it led to the first node |
| RbTrees.RbTree.Unlink | src/rbtree.c:392-411 | Replacing a node by its only child, also when that is the null node, and mending the colours removes exactly that node from the order and keeps the discipline |
| RbTrees.RbTree.DeleteFixup | src/rbtree.c:430-541 | A subtree that is one black node short anywhere becomes a red-black tree again, same nodes, same order, at most three rotations |
| RbTrees.RbTree.FixupTurn | src/rbtree.c:450-485 | One turn either moves the shortage strictly up without a rotation or leaves a black sibling and a red node to finish with, after at most one |
| RbTrees.RbTree.BlackenSibling | src/rbtree.c:450-464 | A red sibling is rotated away: the new sibling exists and is black, the parent is red, the shortage is where it was |
| RbTrees.RbTree.Climb | src/rbtree.c:466-482 | Recolouring the sibling moves the shortage to the parent, whose sibling is found |
| RbTrees.RbTree.FinishFixup | src/rbtree.c:488-540 | From there a recolouring, or one or two rotations, end in a red-black tree |
| RbTrees.RbTree.SiblingLives | src/rbtree.c:437-442 | Next to a subtree that is one black node short there is a real sibling, never the null node |
| RbTrees.RbTree.Delete | src/rbtree.c:421-428 | NULL and nothing changed exactly when the key is absent; otherwise exactly the node with that key goes |
| RbTrees.RbTree.FindLessEqual | src/rbtree.c:543-571 | A match exactly when the key is present; otherwise a node of the tree whose key precedes the given one byte by byte, every other node preceding it or following the given key, or NULL if all nodes follow it; no more comparisons than the tree is high |
| RbTrees.RbTree.FindPlace | src/rbtree.c:549-570 | The loop ends at the match, or in the gap that is the place of the key, remembering the node before that gap |
| RbTrees.RbTree.Search | src/rbtree.c:289-298 | Map lookup: the node with that key, or NULL exactly if there is none; two to the number of comparisons is at most (count + 1) squared |
| RbTrees.RbTree.First | src/rbtree.c:576-587 | The first node in order, NULL for the empty tree |
| RbTrees.RbTree.Last | src/rbtree.c:589-600 | The last node in order, NULL for the empty tree |
| RbTrees.RbTree.Next | src/rbtree.c:605-624 | The next node in order, the null node after the last |
| RbTrees.RbTree.Previous | src/rbtree.c:626-645 | The node before, the null node before the first |
| RbTrees.RbTree.Traverse | src/rbtree.c:576-624 | First and then next visits exactly the nodes of the tree, each once, in strictly increasing order of key bytes, and ends after exactly count nodes |
| RbTrees.RbTree.TraverseBack | src/rbtree.c:589-645 | Last and then previous visits them in the opposite order |
| RbTrees.RbTree.NextThenPrevious | src/rbtree.c:605-645 | Previous undoes next unless the node is the last |
| RbTrees.RbTree.PreviousThenNext | src/rbtree.c:605-645 | Next undoes previous unless the node is the first |
| RbShared.InsertBeside | src/rbtree.c:56-63 | Inserting into one tree leaves another that shares the null node valid and unwritten, and the null node too |
| RbShared.DeleteBeside | src/rbtree.c:56-63 | The same for deleting, also when the null node is the child that moves up |
| RbShape.Node.Sentinel | src/rbtree.c:56-63 | The null node is black and linked to itself |
| RbBalance.LogarithmicHeight | src/rbtree.c:543-571 | In every red-black tree, two to the black height minus one is at most the count, the height is at most twice the black height, and so at most twice the logarithm of count plus one |
| RbMeaning.NodesMeaning | src/rbtree.h:60-86 | A valid tree, said of its pointers: its nodes are those that left and right pointers lead to from the root, and count is their number |
| RbMeaning.LinksMeaning | src/rbtree.h:60-71 | Parents and children point at each other, the root and both children of a red node are black |
| RbMeaning.OrderMeaning | src/rbtree.h:62-66 | Whatever the pointers lead to after going left at a node has a smaller key than the node, after going right a larger one |
| RbMeaning.BlackMeaning | src/rbtree.c:173-227 | Any two ways along the pointers from the root to the null node pass the same number of black nodes |
| RbBalance.PlugBalanced | src/rbtree.c:168-229 | A balanced subtree in a context that wants its height gives a red-black tree |
| RbBalance.UnplugBalanced | src/rbtree.c:430-541 | And the other way: any place of a red-black tree splits into such a subtree and context |
| RbLinks.Unplug | src/rbtree.c:117-166 | The links of a tree are those of any subtree and of the context around it, both directions |
| RbLinks.RotateLeftWhole | src/rbtree.c:117-139 | If the fields changed as the writes of a left rotation change them, they are the links of the rotated tree |
| RbLinks.RotateRightWhole | src/rbtree.c:144-166 | The same for a right rotation |
| RbLinks.RotateLeftOrder | src/rbtree.c:114-139 | A rotation changes neither the order nor the set of nodes |
| RbLinks.AttachFormed | src/rbtree.c:262-277 | The writes that hang a new red leaf give the links of the tree with that leaf in the gap |
| RbSwap.SwapFormed | src/rbtree.c:354-386 | Exchanging two nodes in all fields of all cells gives the links of the renamed tree |
| RbSwap.ParentsAreSwapped | src/rbtree.c:362-366 | The child pointers that led to the two nodes are exchanged |
| RbSwap.ChildrenAreSwapped | src/rbtree.c:368-376 | The parent pointers of their children are exchanged, the adjacent case included, although the code makes two of the calls twice |
| RbSwap.OwnAreSwapped | src/rbtree.c:377-386 | With their own fields exchanged, and an adjacent pair first tied to itself, every cell is exchanged |
| RbSwap.UnlinkFormed | src/rbtree.c:398-400 | Replacing a node by its only child gives the links of the tree without it |
| RbSwap.SpineOrder | src/rbtree.c:348-353 | The leftmost node of the right subtree is the next in order, so trading places and then dropping the node is dropping it from the old order |
| RbOrder.StepDown | src/rbtree.c:247-260 | One comparison keeps the sought key between everything before and everything after |
| RbOrder.KeyMissing | src/rbtree.c:554-570 | A search that ends in a gap proves the key absent and the gap its place |
| Names.CompareTotal | src/ramfs_rbtree.c:60-72 | The comparison of keys is a total order with NULL below every name, and zero exactly for equal keys |
| Names.CompareTransitive | src/ramfs_rbtree.c:60-72 | It is transitive, NULL included |
| Names.Trichotomy | src/ramfs_rbtree.c:71 | `strcmp` on names that are there is a strict total order that says zero exactly for equal names |
| Names.LessTransitive | src/ramfs_rbtree.c:71 | That order is transitive |
| Names.LessOnBytes | src/ramfs_vector.c:65 | A name is less than another if and only if, at the first place where they differ, it has the smaller unsigned byte or is at its end |
| Names.SlotUnique | src/ramfs_vector.c:75-76 | A name has at most one place in a sorted list |
| Names.InsertSorted | src/ramfs_vector.c:94-97 | Inserting at that place keeps the list strictly sorted |
| RamFsVector.RamFs.FindEntry | src/ramfs_vector.c:58-77 | The index of the child of that name, or a negative code whose decoding is the sorted place for it; no more comparisons than the list can be halved |
| RamFsVector.RamFs.FindEntryInt | src/ramfs_vector.c:58-77 | The same answer with every variable of a 32-bit type: up to 2^30 children no sum, difference or code leaves it |
| Powers.HalvingsLogarithmic | src/ramfs_vector.c:63-73 | A list of n can be halved one more time than the logarithm of n, rounded down |
| RamFsVector.RamFs.Lookup | src/ramfs_vector.c:58-77 | In a sound directory the search answers what the directory holds under that name |
| RamFsVector.RamFs.Insert | src/ramfs_vector.c:79-101 | In a directory the child goes to that index and points back; otherwise -1 and no change |
| RamFsVector.RamFs.RemoveIndex | src/ramfs_vector.c:103-129 | The child at the index goes and loses its parent; out of range or no directory: NULL and no change |
| RamFsVector.RamFs.Remove | src/ramfs_vector.c:131-139 | The lookup by name always finds, and what goes is that very entry object |
| RamFsVector.RamFs.constructor | src/ramfs_vector.c:141-150 | A new file system is sound and holds the root alone |
| RamFsVector.RamFs.GetParent | src/ramfs_vector.c:160-196 | The directory that walking the components before the last slash leads to; NULL exactly if it leads nowhere or not to a directory |
| RamFsVector.RamFs.GetEntry | src/ramfs_vector.c:198-229 | Exactly what walking the non-empty components from the root finds; NULL for a path with no last component |
| FsStore.WalkChain | src/ramfs_vector.c:174-228 | Where walking leads there is a chain of directories, each listing the next entry under the next name |
| FsStore.ChainWalks | src/ramfs_vector.c:174-228 | And where such a chain ends, walking ends |
| FsStore.ParentsLeadToRoot | src/ramfs_vector.c:245-248 | From every entry, going from parent to parent leads to the root and never around in a circle |
| RamFsVector.RamFs.PathLength | src/ramfs_vector.c:240-248 | The first loop counts the length of the printed path, a slash and a name for the root included |
| RamFsVector.RamFs.FillPath | src/ramfs_vector.c:250-260 | The second loop fills exactly that many bytes with exactly that text |
| RamFsVector.RamFs.GetPath | src/ramfs_vector.c:238-263 | For every entry, a slash and then the names that lead to it, each after a slash |
| RamFsVector.RamFs.GetEntryOfPath | src/ramfs_vector.c:198-263 | Looking up the printed path of any entry but the root finds that entry |
| RamFsVector.PrintedParses | src/ramfs_vector.c:238-263 | Splitting a printed path gives the names it was printed from |
| RamFsVector.RamFs.Make | src/ramfs_vector.c:304-350 | Works exactly when the directory exists and the last name is non-empty and free; adds one empty entry at its sorted place and changes nothing else |
| RamFsVector.CreatableMeans | src/ramfs_vector.c:304-329 | That condition, told by walking: the last name is not empty, the components before it lead to a directory, the whole path leads nowhere |
| RamFsVector.RamFs.Create | src/ramfs_vector.c:293-351 | That, for a file |
| RamFsVector.RamFs.Mkdir | src/ramfs_vector.c:642-699 | That, for a directory |
| RamFsVector.RamFs.Unlink | src/ramfs_vector.c:502-518 | Works exactly on files, -1 and no change on directories, the root included; takes that very entry out and keeps the invariant |
| RamFsVector.RamFs.Rmdir | src/ramfs_vector.c:701-722 | Works exactly on empty directories, -1 and no change otherwise, also for a root with children; takes that very entry out and keeps the invariant |
| RamFsVector.RamFs.Rename | src/ramfs_vector.c:520-587 | When it works and what it then changes, for all paths, including one and the same parent; the file system is sound afterwards if and only if nothing was changed or the new name is non-empty and the new place is not at or under the old one |
| RamFsVector.RenamableMeans | src/ramfs_vector.c:530-567 | When a rename between different paths works, told by walking: the old path has a last name and leads somewhere, the new one leads into a directory and, if it has a last name, nowhere itself |
| RamFsVector.RamFs.Resettle | src/ramfs_vector.c:578-584 | The slot looked up again after the removal is the right one, also in the same directory |
| FsMove.MoveWalk | src/ramfs_vector.c:574-584 | A rename moves the whole subtree: new place plus q leads where old place plus q led, nothing is left at or under the old place, every other path leads where it did |
| FsMove.MoveKeepsInvariant | src/ramfs_vector.c:558-584 | The move keeps the invariant if and only if the new name is non-empty and the new place is not at or under the old one |
| FsMove.MoveUnderItself | src/ramfs_vector.c:574-584 | A move under itself cuts the entry off from the root |
| RenameExamples.AcceptedUnderItself | src/ramfs_vector.c:530-567 | In every sound file system, a directory a of the root that holds no b passes all checks for a rename of a to a/b, which is not safe |
| RenameExamples.RenameUnderItself | src/ramfs_vector.c:542-584 | There, that rename reports success, moves a into itself, and a can no longer be reached from the root |
| RenameExamples.ExampleUnderItself | src/ramfs_vector.c:542-584 | There is such a file system: sound before the rename, unsound after it |
| RenameExamples.AcceptedToNothing | src/ramfs_vector.c:530-567 | In every sound file system with an entry a and a directory b in the root, a passes all checks for a rename to b/, which is not safe |
| RenameExamples.RenameToNothing | src/ramfs_vector.c:558-584 | There, that rename reports success and leaves a in b with an empty name, against the invariant |
| RenameExamples.ExampleToNothing | src/ramfs_vector.c:558-584 | There is such a file system: sound before the rename, unsound after it |
| FsChanges.AddedWalk | src/ramfs_vector.c:336-350 | A new entry changes what exactly one path leads to, and that path led nowhere before |
| FsChanges.AddedInv | src/ramfs_vector.c:336-350 | And keeps the invariant |
| FsChanges.DeletedWalk | src/ramfs_vector.c:131-139 | Taking out a childless entry changes what exactly its own path leads to |
| FsChanges.DeletedInv | src/ramfs_vector.c:502-518 | And keeps the invariant |
| FsChanges.DeletedUndoesAdded | src/ramfs_vector.c:131-139 | Taking the new entry out again gives back the old links |
| FsStore.PathUnique | src/ramfs_vector.c:160-196 | Two sequences of names that lead to the same entry are equal |
| FsStore.ChildByName | src/ramfs_vector.c:131-138 | A child is found in its directory under its own name |
| Paths.SlashesIgnored | src/ramfs_vector.c:169-193 | An extra slash at the start or in the middle changes neither the components nor the last name |
| Paths.TrailingSlash | src/ramfs_vector.c:212-221 | A slash at the end does not change the components either, so only the empty last name tells such a path apart |
| Paths.CompsSplit | src/ramfs_vector.c:207-223 | The components are those before the last slash and then the last name if there is one |
| Paths.RenderComps | src/ramfs_vector.c:253-260 | Printing valid names and splitting the text gives the names back |
| Paths.CompsOnBytes | src/ramfs_vector.c:169-193 | Byte 47 separates: what is before it and what is after it are split each on its own |
| Paths.PlainText | src/ramfs_vector.c:174-175 | Nothing else does: a text without byte 47 is one component, and its own last name |
| Paths.NamesOnBytes | src/ramfs_vector.c:174-191 | No component is empty or holds byte 47 |
| Paths.LastNameOnBytes | src/ramfs_vector.c:212-216 | The last name is what follows the last byte 47, and the directory components are those before it |
| Paths.RenderOnBytes | src/ramfs_vector.c:254-260 | Printing puts byte 47 before each name |
| PathMaps.MakeShown | src/ramfs_vector.c:293-351 | Creating puts exactly one path into the map |
| PathMaps.RemoveShown | src/ramfs_vector.c:502-518 | Removing takes exactly one path out |
| PathMaps.RenameShown | src/ramfs_vector.c:520-587 | Renaming relocates everything at or under the source |
| PathMaps.RenamableShown | src/ramfs_vector.c:530-567 | The checks of rename, read off the map of paths, an empty new name included |
| PathMaps.RelocatedAt | src/ramfs_vector.c:520-587 | What relocation means, path by path: each entry is at the path that corresponds to its old one |
| PathMaps.OnePathEach | src/ramfs_vector.c:160-229 | No entry is at two paths of the map |
| PathMaps.ShowsMeans | src/ramfs_vector.c:160-229 | The paths of the map are those that lead somewhere, and its numbers and types are those of the entries they lead to |
| FsRuns.EffectAt | src/ramfs_vector.c:293-722 | Path by path, what create, mkdir, unlink, rmdir and lookup do to the map: exactly one path comes or goes, under conditions on the map alone |
| FsRuns.RenameEffectAt | src/ramfs_vector.c:520-587 | The same for a rename: below the new place is what was below the old one, the old place is empty, all else is as before |
| FsRuns.AnsweredAt | src/ramfs_vector.c:141-722 | Every operation of a run is answered for the map that the operations before it made |
| FsRuns.AnswersMean | src/ramfs_vector.c:141-722 | And what that answer is, told from the map alone |
| FsRuns.Run | src/ramfs_vector.c:141-722 | Every run of create, mkdir, unlink, rmdir, rename and lookup, by path, from a new file system keeps the invariant; every answer and the final state are those of a map from paths to entries, each known by the operation that made it, so that it is known which entry is where after any renames; a rename that the code would carry out meets the two conditions that it leaves to its caller |
| FsRuns.MakeThenRemove | src/ramfs_vector.c:293-722 | Creating and then removing gives back the file system as it was |
| NameIndexes.OnTree | src/rbtree.c:237-428 | Insert, search and delete on the tree act on its set of names and answer from it |
| NameIndexes.OnArray | src/ramfs_vector.c:58-139 | The same for the sorted array |
| NameIndexes.SortedUnique | src/ramfs_vector.c:58-77 | Two strictly sorted lists with the same elements are equal |
| NameIndexes.SameContents | meson.build:6-15 | A tree and an array that hold the same names have equal sequences and counts |
| NameIndexes.SameIndex | Kconfig:3-8 | Every run of insert, search and delete from empty gives the same answers from both indexes, and they end with the same names in the same order |
| NameIndexes.AnswersByHistory | src/rbtree.c:237-298 | Those answers, told from the operations alone: search and delete find a name if it was inserted and not deleted since, and insert succeeds if not |
| NameIndexes.ThereByHistory | src/rbtree.c:237-428 | The names that are there after a run are those inserted and not deleted since |
| Teardown.Memory.Rmtree | src/ramfs_vector.c:724-748 | On a directory: an entry is freed if and only if it is the directory or below it and not the root; no entry is read or freed after it was freed, so each is freed once |
| Teardown.RemoveTree | src/ramfs_vector.c:724-748 | On any entry: that for a directory; a file is unlinked, which keeps the invariant, and is the one entry freed |
| Teardown.Deinit | src/ramfs_vector.c:152-158 | From any sound file system, exactly the entries other than the root are freed, each once, and none is read or freed after it was freed |
| Teardown.BelowNext | src/ramfs_vector.c:735-743 | The subtrees of different children have nothing in common, and the directory is in none |
| Files.Open | src/ramfs_vector.c:378-409 | NULL exactly for directories; O_TRUNC empties the file, O_APPEND starts at its end as it is then |
| Files.Handle.Read | src/ramfs_vector.c:418-434 | As many bytes as asked for and there, each the one at its place from the position on, none at or past the end; the position moves by that many |
| Files.Handle.Write | src/ramfs_vector.c:436-463 | With write access: padding with zeros to the position, overwriting there, size the larger of the two ends, position after the written bytes; otherwise -1 and no change |
| Files.Handle.Seek | src/ramfs_vector.c:465-485 | The new position lies the offset after the start, the old position or the end of the file, or at the start where that would be before it; any other origin leaves it |
| Files.ReadTail | src/ramfs_vector.c:418-485 | Seeking back k bytes from the end and reading k bytes gives the last k bytes of the file |
| Files.WriteThenRead | src/ramfs_vector.c:418-485 | What was written is read back from where it was written, and the rest of the file is as before |
| Files.Truncate | src/ramfs_vector.c:353-376 | The first bytes are kept, and everything after the old end is zero; the buffer is as long as the size afterwards if and only if the call did not fail at size zero on a file that was not empty |
| Files.LastWriteWins | src/ramfs_vector.c:353-485 | After any run on any number of handles, each byte is the one written last at its offset since the file last ended before it, or zero |
| Files.CutOffStaysGone | src/ramfs_vector.c:353-485 | A byte that was cut off reads as zero when the file grows again, until it is written |
| Files.ReadsLastWritten | src/ramfs_vector.c:418-463 | Each byte that a read in a run returns is the one last written at its place before that read |
| Files.Interleave | src/ramfs_vector.c:353-485 | The code on any interleaving of handles holds exactly those bytes, and every call returns what they call for: the bytes read, the count written or -1, the position after a seek; the buffer is always as long as the size |
| DirCursors.Cursor.Read | src/ramfs_vector.c:612-621 | The next child, or NULL without moving at the end; never beyond the end |
| DirCursors.Cursor.Seek | src/ramfs_vector.c:623-633 | That place, or the end if it is beyond |
| DirCursors.Cursor.ReadRest | src/ramfs_vector.c:612-621 | Reading until NULL gives the remaining children, each once |
| DirCursors.List | src/ramfs_vector.c:589-621 | Opening and reading lists every child once, each name before the next byte by byte |
| DirCursors.Resume | src/ramfs_vector.c:623-640 | Returning to a told place gives again exactly what followed it |

## Left out

- FsRuns.Run: a rename that the code would carry out, and that moves an entry at or under itself or to an empty name, is not part of a run, because it breaks the invariant; `RamFs.Rename` covers it.
- Teardown.Memory.Rmtree: records reads and frees of entries, not of file data, names or child arrays, which the code does not always free.
- Teardown.RemoveTree: a directory other than the root is freed without being taken out of its parent, so nothing is said about the file system after that.
- Files.Interleave: a truncation to zero that fails on a file that is not empty leaves the file without its buffer, and is not part of a run; `Files.Truncate` covers it.
- RamFsVector.RamFs.FindEntry: its numbers are unbounded; for more than 2^30 children the C sums would overflow, and `FindEntryInt` stops there.
- Files.Handle.Seek: positions are unbounded, so `ssize_t` overflow is not modelled.
- RamFsVector.RamFs.Insert: the shift in place is modelled as an assignment of a new sequence of children, so the order of the moves within the buffer is not captured.
- `src/vfs.c`, the connection to ESP-IDF's virtual file system, which is not part of this model.
- The directory layer in `src/ramfs_rbtree.c`: of that file only the comparison is modelled. The keys of the tree itself are never NULL.
- `RAMFS_RBTREE_FOR` on an empty tree: it compares with the null node, but `first` returns NULL (`src/rbtree.h:189-192`).
- Allocation failures, `errno`, handles that outlive their file, and concurrency: the code has no locks.
- Whether a freed name or file buffer is leaked: `ramfs_unlink` does not free the data (`src/ramfs_vector.c:515-516`).
- Accessors that only return a field: `ramfs_is_dir`, `ramfs_is_file`, `ramfs_stat`, `ramfs_tell`, `ramfs_access`, `ramfs_get_name`, and `ramfs_close`, `ramfs_closedir`.
