# The container and tree kernel of Mercurium

This project models the containers that the Mercurium compiler is built on, and the kernel of its
syntax trees, and proves what they promise. It covers the red-black tree and the pointer hash table of
`mcxx/lib`, string interning in its two implementations, the string sort, the unrolled list of scope
entries, the packed syntax tree nodes with their lists, checks, copies and ambiguities, the diagnostic
contexts, and the command line tokenizer.

`dafny verify dfyconfig.toml` checks everything.

## How the model is built

Code that changes objects in place is modelled by classes and methods on the heap; code that only computes
is modelled by functions. Each heap structure has a pure description, and one predicate ties the two:

* The red-black tree (`RbShape`, `RbLinks`, `RbFixUp`, `RbTree`, `RbMap`, `RbRun`) is described by a shape and a
  zipper: the path from the root to the node the program looks at. `RbTree.Tree.Linked` says that every node,
  the root sentinel included, has exactly the links that the zipper says. `nil.parent` is left free, as it is
  scratch in the program; the deletion fix-up requires it to hold the node above the hole and keeps that through
  its rotations. The mirror cases of the two fix-ups share their helper methods, which choose the side as the
  code does.
* Bucket chains (`Chains`, used by `CharHash` and `Dhash`) are sequences of cells, each in the bucket that its
  key selects. The trie (`CharTrie`) is a set of nodes, each with the text that leads to it. Both implementations
  of `uniquestr` meet one specification, `Interning.Called`; `InterningRun` runs both of them on any arguments.
* `RbRun`, `DhashRun` and `InterningRun` execute whole runs on the real objects. What a run defines, the last write
  to a key, is a function of the operations alone.
* The unrolled list (`EntryList`) is a chain of nodes with four slots each. Its operations are proved against
  functions of all the slots in order, and those against the plain sequence of items.
* A syntax tree node (`AstBitmap`, `AstNode`) keeps its real bitmap and its real compact array; the ghost field
  `sons` says what they stand for. `AstTree.IsTree` describes the finite tree below a node without saying anything
  about parent links, so that trees with wrong parents, or with shared nodes, can be talked about. `AstList`,
  `AstCheck`, `AstCopy`, `AstCopyProof`, `AstReplace`, `AstFind`, `AstSolve` and `AstGraft` build on it.
* Diagnostic contexts (`Diagnostics`) and the choice of an interpretation (`Ambiguity`) are proved against the log
  of messages that each context has received. `AstSolve` puts the choice, the diagnostics and the repair of the
  node together, and `AstGraft` says what that does to the whole tree.
* The tokenizer (`CommandLine`) is proved against `CommandSyntax`, which tells on the texts of the arguments alone,
  by concatenation and position, what an option is, which flag it has and what its argument is.

Keys and infos of the containers, scope entries and source positions are opaque addresses. Comparators, hashes
and the callbacks of the ambiguity solver are arbitrary pure functions: a comparator has to be a total preorder,
the pointer hash is any function. Message pointers are modelled by their texts; `Interning.HandlesIdentifyTexts`
is why comparing interned pointers is the same as comparing texts. Strings are byte sequences without the final
zero, and a `char` is signed where the string hash widens it to 32 bits and where an option letter becomes a
number. `Wrappers` and `Sequences` hold what the modules share.

Where the code and what it says about itself differ, the model follows the code:

* `starts_long_option` compares the third character with a newline (`mcxx/src/driver/cxx-parameters.c:56`), while
  the comment in `parse_long_option` expects that it is not the end of the string (`:174`). So `--` alone is
  a long option with an empty name (`CommandSyntax.DashesAreALongOption`).
* `entry_list_remove` skips the entry after each match, so it deletes an entry exactly if and only if no two copies
  of it are adjacent (`EntryList.RemoveIsExact`).
* A long option that the table has twice is reported as invalid, but the argument that its first entry took
  is not given back (`CommandSyntax.ATableCanLoseAnArgument`); `CommandSyntax.LongLoses` says exactly when.

## Model

| member | source | states |
|---|---|---|
| `RbTree.Tree.constructor` | mcxx/lib/red_black_tree.c:97-120 | an empty tree with its two sentinels |
| `RbTree.Tree.LeftRotate` | mcxx/lib/red_black_tree.c:139-174 | the new value of every link that the rotation touches, and of no other |
| `RbTree.Tree.RightRotate` | mcxx/lib/red_black_tree.c:194-228 | the mirror image |
| `RbLinks.LeftRotationLinks` | mcxx/lib/red_black_tree.c:139-174 | those links are the links of the rotated shape at the same place of the whole tree |
| `RbLinks.RotationOrder` | mcxx/lib/red_black_tree.c:139-228 | rotations keep the order of the nodes |
| `RbTree.Tree.TreeInsertHelp` | mcxx/lib/red_black_tree.c:245-273 | the new leaf hangs at the place that its key selects |
| `RbTree.Tree.AddFixUp` | mcxx/lib/red_black_tree.c:296-350 | from one possible red-red pair to none, with equal black heights; the loop ends |
| `RbFixUp.GrandparentExists` | mcxx/lib/red_black_tree.c:308-342 | a red parent is a real node with a real grandparent: the fix-up never takes a sentinel for one |
| `RbFixUp.RaisedPending` | mcxx/lib/red_black_tree.c:321-323 | the last case of the insertion fix-up settles everything |
| `RbTree.Tree.Insert` | mcxx/lib/red_black_tree.c:352-367 | a present key changes the info of its node only; an absent key adds one node at its ordered place; the red-black tree stays valid |
| `RbTree.Tree.Query` | mcxx/lib/red_black_tree.c:579-595 | finds the node of the key's class if there is one, with 2^calls <= (n+1)^2 comparator calls |
| `RbTree.Tree.QueryIsGet` | mcxx/lib/red_black_tree.c:579-595 | what a query finds is what the map holds for the class of the key |
| `RbShape.HeightBound` | mcxx/lib/red_black_tree.c:296-350 | a red-black tree of n nodes has height h with 2^h <= (n+1)^2 |
| `RbTree.Tree.Successor` | mcxx/lib/red_black_tree.c:383-402 | the node that follows in key order, or nil at the end |
| `RbTree.Tree.DeleteFixUp` | mcxx/lib/red_black_tree.c:614-674 | a missing black is repaid, for real holes and for nil ones; the loop ends, the order stays, nil stays black |
| `RbFixUp.NearRaisedDeficit` | mcxx/lib/red_black_tree.c:630-636 | the case with a red near nephew keeps the deficit where it is |
| `RbFixUp.SettledRedBlack` | mcxx/lib/red_black_tree.c:637-641 | the case with a red far nephew ends the deficit |
| `RbFixUp.SettledRoot` | mcxx/lib/red_black_tree.c:615-641 | if the root remembered before the rotations is not the parent of the hole, it is still the root after case 4 |
| `RbTree.Tree.RootTurnedBlack` | mcxx/lib/red_black_tree.c:615-669 | after case 4 the remembered root is still the root, or is the old parent; either way it is black, so that the loop ends and the last store is harmless |
| `RbTree.Tree.Unlink` | mcxx/lib/red_black_tree.c:693-742 | relinks the successor node in the place of the deleted one: one node less, the rest in order |
| `RbTree.Tree.Delete` | mcxx/lib/red_black_tree.c:693-742 | exactly the node leaves; the other node objects stay in order with their keys and infos; the tree stays valid |
| `RbTree.Tree.InorderTreeWalk` | mcxx/lib/red_black_tree.c:547-556 | the calls are the bindings in key order |
| `RbTree.Tree.Walk` | mcxx/lib/red_black_tree.c:558-563 | one call for every binding, in strictly increasing key order |
| `RbTree.Tree.ContentsIncreasing` | mcxx/lib/red_black_tree.c:558-563 | the bindings are strictly ordered by key |
| `RbMap.GetPut` | mcxx/lib/red_black_tree.c:352-367 | after an insertion the class of the key has the new info, every other class its old one |
| `RbMap.GetRemove` | mcxx/lib/red_black_tree.c:693-742 | after a deletion the class of the key has none, every other class its old one |
| `RbMap.RunIsMap` | mcxx/lib/red_black_tree.c:352-742 | over every run of insertions and deletions the bindings are ordered and agree with the last write to each key class |
| `RbRun.DeleteKey` | mcxx/lib/red_black_tree.c:579-742 | a query and the deletion of the node that it finds remove the binding of the class, if there is one |
| `RbRun.RunOps` | mcxx/lib/red_black_tree.c:97-742 | every run on a real tree leaves it valid; each query is answered with the last write to its class, and a walk gives the bindings of the run in order |
| `CStrings.AfterIsNotLexLeq` | mcxx/lib/string_utils.c:290-304 | the comparison in the merge decides lexicographic byte order with prefixes first |
| `CStrings.LexLeqIsBefore` | mcxx/lib/string_utils.c:290-304 | that order puts a prefix first, and else the text with the smaller byte at the first difference |
| `CStrings.LexTotal` | mcxx/lib/string_utils.c:290-304 | that order is total and antisymmetric |
| `CStrings.LexTransitive` | mcxx/lib/string_utils.c:290-304 | that order is transitive |
| `MergeSort.BitonicShrinks` | mcxx/lib/string_utils.c:283-329 | taking the smaller end of the window keeps it bitonic, also when one half is exhausted |
| `MergeSort.MergeSorts` | mcxx/lib/string_utils.c:283-329 | merging a bitonic window from both ends gives a sorted sequence |
| `MergeSort.MergePermutes` | mcxx/lib/string_utils.c:283-329 | and a permutation of it |
| `MergeSort.Fusion` | mcxx/lib/string_utils.c:266-332 | two sorted halves become their merge in place; the rest of the array is untouched |
| `MergeSort.PrivateMergeSort` | mcxx/lib/string_utils.c:334-342 | the range becomes its merge sort |
| `MergeSort.MergeSortList` | mcxx/lib/string_utils.c:344-347 | the list is sorted, ascending or descending, and a permutation of what it was |
| `Interning.HandlesIdentifyTexts` | mcxx/lib/char_hash.c:67-100 | whatever meets the specification of a call returns over every run the same handle exactly for equal texts, and null for null |
| `Interning.RunGrows` | mcxx/lib/char_hash.c:67-100 | over every run of the specification a handle, once returned, stays the handle of its text |
| `InterningRun.InternAll` | mcxx/lib/char_hash.c:67-100 | every run of calls on a real table returns equal handles exactly for equal arguments, each with its own text |
| `InterningRun.InternAllInTrie` | mcxx/lib/slow_char_trie.c:261-274 | the same for every run of calls on a real trie |
| `CharHash.HashString` | mcxx/lib/char_hash.c:56-65 | the loop computes the hash of all characters, in 32 bits with signed characters |
| `CharHash.HashStepTimes33` | mcxx/lib/char_hash.c:56-65 | each step multiplies by 33 and combines with the character, negative from 128 on |
| `CharHash.HashMore` | mcxx/lib/char_hash.c:56-65 | the characters enter from the first to the last |
| `CharHash.Find` | mcxx/lib/char_hash.c:76-78 | the search finds the text in its chain if it is there |
| `CharHash.MoveUp` | mcxx/lib/char_hash.c:80-85 | move-to-front only permutes one chain; no cell is lost or doubled |
| `CharHash.AddString` | mcxx/lib/char_hash.c:91-99 | a new text gets a fresh handle, at the front of its chain |
| `CharHash.Table.UniqueStr` | mcxx/lib/char_hash.c:67-100 | the call meets the interning specification; null gives null and changes nothing |
| `Chains.Unlink` | mcxx/lib/char_hash.c:82 | the chain without that cell |
| `Chains.Promote` | mcxx/lib/char_hash.c:80-85 | the table with one chain permuted, every cell still in its bucket |
| `Chains.RemoveAt` | mcxx/lib/dhash_ptr.c:231-243 | the table without one cell, unlinked through its predecessor or the bucket |
| `CharTrie.SearchIsExact` | mcxx/lib/slow_char_trie.c:120-141 | on sorted elements the recursive binary search finds an element exactly if there is one |
| `CharTrie.LookupList` | mcxx/lib/slow_char_trie.c:64-83 | returns the handle of the text, or null if it is not stored |
| `CharTrie.LeadsOn` | mcxx/lib/slow_char_trie.c:64-83 | a text that is stored below a node leads on through an element of that node |
| `CharTrie.FindPlace` | mcxx/lib/slow_char_trie.c:150-176 | the position for a code that is missing; the call of abort is not reached |
| `CharTrie.OpenSlot` | mcxx/lib/slow_char_trie.c:145-184 | growth and shift open exactly that position |
| `CharTrie.AddStep` | mcxx/lib/slow_char_trie.c:199-211 | a node for one more byte keeps every stored text and every node sorted |
| `CharTrie.CreateElements` | mcxx/lib/slow_char_trie.c:143-212 | the rest of the text is added, and its copy is the handle; all other texts keep theirs |
| `CharTrie.InsertListRec` | mcxx/lib/slow_char_trie.c:88-113 | null is returned exactly when the text is there already |
| `CharTrie.Trie.UniqueStr` | mcxx/lib/slow_char_trie.c:261-274 | the call meets the interning specification; its result is never null for a text |
| `Dhash.Table.constructor` | mcxx/lib/dhash_ptr.c:70-95 | an empty table with the least prime of the set that is not below the size, or the last prime |
| `Dhash.Search` | mcxx/lib/dhash_ptr.c:124-135 | a key is found exactly if the map has it, in the one cell of its bucket |
| `Dhash.Table.Query` | mcxx/lib/dhash_ptr.c:120-138 | the info of the map, or null exactly if the key is absent |
| `Dhash.Table.DoInsert` | mcxx/lib/dhash_ptr.c:141-167 | the map with this binding; num_items counts the bindings |
| `Dhash.SeenCell` | mcxx/lib/dhash_ptr.c:183-200 | a traversal meets each key once |
| `Dhash.Rehash` | mcxx/lib/dhash_ptr.c:169-208 | a fresh table, over the next prime, with the same map |
| `Dhash.Table.IncreaseRehash` | mcxx/lib/dhash_ptr.c:169-208 | the map stays; below the last prime there is room for the load bound again |
| `Dhash.Table.Insert` | mcxx/lib/dhash_ptr.c:210-222 | the map with this binding, and num_items <= 3p/4 + 1 unless the last prime is reached |
| `Dhash.Table.Remove` | mcxx/lib/dhash_ptr.c:224-247 | the map without this key; an absent key changes nothing |
| `Dhash.Table.Walk` | mcxx/lib/dhash_ptr.c:249-263 | the calls enumerate the map |
| `Dhash.EnumeratesAll` | mcxx/lib/dhash_ptr.c:249-263 | an enumeration holds each binding exactly once and nothing else |
| `Dhash.OneCellPerBinding` | mcxx/lib/dhash_ptr.c:141-167 | the table has as many cells as bindings |
| `DhashRun.RunIsLastWrite` | mcxx/lib/dhash_ptr.c:210-247 | after a run a key is bound exactly if its last write was an insertion, to that info |
| `DhashRun.RunOps` | mcxx/lib/dhash_ptr.c:70-263 | every run on a real table, through all its growths and with any hash, answers each query with the last write to its key; a walk gives each binding of the run once |
| `EntryList.AddToPosRec` | mcxx/src/frontend/cxx-entrylist.c:73-94 | stores into the slot with that number over all nodes, in a new node if needed |
| `EntryList.PrependRec` | mcxx/src/frontend/cxx-entrylist.c:96-123 | the cascade of shifts puts the entry before all items |
| `EntryList.InsertAndShiftRight` | mcxx/src/frontend/cxx-entrylist.c:181-206 | the slots with one more entry at that position, and a new node when the last slot was used |
| `EntryList.ShiftLeft` | mcxx/src/frontend/cxx-entrylist.c:556-571 | the slots without that one, across all nodes |
| `EntryList.RemoveRec` | mcxx/src/frontend/cxx-entrylist.c:574-591 | the scan over all slots, and how many matches it counted |
| `EntryList.PackedRemove` | mcxx/src/frontend/cxx-entrylist.c:574-602 | on a packed list the scan leaves a packed list of the remaining items |
| `EntryList.RemovedKeepsOthers` | mcxx/src/frontend/cxx-entrylist.c:593-602 | every other entry stays, in order |
| `EntryList.RemoveIsExact` | mcxx/src/frontend/cxx-entrylist.c:593-602 | exactly the copies of the entry are removed if and only if no two of them are adjacent |
| `EntryList.RemoveCanLeaveACopy` | mcxx/src/frontend/cxx-entrylist.c:574-591 | of two adjacent copies one stays |
| `EntryList.RemovedApart` | mcxx/src/frontend/cxx-entrylist.c:574-591 | each run of copies is scanned by itself |
| `EntryList.RemovedRun` | mcxx/src/frontend/cxx-entrylist.c:574-591 | of a run of n copies n / 2 stay |
| `EntryList.List.constructor` | mcxx/src/frontend/cxx-entrylist.c:64-71 | a list of one entry |
| `EntryList.Add` | mcxx/src/frontend/cxx-entrylist.c:144-158 | the items and then the entry |
| `EntryList.AddOnce` | mcxx/src/frontend/cxx-entrylist.c:160-179 | the same items if the entry is among them, else the entry at the end |
| `EntryList.Prepend` | mcxx/src/frontend/cxx-entrylist.c:125-142 | the entry and then the items |
| `EntryList.AddBefore` | mcxx/src/frontend/cxx-entrylist.c:271-312 | the entry before the first copy of the position, or no change |
| `EntryList.Remove` | mcxx/src/frontend/cxx-entrylist.c:593-602 | the items that the scan leaves, with their number |
| `EntryList.Copy` | mcxx/src/frontend/cxx-entrylist.c:314-338 | fresh nodes with the same items, the source unchanged |
| `EntryList.Iterator.constructor` | mcxx/src/frontend/cxx-entrylist.c:389-398 | an iterator before the first item |
| `EntryList.Iterator.Current` | mcxx/src/frontend/cxx-entrylist.c:400-403 | the item at the iterator's position in the sequence |
| `EntryList.Iterator.Next` | mcxx/src/frontend/cxx-entrylist.c:405-414 | one position further, across node boundaries |
| `EntryList.Elements` | mcxx/src/frontend/cxx-entrylist.c:389-420 | iterating visits every item, in order |
| `EntryList.Contains` | mcxx/src/frontend/cxx-entrylist.c:533-554 | true exactly if the entry is among the items |
| `EntryList.Merge` | mcxx/src/frontend/cxx-entrylist.c:444-531 | for any permutations made by qsort: the union of both lists, not longer than both together |
| `Diagnostics.Context.Diagnose` | mcxx/src/frontend/cxx-diagnostic.c:77-195 | stderr receives every message; a buffer receives it unless it has it; the counters agree |
| `Diagnostics.Context.AddDiagnostic` | mcxx/lib/string_utils.h:135-147 | appends unless an equal element is there |
| `Diagnostics.Context.GetCount` | mcxx/src/frontend/cxx-diagnostic.c:197-211 | the number of messages of that severity |
| `Diagnostics.Context.Commit` | mcxx/src/frontend/cxx-diagnostic.c:219-300 | the destination receives the messages; of an instantiation it receives one message with the header and all texts in order, an Error exactly if some message is one and an Info exactly if all are; the context is consumed |
| `Diagnostics.WorstJoinedJoinsAll` | mcxx/src/frontend/cxx-diagnostic.c:264-294 | the loops over the severities and the texts make that message |
| `Diagnostics.ThroughABuffer` | mcxx/src/frontend/cxx-diagnostic.c:169-228 | messages that go through another buffer leave a buffered destination as if they had come directly |
| `Diagnostics.BufferHasNoRepeats` | mcxx/src/frontend/cxx-diagnostic.c:169-195 | a buffer never holds a message twice |
| `Diagnostics.BufferKeepsOrder` | mcxx/src/frontend/cxx-diagnostic.c:169-195 | a buffer keeps what it has and takes new messages in the order in which each came first |
| `Diagnostics.StderrReceivesAll` | mcxx/src/frontend/cxx-diagnostic.c:77-97 | the standard error stream receives all messages, in order |
| `Diagnostics.Stack.constructor` | mcxx/src/frontend/cxx-diagnostic.c:380-394 | the stack with the stderr context only, whose counters are zero again |
| `Diagnostics.Stack.Push` | mcxx/src/frontend/cxx-diagnostic.c:339-350 | one context more, the others unchanged, also when the array grows |
| `Diagnostics.Stack.Pop` | mcxx/src/frontend/cxx-diagnostic.c:352-356 | one context less |
| `Diagnostics.Stack.PushInstantiation` | mcxx/src/frontend/cxx-diagnostic.c:302-321 | a new empty instantiation context becomes the current one |
| `Diagnostics.Stack.Commit` | mcxx/src/frontend/cxx-diagnostic.c:333-337 | the current context receives what the other one hands over |
| `Diagnostics.Stack.PopAndCommit` | mcxx/src/frontend/cxx-diagnostic.c:373-378 | the context below receives what the top one hands over |
| `Diagnostics.Stack.PopAndDiscard` | mcxx/src/frontend/cxx-diagnostic.c:366-371 | the top context is consumed and no other one changes |
| `Ambiguity.SelectsBest` | mcxx/src/frontend/cxx-ambiguity.c:68-118 | with a strict total preference the loop chooses the best valid interpretation |
| `Ambiguity.OrderIsIrrelevant` | mcxx/src/frontend/cxx-ambiguity.c:68-118 | and the same one whatever the order of the interpretations |
| `Ambiguity.ClashWithoutChoice` | mcxx/src/frontend/cxx-ambiguity.c:78-117 | without a choice function the internal error comes exactly if two interpretations are valid |
| `Ambiguity.TiesClash` | mcxx/src/frontend/cxx-ambiguity.c:80-116 | the internal error comes exactly at the first valid interpretation that the callback, asked about it and the chosen one, does not tell apart |
| `Ambiguity.ChosenHolds` | mcxx/src/frontend/cxx-ambiguity.c:80-116 | the chosen interpretation is valid, every later valid one was found worse, and it was found better than the one chosen before it |
| `Ambiguity.CheckInterpretation` | mcxx/src/frontend/cxx-ambiguity.c:72-76 | the messages of the check are in a new buffered context, and the stack is as before |
| `Ambiguity.CommitChosen` | mcxx/src/frontend/cxx-ambiguity.c:161-173 | the chosen messages are received, and every context is consumed once |
| `Ambiguity.CommitEverything` | mcxx/src/frontend/cxx-ambiguity.c:150-157 | all messages are received without repetitions, in order, and every context is consumed once |
| `Ambiguity.AllSayParts` | mcxx/src/frontend/cxx-ambiguity.c:150-157 | all messages are those of the interpretations in their order |
| `Ambiguity.SolveAmbiguityGeneric` | mcxx/src/frontend/cxx-ambiguity.c:54-176 | if some are valid the chosen one, else the first one that the fallback accepts, both with their messages; else the first one, with the messages of all; the stack is restored; one context for each interpretation, and one more in the last case, all different and all consumed |
| `Ambiguity.AsIfDirectly` | mcxx/src/frontend/cxx-ambiguity.c:150-157 | into a buffered context the combined messages go as if they had come directly |
| `Ambiguity.TryToSolveAmbiguityGeneric` | mcxx/src/frontend/cxx-ambiguity.c:178-241 | solved exactly if the loop chooses, with the same choice; the messages of every check made go to the current context |
| `Ambiguity.CheckedUpToClash` | mcxx/src/frontend/cxx-ambiguity.c:187-232 | all interpretations are checked, or those up to the first clash |
| `AstBitmap.CountBits` | mcxx/src/frontend/cxx-ast-inline.h:108-126 | the loop counts the bits below a position |
| `AstBitmap.CountMasked` | mcxx/src/frontend/cxx-ast-inline.h:112-114 | the variant with a mask gives the same index |
| `AstNode.Ast.constructor` | mcxx/src/frontend/cxx-ast-inline.h:172-218 | a packed node with these four optional children, each with its parent link |
| `AstNode.Ast.GetChild` | mcxx/src/frontend/cxx-ast-inline.h:138-148 | reading slot j gives the child set there, or null |
| `AstNode.StoreAt` | mcxx/src/frontend/cxx-ast-inline.h:221-266 | different slots have different indices in the compact array |
| `AstNode.Ast.ReallocateChildren` | mcxx/src/frontend/cxx-ast-inline.h:221-266 | widening or shrinking changes one slot and repacks the others |
| `AstNode.Ast.SetChild` | mcxx/src/frontend/cxx-ast-inline.h:268-299 | one slot changes, the node stays packed, and the child points to it |
| `AstList.AppendToList` | mcxx/src/frontend/cxx-ast-inline.h:307-315 | the list with one more node at the end, which has the list and the element as its two children, the text of the element and no locus of its own |
| `AstFind.AppendPlain` | mcxx/src/frontend/cxx-ast-inline.h:307-315 | list nodes made so use their first two children only |
| `AstList.ListHead` | mcxx/src/frontend/cxx-ast-inline.h:322-337 | the deepest node is the first one; null for null and for nodes of another kind |
| `AstList.ForEachElement` | mcxx/src/frontend/cxx-ast.h:245-247 | iteration visits the nodes in order, each once |
| `AstList.ListConcat` | mcxx/src/frontend/cxx-ast-inline.h:339-354 | the nodes of the first list and then those of the second; null and other kinds as the code has them |
| `AstList.SplitHeadTail` | mcxx/src/frontend/cxx-ast.c:282-305 | the first node as a list of its own, and the rest as a list |
| `AstList.SplitThenConcat` | mcxx/src/frontend/cxx-ast.c:282-305 | splitting and concatenating restores every node, link and the order |
| `AstCheck.AstCheckListTree` | mcxx/src/frontend/cxx-ast.c:133-214 | the iterative check equals the recursive one, also on null, and ends |
| `AstFind.AcceptedIsList` | mcxx/src/frontend/cxx-ast.c:133-214 | what the check accepts is a list that can be iterated over, of elements that are no lists and point back, except perhaps the first one |
| `AstFind.ListIsAccepted` | mcxx/src/frontend/cxx-ast.c:133-214 | and every such list is accepted |
| `AstCheck.AstCheckTree` | mcxx/src/frontend/cxx-ast.c:56-131 | the check with its own stack ends on every finite tree and accepts exactly the consistent ones |
| `AstTree.ConsistentIsEverywhere` | mcxx/src/frontend/cxx-ast.c:56-131 | consistent means that every node below passes: its children point back, and its list, if it is a top-level one, is well built |
| `AstTree.NodeOkMeans` | mcxx/src/frontend/cxx-ast.c:56-131 | a node passes exactly if it is an ambiguity, or its children point back to it and it passes the list check unless it is no list or inside one |
| `AstCopy.AstCopy` | mcxx/src/frontend/cxx-ast.c:232-275 | fresh unshared nodes with the same contents and right links, under a root without parent |
| `AstCopyProof.CopyIsEqual` | mcxx/src/frontend/cxx-ast.c:307-346 | a copy is ast_equal to its source |
| `AstCopyProof.EqualIsEverywhere` | mcxx/src/frontend/cxx-ast.c:307-346 | ast_equal holds exactly if at every path both trees have a node of one kind with one text, or both have none |
| `AstCopyProof.CopyPassesCheck` | mcxx/src/frontend/cxx-ast.c:232-275 | a copy passes ast_check if and only if the lists of the source are well built, whatever its parent links |
| `AstCopyProof.ConsistentIffLists` | mcxx/src/frontend/cxx-ast.c:56-184 | with right parents ast_check depends on the shape of the lists only |
| `AstReplace.FixParents` | mcxx/src/frontend/cxx-ast-inline.h:372-390 | every parent link inside is right, down to the ambiguities, which are not entered and may share nodes; only these links change |
| `AstReplace.ReplaceWithAmbiguity` | mcxx/src/frontend/cxx-ast-inline.h:499-525 | the node keeps its identity and outer parent, and becomes the interpretation with right links |
| `AstFind.FindAmbiguity` | mcxx/src/frontend/cxx-ambiguity.c:2559-2591 | the ambiguity that comes first in the text: its path of child numbers is before that of every other one; null exactly if no path leads to one; only the links that the iteration over lists follows have to be right |
| `AstFind.FirstIsFirstInText` | mcxx/src/frontend/cxx-ambiguity.c:2559-2591 | the search by children and elements finds the one with the first path |
| `AstFind.FixedIsSearchable` | mcxx/src/frontend/cxx-ambiguity.c:2559-2591 | they are right on every tree with fixed parents and well built lists |
| `AstFind.FirstIsAmbiguity` | mcxx/src/frontend/cxx-ambiguity.c:2559-2591 | what is found is an ambiguity of the tree |
| `AstFind.NothingToFind` | mcxx/src/frontend/cxx-ambiguity.c:2559-2591 | in a tree without ambiguities nothing is found |
| `AstFind.FoundIffThere` | mcxx/src/frontend/cxx-ambiguity.c:2559-2591 | an ambiguity is found exactly if there is one, on trees whose list nodes use their first two children only, as the search does |
| `AstFind.ReplacedIsConsistent` | mcxx/src/frontend/cxx-ast-inline.h:499-525 | the replaced node passes ast_check exactly if the lists of the interpretation are well built |
| `AstSolve.FixFirst` | mcxx/src/frontend/cxx-ambiguity.c:68-74 | fixing the interpretations one after the other keeps them all, even if they share nodes |
| `AstSolve.Repair` | mcxx/src/frontend/cxx-ambiguity.c:72-175 | the tree part of both solvers: fixed parents, and the node replaced if there is a solution, else untouched |
| `AstSolve.SolveAmbiguity` | mcxx/src/frontend/cxx-ambiguity.c:54-176 | the ambiguity node becomes the chosen interpretation, with right links and its own parent, and no ambiguity that the interpretation did not have; its messages are received, the stack is restored and every context of a check consumed |
| `AstSolve.TryToSolveAmbiguity` | mcxx/src/frontend/cxx-ambiguity.c:178-241 | the same if the loop chooses; otherwise the node stays as it was; the messages of all checks made are received |
| `AstGraft.GraftIsTree` | mcxx/src/frontend/cxx-ast-inline.h:499-525 | a tree whose node has got other children below it is the tree with these children |
| `AstGraft.GraftIsFixed` | mcxx/src/frontend/cxx-ast-inline.h:499-525 | and its links are right if those around the node and those below it are |
| `AstGraft.GraftedNodes` | mcxx/src/frontend/cxx-ast-inline.h:499-525 | the nodes outside stay, and those of the interpretation come in |
| `AstGraft.SolveInTree` | mcxx/src/frontend/cxx-ambiguity.c:54-176 | solving one ambiguity keeps the tree around it: it is the tree with the chosen interpretation in the place of the node, every link is right, and its ambiguities are those outside and those of the interpretation |
| `AstGraft.TryToSolveInTree` | mcxx/src/frontend/cxx-ambiguity.c:178-241 | the same if one interpretation is chosen; else the tree around is as it was |
| `CommandLine.OptionForms` | mcxx/src/driver/cxx-parameters.c:43-64 | a short option is a dash and a letter that is no dash; a long one is two dashes not followed by a newline |
| `CommandLine.FlagIsSaid` | mcxx/src/driver/cxx-parameters.c:78-117 | the flag of a letter is what the text of the specification says: the first option letter that is this one, with no colon after it, one, or two |
| `CommandLine.FindShort` | mcxx/src/driver/cxx-parameters.c:78-117 | the scan of the specification finds that flag |
| `CommandLine.ParseShortOption` | mcxx/src/driver/cxx-parameters.c:66-159 | with an argument `s` the option is a dash, the letter and `s`, or a dash and the letter with `s` as the next argument; without one it wants none or there is none; the value is the letter as a signed character |
| `CommandLine.FindEntry` | mcxx/src/driver/cxx-parameters.c:187-257 | the first entry with that name, and whether there is a later one |
| `CommandLine.ParseLongOption` | mcxx/src/driver/cxx-parameters.c:161-263 | the option is two dashes and a name, or these with '=' and a value; the first entry with the name says flag, value, and whether the value or the next argument is taken; a second entry makes it invalid |
| `CommandLine.GetNextParameter` | mcxx/src/driver/cxx-parameters.c:266-295 | one step of the tokenizer gives the answer for a short option, a long option or a plain parameter, or nothing at the end |
| `CommandSyntax.OneAnswer` | mcxx/src/driver/cxx-parameters.c:66-295 | what the arguments say determines the parameter and the next position |
| `CommandSyntax.SpelledOnce` | mcxx/src/driver/cxx-parameters.c:171-185 | a long option has one name and one value |
| `CommandSyntax.LongFindsItsEntry` | mcxx/src/driver/cxx-parameters.c:187-257 | with unique names a long option gives what the one entry with its name gives, and is invalid without one |
| `CommandSyntax.LongLoses` | mcxx/src/driver/cxx-parameters.c:199-262 | an invalid long option has taken an argument exactly if it has no '=', is followed by something that is no option, and its name is twice in the table, first at an entry that takes an argument |
| `CommandSyntax.AnswerAdvances` | mcxx/src/driver/cxx-parameters.c:266-295 | a valid step advances by one or two within the command line; an invalid step moves the index exactly when such a long option took an argument |
| `CommandSyntax.UniqueNeverFails` | mcxx/src/driver/cxx-parameters.c:161-263 | with unique names an invalid step never advances |
| `CommandSyntax.DashesAreALongOption` | mcxx/src/driver/cxx-parameters.c:51-57 | two dashes alone are a long option with an empty name; with a newline they are none |
| `CommandSyntax.ATableCanLoseAnArgument` | mcxx/src/driver/cxx-parameters.c:199-262 | a table with a name twice can lose an argument |

## Left out

- Freeing of memory, allocation failure and the counters of used bytes.
- The destructor callbacks of the red-black tree: deletion hands the node over as removed. `rb_tree_predecessor`
  mirrors `rb_tree_successor`; `RBEnumerate`, the printers and `rb_tree_destroy` would add no harder property.
- RbTree.Tree.Insert: keys and infos are addresses, and the comparator is a pure total preorder; a comparator with
  effects or one that is not a preorder is not modelled.
- MergeSort.MergeSortList: the array holds string values, not pointers, so stability (which the code does not
  have) and which of two equal pointers comes first cannot be said.
- Dhash.Table.Insert: the Murmur hash is an arbitrary function of the key; int overflow of the item counter is not
  modelled. `dhash_str.c` is not modelled.
- Dhash.Table.Walk: the walk function is modelled by the list of its calls; it cannot change the table meanwhile.
- EntryList.Merge: sortedness and freedom from repetitions of the result are not claimed, since the comparator that
  the program hands to qsort compares slot addresses and the last loops keep repetitions. `entry_list_add_after` is
  not modelled: it searches in one node and inserts in another.
- EntryList.AddBefore: the position and the entry are not null, as for all operations that take a scope entry.
- Diagnostics.Context.Diagnose: writing to the stream is a ghost log; the signal raised on errors by a debug option
  and severities outside the enumeration, which end the compiler, are not modelled.
- Ambiguity.SolveAmbiguityGeneric: the callbacks are pure functions that leave the stack balanced; a check says a
  list of messages and changes nothing else. The check, choice and fallback functions of the single kinds of
  ambiguity, which query scopes and types, are not part of this model.
- AstNode.Ast.Become: after `ast_replace` the program's node shares the array of children with the interpretation
  that it came from; here each node has an array value of its own, so that aliasing is not captured.
- AstList.AppendToList: the locus of a list node is computed from its head in the program and is not modelled.
- AstFind.FindAmbiguity: where the first child of a list node is not a list node that points back to it, the program's
  iteration over the list can leave the tree or not end; the search is stated for trees without such a place outside
  ambiguities.
- AstFind.FoundIffThere: ambiguities in a third or fourth child of a list node are not found, since the search along
  a list looks at the elements only; the list functions of this model put no node there.
- AstCopy.AstCopy: the expression information of nodecl trees, which is shared by copies, is not modelled.
- CommandLine.ParseLongOption: the warnings printed for missing arguments.
- The statistics of the string table, `uniquestr_vsprintf`, string builders, the driver, configuration and process
  code, and the preprocessor-level helpers of `cxx-ast.h` other than list iteration.
