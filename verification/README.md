# cstp in Dafny

This project models the data structures and algorithms of the cstp
collection of Python 2 exercises:

- insertion sort, merge sort and heapsort;
- a binary search tree with parent links;
- two hash tables;
- singly and doubly linked lists;
- a doubling array list;
- three string exercises;
- the sortedness test of the helper library.

The model proves what each of these promises. Where the code does not
keep that promise, it proves what the code does instead (see "## Findings").

The modules follow the files of the repository:

| module | file | form |
|---|---|---|
| `Lib` | `lib.dfy` | `Sorted` and the loop of `array_is_sorted` |
| `PythonLists` | `python_lists.dfy` | the length of a repeated Python list, `[x] * n`, shared by the hash tables and the array list |
| `InsertionSort` | `insertion_sort.dfy` | the sort as a function, with the in-place method proved against it |
| `MergeSort` | `merge_sort.dfy` | `merge` as written, as a function and as the in-place popping loop; a corrected merge |
| `HeapSort` | `heap_sort.dfy` | `max_heapify`, `build_max_heap` and `heap_sort` as functions on sequences, with in-place methods on arrays proved against them |
| `SearchTree` | `bst_tree.dfy` | the tree as a value: insert, search, minimum, maximum, successor, delete, and the walks |
| `BstArena` | `bst_arena.dfy` | the linked nodes as a class; its methods are proved to act on the value tree of `SearchTree` |
| `HashTables` | `hash_table.dfy` | `BadHashTable` and `HashTable` as classes |
| `LinkedLists` | `linked_list.dfy` | `SinglyLinkedList` and `DoublyLinkedList` as classes |
| `ArrayLists` | `array_list.dfy` | `ArrayList` as a class over an `array` |
| `ArraysAndStrings` | `arrays_and_strings.dfy` | uniqueness, permutation, and the escaping of spaces (the in-place version over an `array<char>`) |

Python objects that are linked to one another (tree nodes, list
elements) live in an arena. The arena is a sequence of cells indexed by
node number, and a link is an index. A ghost view of each structure says
what the links spell out:

- the tree is `shape`;
- a list is `order`.

Every method is proved to keep the links and the view in step.

`HashTable`'s `[list()] * size` repeats one list object, so all of its
buckets are one bucket. The model keeps that aliasing: every `set` adds
the entry to every slot. For the same reason, and also in
`BadHashTable`, setting a key twice keeps both entries, and `get`
answers the value set first.

## Model

| member | source | states |
|---|---|---|
| `Lib.ArrayIsSorted` | lib.py:10-17 | `None` (falling off the loop) exactly for the empty array, `Some(true)` exactly when a non-empty array is sorted, `Some(false)` exactly when some element is below its predecessor |
| `Lib.SortedUnique` | lib.py:6-9 | two sorted sequences with the same elements are equal, so a sorted permutation is unique |
| `InsertionSort.Compare` | 00-insertion-sort.py:61-67 | the result is -1, 0 or 1, negative exactly when a < b and positive exactly when a > b |
| `InsertionSort.CompareIsComparator` | 00-insertion-sort.py:59-67 | `compare` answers "greater" one way exactly when it answers "less" the other way, and "at most" is transitive |
| `InsertionSort.Insert` | 00-insertion-sort.py:49-55 | one pass of the inner loop adds exactly one element to the prefix |
| `InsertionSort.Sort` | 00-insertion-sort.py:43-57 | the outer loop returns as many elements as it was given |
| `InsertionSort.SortPermutes` | 00-insertion-sort.py:43-57 | the output holds exactly the elements of the input |
| `InsertionSort.SortSorted` | 00-insertion-sort.py:43-57 | with a proper comparison, consecutive output elements compare at most 0 |
| `InsertionSort.SortIsStable` | 00-insertion-sort.py:52-55 | elements that compare equal keep their input order, because the inner loop only moves past elements that compare greater |
| `InsertionSort.InsertKey` | 00-insertion-sort.py:49-55 | one pass of the outer loop leaves the first j+1 cells holding a[j] inserted into the sorted prefix a[..j], and the cells after j untouched |
| `InsertionSort.InsertionSort` | 00-insertion-sort.py:43-57 | a fresh array (the input is only read) holding the insertion sort of the input |
| `InsertionSort.DemoSort` | 00-insertion-sort.py:71-75 | the demo list sorts to `[26, 31, 41, 41, 58, 59]` |
| `MergeSort.TailPass` | 01-merge-sort.py:55-62 | iterating over a list while popping its front appends only the items at even positions and leaves the last half of the list |
| `MergeSort.Merge` | 01-merge-sort.py:44-64 | the popping loop returns `MergeAsWritten` of the two lists |
| `MergeSort.MergeAsWritten` | 01-merge-sort.py:44-64 | `merge` as written, tail loops included: every append is matched by one pop, so the merged list is as long as both inputs |
| `MergeSort.MergeSortAsWritten` | 01-merge-sort.py:40-74 | `merge_sort` as written returns a list as long as its input |
| `MergeSort.ShortTailCopied` | 01-merge-sort.py:55-62 | a tail of at most two items is copied whole |
| `MergeSort.LongTailScrambled` | 01-merge-sort.py:55-62 | in a tail of three or more items the third item lands where the second belongs |
| `MergeSort.MergeAgreesOnShortLists` | 01-merge-sort.py:44-64 | when neither list is longer than two, the merge as written equals the corrected merge |
| `MergeSort.MergeCounterexample` | 01-merge-sort.py:44-64 | merging `[1]` and `[2, 3, 4]` gives `[1, 2, 4, 4]` |
| `MergeSort.MergeSortCounterexample` | 01-merge-sort.py:40-74 | `merge_sort([1, 2, 3, 4, 5])` gives `[1, 2, 3, 5, 5]`, losing 4 |
| `MergeSort.MergeFixedPermutes` | 01-merge-sort.py:42-43 | the corrected merge holds exactly the elements of both lists |
| `MergeSort.MergeFixedSorted` | 01-merge-sort.py:42-43 | merging two sorted lists with the corrected merge gives a sorted list |
| `MergeSort.MergeSortFixedSorts` | 01-merge-sort.py:66-74 | merge sort over the corrected merge returns a sorted permutation of its input |
| `HeapSort.ChildParent` | 02-heapsort.py:67-74 | `parent_index` inverts `left_index` and `right_index`, and every index from 1 on is a child of a smaller parent |
| `HeapSort.Largest` | 02-heapsort.py:76-85 | the index picked is i or one of its children inside the heap, holds the largest of those values, and is i on ties with i |
| `HeapSort.Heapify` | 02-heapsort.py:51-89 | `max_heapify` on the contents keeps the array's length (`HeapifyFrame` and `HeapifyRestores` state what it does) |
| `HeapSort.HeapifyFrame` | 02-heapsort.py:51-89 | `max_heapify` permutes the array, touches only cells i up to heap_size - 1, and leaves at i the largest of i and its children |
| `HeapSort.HeapifyRestores` | 02-heapsort.py:48-50 | when every node below i is a heap node, `max_heapify` at i makes the whole range a heap |
| `HeapSort.RootIsMax` | 02-heapsort.py:99-101 | in a max-heap no cell exceeds the root |
| `HeapSort.BuildFrom` | 02-heapsort.py:91-94 | `build_max_heap`'s loop from index k down to 0 keeps the array's length |
| `HeapSort.BuildMakesHeap` | 02-heapsort.py:91-94 | building from an index below which every later node is a heap node gives a max-heap |
| `HeapSort.ExtractStep` | 02-heapsort.py:102-104 | each round of the extraction loop keeps "heap in front, sorted tail behind, nothing in the heap above the tail" |
| `HeapSort.ExtractSorts` | 02-heapsort.py:99-104 | the extraction loop sorts from any state it can start a round in |
| `HeapSort.HeapSortAsWritten` | 02-heapsort.py:46-106 | `heap_sort` as written returns as many elements as it was given |
| `HeapSort.HeapSortPermutes` | 02-heapsort.py:46-106 | the result is a permutation of the input |
| `HeapSort.HeapSortSortsEvenLengths` | 02-heapsort.py:46-106 | for even lengths the code sorts |
| `HeapSort.HeapSortEvenResult` | 02-heapsort.py:46-106 | for even lengths the result is the unique sorted rearrangement of the input |
| `HeapSort.HeapSortOddCounterexample` | 02-heapsort.py:92-94 | `heap_sort([1, 0, 5])` returns `[0, 5, 1]`, which is not sorted |
| `HeapSort.HeapSortFixedSorts` | 02-heapsort.py:96-106 | with the build started at the last internal index, every input comes out sorted and permuted |
| `HeapSort.HeapSortDemo` | 02-heapsort.py:108-114 | the demo list sorts to `[26, 31, 41, 41, 58, 59]` |
| `HeapSort.MaxHeapify` | 02-heapsort.py:51-89 | the in-place recursion leaves the array as `Heapify` says |
| `HeapSort.BuildMaxHeap` | 02-heapsort.py:92-94 | the in-place loop from len/2 - 1 down to 0 leaves the array as `BuildFrom` says |
| `HeapSort.HeapSortInPlace` | 02-heapsort.py:46-106 | the array is sorted in place to `HeapSortAsWritten` of its old contents, and the same array is returned |
| `SearchTree.InsertKeys` | 04-binary-search-tree.py:51-63 | insertion adds exactly one occurrence of the new key |
| `SearchTree.InsertT` | 04-binary-search-tree.py:51-63 | after an insertion the tree is never empty |
| `SearchTree.InsertIds` | 04-binary-search-tree.py:51-63 | insertion adds exactly the new node and keeps the root of a non-empty tree |
| `SearchTree.InsertKeepsBst` | 04-binary-search-tree.py:51-63 | insertion keeps the search-tree order: smaller keys on the left, equal or greater keys on the right |
| `SearchTree.InsertKeepsDistinct` | 04-binary-search-tree.py:51-63 | inserting a node not yet in the tree keeps every node in one place |
| `SearchTree.InsertedIsLeaf` | 04-binary-search-tree.py:55-63 | the new node hangs as a leaf |
| `SearchTree.SearchFinds` | 04-binary-search-tree.py:65-73 | in a search tree `search` finds a node exactly when the key is present (otherwise the null node) |
| `SearchTree.Search` | 04-binary-search-tree.py:65-73 | the node `search` returns, if any, is a node of the tree |
| `SearchTree.SearchFound` | 04-binary-search-tree.py:65-73 | the node found is a node of the tree holding the key |
| `SearchTree.Minimum` | 04-binary-search-tree.py:77-81 | the node reached has no left child |
| `SearchTree.Maximum` | 04-binary-search-tree.py:85-89 | the node reached has no right child |
| `SearchTree.MinimumIsLeast` | 04-binary-search-tree.py:75-81 | in a search tree the minimum's key is in the tree and at most every key |
| `SearchTree.MaximumIsGreatest` | 04-binary-search-tree.py:83-89 | in a search tree the maximum's key is in the tree and at least every key |
| `SearchTree.MinimumInTree` | 04-binary-search-tree.py:77-81 | the minimum is a node of the tree |
| `SearchTree.MaximumInTree` | 04-binary-search-tree.py:85-89 | the maximum is a node of the tree |
| `SearchTree.MinimumFirst` | 04-binary-search-tree.py:186-189 | the minimum is the first node in inorder |
| `SearchTree.Successor` | 04-binary-search-tree.py:196-203 | the successor `tree_successor` answers is a node of the tree, and only nodes of the tree have one |
| `SearchTree.NodeSuccessorAsWritten` | 04-binary-search-tree.py:91-98 | the successor `Node.successor` answers is a node of the tree, and only nodes of the tree have one |
| `SearchTree.SuccessorIsInorderNext` | 04-binary-search-tree.py:196-203 | `tree_successor(x)` is the node after x in inorder, or none after the last |
| `SearchTree.NodeSuccessorAgrees` | 04-binary-search-tree.py:91-98 | `Node.successor` agrees with `tree_successor` except on a right child without a right subtree |
| `SearchTree.NodeSuccessorCounterexample` | 04-binary-search-tree.py:91-98 | on the demo tree, `Node.successor` of key 2 answers the node itself where `tree_successor` answers key 3 |
| `SearchTree.UpStep` | 04-binary-search-tree.py:199-202 | one step of the climb moves to a strictly shallower parent, and the first left ancestor is that parent or the parent's own |
| `SearchTree.DeleteIsReplace` | 04-binary-search-tree.py:217-230 | deleting z replaces z's subtree by that subtree with its root deleted |
| `SearchTree.RemoveMinIsReplace` | 04-binary-search-tree.py:223-227 | splicing out the minimum replaces it by its right subtree |
| `SearchTree.DeleteT` | 04-binary-search-tree.py:217-230 | `delete(z)` for a node z outside the tree changes nothing |
| `SearchTree.DeleteKeys` | 04-binary-search-tree.py:217-230 | `delete(z)` removes one occurrence of z's key and no other key |
| `SearchTree.DeleteIds` | 04-binary-search-tree.py:217-230 | `delete(z)` removes exactly node z and keeps every other node in one place |
| `SearchTree.DeleteKeepsBst` | 04-binary-search-tree.py:217-230 | `delete(z)` keeps the search-tree order |
| `SearchTree.Inorder` | 04-binary-search-tree.py:126-133 | the keys `inorder_tree_walk` prints: left subtree, node, right subtree (no contract of its own; `InorderKeys` and `InorderSorted` state its properties) |
| `SearchTree.Preorder` | 04-binary-search-tree.py:135-142 | the keys `preorder_tree_walk` prints: node, left subtree, right subtree (no contract of its own; `PreorderKeys` states its property) |
| `SearchTree.PostorderAsWritten` | 04-binary-search-tree.py:144-151 | the keys `postorder_tree_walk` prints: both subtrees in preorder, then the node (no contract of its own; `PostorderAsWrittenKeys` and `PostorderCounterexample` state its properties) |
| `SearchTree.InorderKeys` | 04-binary-search-tree.py:126-133 | the inorder walk prints every key of the tree once |
| `SearchTree.InorderSorted` | 04-binary-search-tree.py:126-133 | in a search tree the inorder walk prints the keys in non-decreasing order |
| `SearchTree.InorderIdsAreIds` | 04-binary-search-tree.py:126-133 | the inorder walk visits exactly the nodes of the tree |
| `SearchTree.PreorderKeys` | 04-binary-search-tree.py:135-142 | the preorder walk prints every key of the tree once |
| `SearchTree.PostorderAsWrittenKeys` | 04-binary-search-tree.py:144-151 | `postorder_tree_walk` as written still prints every key once, only in another order |
| `SearchTree.PostorderIsReversedMirrorPreorder` | 04-binary-search-tree.py:135-151 | a postorder walk is the preorder walk of the mirrored tree, reversed |
| `SearchTree.PostorderKeys` | 04-binary-search-tree.py:144-151 | a postorder walk prints every key once |
| `SearchTree.PostorderCounterexample` | 04-binary-search-tree.py:144-151 | for the search tree built by inserting 1, 3 and 2, `postorder_tree_walk` prints `[3, 2, 1]` where a postorder walk prints `[2, 3, 1]` |
| `SearchTree.DemoShape` | 04-binary-search-tree.py:232-253 | the demo insertions build the stated tree, the inorder walk prints `[1, 2, 3, 5, 6, 9, 12, 12, 12]`, searching 6 finds it and searching 7 finds nothing |
| `BstArena.LinkedFind` | 04-binary-search-tree.py:44-49 | the cell of a node carries its key, the roots of its subtrees and its parent |
| `BstArena.TransplantCells` | 04-binary-search-tree.py:205-215 | only u's parent and v change: the parent's link to u goes to v, v's parent becomes u's parent, and the links stay inside the arena |
| `BstArena.BinarySearchTree.constructor` | 04-binary-search-tree.py:44-49 | an empty tree with no nodes |
| `BstArena.BinarySearchTree.NewNode` | 04-binary-search-tree.py:45-49 | a new node with the key and no links, outside the tree |
| `BstArena.BinarySearchTree.NodeInsert` | 04-binary-search-tree.py:51-63 | the recursive insert links the new node below the last node of the descent and changes nothing else |
| `BstArena.BinarySearchTree.Insert` | 04-binary-search-tree.py:51-63 | the links afterwards spell `InsertT` of the old tree, and no cell of a node outside the new tree changes |
| `BstArena.BinarySearchTree.TreeInsert` | 04-binary-search-tree.py:155-170 | the loop-based insert links `InsertT` of a non-empty old tree; on an empty tree only n's parent is reset to the null node and the tree stays empty, since `tree = n` rebinds a local name; no cell of another node outside the tree changes |
| `BstArena.BinarySearchTree.TreeSearch` | 04-binary-search-tree.py:175-184 | the loop answers `Search` on the subtree at x |
| `BstArena.BinarySearchTree.TreeMinimum` | 04-binary-search-tree.py:186-189 | the loop answers the minimum of the subtree at x |
| `BstArena.BinarySearchTree.TreeMaximum` | 04-binary-search-tree.py:191-194 | the loop answers the maximum of the subtree at x |
| `BstArena.BinarySearchTree.TreeSuccessor` | 04-binary-search-tree.py:196-203 | the climb answers `Successor`, the inorder next node |
| `BstArena.BinarySearchTree.Transplant` | 04-binary-search-tree.py:205-215 | the cells change as `TransplantCells` says; the root becomes v when u had no parent |
| `BstArena.BinarySearchTree.SpliceMinimum` | 04-binary-search-tree.py:223-227 | the minimum of z's right subtree is spliced out and takes over that subtree, with no cell outside it changed |
| `BstArena.BinarySearchTree.DeleteTwoChildren` | 04-binary-search-tree.py:222-230 | the links spell `DeleteT` of the tree, rooted where it says, and only cells of nodes other than z change |
| `BstArena.BinarySearchTree.Delete` | 04-binary-search-tree.py:217-230 | the links afterwards spell `DeleteT` of the old tree, the class invariant holds, and no cell of a node outside the new tree changes, z's own cell included |
| `HashTables.Find` | 05-hash-table.py:50-53 | nothing is found exactly when no entry has the key |
| `HashTables.FindEarliest` | 05-hash-table.py:76-78 | the earliest entry with the key is the one found |
| `HashTables.FindAppend` | 05-hash-table.py:47-53 | an entry appended later is found only when no earlier entry has its key |
| `HashTables.BadHashTable.constructor` | 05-hash-table.py:44-45 | `size` (20 by default) empty slots (none for a negative size) and no entries |
| `HashTables.BadHashTable.Set` | 05-hash-table.py:47-48 | one more slot at the end holding the pair; the earlier entries stay |
| `HashTables.BadHashTable.Get` | 05-hash-table.py:50-53 | the value of the earliest entry with the key, skipping empty slots, or `None` |
| `HashTables.HashTable.constructor` | 05-hash-table.py:60-61 | `size` (20 by default) slots that all hold one empty bucket |
| `HashTables.CharSum` | 05-hash-table.py:64-66 | the loop's total of character codes is at least the code of each character of the key |
| `HashTables.HashTable.Hash` | 05-hash-table.py:63-67 | the sum of the character codes modulo the slot count, an index into the slots; division by zero exactly when there are no slots |
| `HashTables.HashTable.Set` | 05-hash-table.py:69-72 | the pair is appended to the shared bucket, so every slot shows it; division by zero exactly when there are no slots |
| `HashTables.HashTable.Get` | 05-hash-table.py:74-78 | the value of the earliest entry with the key in the bucket, or `None`; division by zero exactly when there are no slots |
| `HashTables.EarliestSetWins` | 05-hash-table.py:69-78 | after setting "a" to 1 and then to 2, `get("a")` answers 1 |
| `LinkedLists.IndexOf` | 06-linked-list.py:70-74 | the first position holding x, or the length when x does not occur |
| `LinkedLists.ArgMinIsLeast` | 06-linked-list.py:89-98 | the position picked holds a least key, and every key before it is greater |
| `LinkedLists.ArgMaxIsGreatest` | 06-linked-list.py:100-109 | the position picked holds a greatest key, and every key before it is smaller |
| `LinkedLists.ChainedInsert` | 06-linked-list.py:51-53 | pointing x at the head and making it the head puts x in front of the walk |
| `LinkedLists.ChainedRemove` | 06-linked-list.py:55-60 | pointing the predecessor (or the head) past position i takes that position out of the walk |
| `LinkedLists.BackLinkedInsert` | 06-linked-list.py:124-129 | the doubly linked insert keeps every `prev` link naming the element before |
| `LinkedLists.BackLinkedRemove` | 06-linked-list.py:131-138 | the doubly linked delete takes position i out and keeps every `prev` link right |
| `LinkedLists.GetIn` | 06-linked-list.py:62-68 | the walk of `get(index)` answers the element at the position, or `None` for a negative index or one past the end |
| `LinkedLists.SearchIn` | 06-linked-list.py:70-74 | the walk of `search(key)` answers the first element holding the key, or `None` |
| `LinkedLists.PredecessorIn` | 06-linked-list.py:79-87 | the walk of `predecessor(x)` answers the element before x's first position, `None` for the head |
| `LinkedLists.MinimumIn` | 06-linked-list.py:89-98 | the walk of `minimum()` answers the earliest element with the least key |
| `LinkedLists.MaximumIn` | 06-linked-list.py:100-109 | the walk of `maximum()` answers the earliest element with the greatest key |
| `LinkedLists.LinkFrontIn` | 06-linked-list.py:124-129 | the doubly linked relinking puts x in front with no `prev`, points the old head back at x, keeps every `prev` link right, and changes no other cell |
| `LinkedLists.DetachIn` | 06-linked-list.py:131-138 | the doubly linked unlinking takes position i out of the walk, keeps every `prev` link right, and makes x's successor the head when x was the head |
| `LinkedLists.SinglyLinkedList.constructor` | 06-linked-list.py:48-49 | an empty list |
| `LinkedLists.SinglyLinkedList.NewElement` | 06-linked-list.py:36-41 | a new element with the key and no links, outside the list |
| `LinkedLists.SinglyLinkedList.Insert` | 06-linked-list.py:51-53 | x becomes the head, its key comes first, and only x's `next` link changes |
| `LinkedLists.SinglyLinkedList.Delete` | 06-linked-list.py:55-60 | x and its key leave the list, the rest keeps its order, and only the predecessor's link (or the head) changes |
| `LinkedLists.SinglyLinkedList.Get` | 06-linked-list.py:62-68 | the element at the position, or `None` for a negative index or one past the end |
| `LinkedLists.SinglyLinkedList.Search` | 06-linked-list.py:70-74 | the first element holding the key; `None` exactly when no element holds it |
| `LinkedLists.SinglyLinkedList.Successor` | 06-linked-list.py:76-77 | the element after x in the list, or `None` for the last |
| `LinkedLists.SinglyLinkedList.Predecessor` | 06-linked-list.py:79-87 | the element before x; `None` exactly when x is the head |
| `LinkedLists.SinglyLinkedList.Minimum` | 06-linked-list.py:89-98 | the earliest element with the least key; `None` exactly for the empty list |
| `LinkedLists.SinglyLinkedList.Maximum` | 06-linked-list.py:100-109 | the earliest element with the greatest key; `None` exactly for the empty list |
| `LinkedLists.DoublyLinkedList.constructor` | 06-linked-list.py:121-122 | an empty list |
| `LinkedLists.DoublyLinkedList.NewElement` | 06-linked-list.py:36-41 | a new element with the key and no links, outside the list |
| `LinkedLists.DoublyLinkedList.Insert` | 06-linked-list.py:124-129 | x becomes the head with no `prev`, and the old head points back at x |
| `LinkedLists.DoublyLinkedList.Delete` | 06-linked-list.py:131-138 | x and its key leave the list; the element before x is pointed past it, the element after x back past it |
| `LinkedLists.DoublyLinkedList.Get` | 06-linked-list.py:140-146 | the element at the position, or `None` for a negative index or one past the end |
| `LinkedLists.DoublyLinkedList.Search` | 06-linked-list.py:148-152 | the first element holding the key; `None` exactly when no element holds it |
| `LinkedLists.DoublyLinkedList.Successor` | 06-linked-list.py:154-155 | the element after x in the list, or `None` for the last |
| `LinkedLists.DoublyLinkedList.Predecessor` | 06-linked-list.py:157-158 | the `prev` link of an element is the element before it in the list |
| `LinkedLists.DoublyLinkedList.Minimum` | 06-linked-list.py:160-169 | the earliest element with the least key; `None` exactly for the empty list |
| `LinkedLists.DoublyLinkedList.Maximum` | 06-linked-list.py:171-180 | the earliest element with the greatest key; `None` exactly for the empty list |
| `ArrayLists.PositiveCapacity` | 07-array-list.py:28-41 | a capacity of the form start·2^k is at least 1 exactly when the starting capacity is |
| `ArrayLists.ArrayList.constructor` | 07-array-list.py:23-26 | `starting_capacity` (1 by default) empty slots (none when it is not positive), size 0 |
| `ArrayLists.ArrayList.Append` | 07-array-list.py:28-41 | a full list doubles its capacity and keeps its elements; x is stored after them; the write fails exactly when the starting capacity is below 1 |
| `ArrayLists.ArrayList.Get` | 07-array-list.py:43-45 | the element at positions 1 up to size - 1; `None` for position 0 and everything else |
| `ArrayLists.ArrayList.GetFixed` | 07-array-list.py:43-45 | the element at every position 0 up to size - 1 |
| `ArrayLists.AppendRange` | 07-array-list.py:51-55 | appending 0 up to n - 1 to a list of starting capacity 1 stores them in order, with a power-of-two capacity of at least n |
| `ArrayLists.FirstElementUnreachable` | 07-array-list.py:43-45 | after appending 7, slot 0 holds 7 but `get(0)` answers `None` |
| `ArrayLists.FirstElementFixed` | 07-array-list.py:43-45 | with the corrected bound `get(0)` answers 7 |
| `ArraysAndStrings.PigeonHole` | 08-arrays-and-strings.py:25-30 | a one-byte string longer than 256 characters repeats one |
| `ArraysAndStrings.CharactersAreUnique` | 08-arrays-and-strings.py:23-46 | True exactly when no character occurs twice |
| `ArraysAndStrings.UniqueExamples` | 08-arrays-and-strings.py:126-127 | "abcdefg" is unique, "abcdefga" is not |
| `ArraysAndStrings.SortChars` | 08-arrays-and-strings.py:74 | `sorted` returns the characters of the string in ascending order |
| `ArraysAndStrings.SortsAgree` | 08-arrays-and-strings.py:53-63 | two strings sort alike exactly when they hold the same characters |
| `ArraysAndStrings.IsPermutation` | 08-arrays-and-strings.py:64-74 | `is_permutation` answers False for strings of different lengths and True for equal strings (its exact meaning is `IsPermutationMeansSameCharacters`) |
| `ArraysAndStrings.IsPermutationMeansSameCharacters` | 08-arrays-and-strings.py:64-74 | `is_permutation` is True exactly when the two strings hold the same characters |
| `ArraysAndStrings.PermutationExamples` | 08-arrays-and-strings.py:130-132 | the three asserted answers of the demo |
| `ArraysAndStrings.EscapeSpacesRegexp` | 08-arrays-and-strings.py:84-85 | `replace(' ', '%20')`: every space grows into three characters, so the result is two characters longer per space |
| `ArraysAndStrings.EscapedHasNoSpace` | 08-arrays-and-strings.py:84-85 | no space is left after escaping |
| `ArraysAndStrings.EscapeWithoutSpaces` | 08-arrays-and-strings.py:84-85 | a string without spaces comes back unchanged |
| `ArraysAndStrings.RegexpExample` | 08-arrays-and-strings.py:135 | "Hello, the World!" escapes to "Hello,%20the%20World!" |
| `ArraysAndStrings.CountSpaces` | 08-arrays-and-strings.py:95-98 | the first pass counts the spaces among the first strlen characters |
| `ArraysAndStrings.CopyBackward` | 08-arrays-and-strings.py:110-119 | the backward copy writes the escaped string into the first strlen + 2·spaces cells, without overwriting an unread character, and leaves the cells after them alone |
| `ArraysAndStrings.EscapeSpaces` | 08-arrays-and-strings.py:91-121 | in place, the first strlen + 2·spaces cells hold the escaped string (the same as `escape_spaces_regexp`) and the rest of the buffer is unchanged |
| `ArraysAndStrings.EscapeSpacesExample` | 08-arrays-and-strings.py:136-137 | the demo buffer escapes to "Hello,%20the%20World!    " |

## Left out

- Printing is not modelled: the walks' `print`, `__str__`, `__repr__` and the demo output lines. Each walk is modelled as the sequence of keys it prints.
- `SearchTree.Preorder`: `preorder_tree_walk` also prints the `None` returned by each recursive walk; the model keeps only the keys.
- `lib.get_random_int_array` and `lib.test_array_sort` are left out. They rest on random numbers and the clock; the property they assert is stated as the sorting lemmas.
- `lib.test_linked_list` and `lib.test_hash_table` are called by the demos but are not defined in lib.py, so they are not part of this model.
- Integers are unbounded, as Python's are; no width limits apply.
- Comparisons are on `int` keys (on `char` for strings). The sorts take the element type generically only where the code passes a comparison function (insertion sort).
- `BstArena.BinarySearchTree.Transplant`: when u has no parent, the source's `self = n` / `tree = v` only rebinds a local name, and the caller's root is unchanged. The model moves the root to v, which is the behaviour the delete code relies on. v's parent follows `tree_transplant` (line 215, `v.p = u.p`), so a new root gets the null node as parent. The method `Node._transplant` (lines 100-109) differs there: after `self = n`, `n.p = self.p` reads n's own parent, so v keeps u as its parent; that variant is not modelled.
- `BstArena.BinarySearchTree.Delete`: line 227 reads `y.ripht.p = y`, which would raise `AttributeError`. The model follows the recursive `delete` (line 121), which sets `y.right.p`.
- `BstArena.BinarySearchTree.Insert`: the tree must be non-empty, as `tree.insert(n)` calls a method on the root. Inserting a node already in the tree is excluded, since it would create a cycle.
- `SearchTree.Search`: the null node `Node(None)` is `None`; its `key` field (None) is not modelled.
- `LinkedLists.SinglyLinkedList.Delete`: requires x to be in the list. For an absent x the source points the last element (or the head of an empty list) at x's successor, grafting x's tail onto the list.
- `LinkedLists.SinglyLinkedList.Insert`: requires x not to be in the list. Re-inserting an element would create a cycle.
- `LinkedLists.DoublyLinkedList.Insert`: requires x not to be in the list. Re-inserting an element would create a cycle.
- `LinkedLists.DoublyLinkedList.Delete`: requires x to be in the list; the source's behaviour on an element of another list is not modelled.
- `LinkedLists.SinglyLinkedList.Predecessor`: for an x outside the list it answers the last element, as the walk does; the contract states that case only through `At`.
- `HashTables`: keys are strings, so `str(key)` is the key itself and `ord(c)` is the character's code. Non-string keys are not modelled.
- `ArrayLists.ArrayList.Append`: `IndexError` is modelled as the result `false` with the list unchanged, not as an exception.
- `ArrayLists.AppendRange`: the demo's 10000 appends are generalised to any n.
- `ArraysAndStrings.CharactersAreUnique`: requires a one-byte string, as in Python 2 `str`. For a wider character the 256-slot table would raise `IndexError`.
- `ArraysAndStrings.SortChars`: Python's `sorted` is modelled as an insertion sort by character. Only its result matters, and any sort gives the same one.
- `ArraysAndStrings.EscapeSpacesRegexp`: ignores `strlen`, as the source does.
- `ArraysAndStrings.EscapeSpaces`: requires the buffer to have room for the escaped string, as the exercise assumes. With less room the source raises `IndexError`.

## Findings

| source | as written | input that shows it | evidently intended | confidence | as-written member | corrected member |
|---|---|---|---|---|---|---|
| 01-merge-sort.py:55-62 | `for i in right: ...; right.pop(0)` iterates over the list it pops from, so only every other item of a tail is appended | `merge([1], [2, 3, 4])` gives `[1, 2, 4, 4]`; `merge_sort([1, 2, 3, 4, 5])` gives `[1, 2, 3, 5, 5]` | the whole tail is appended, and `merge_sort` returns a sorted permutation | not executed | `MergeSort.MergeSortCounterexample` | `MergeSort.MergeSortFixedSorts` |
| 02-heapsort.py:93 | the build starts at `len(data) / 2 - 1`, so for odd lengths the last internal node `len / 2` is never heapified | `heap_sort([1, 0, 5])` returns `[0, 5, 1]` | the build starts at `(len - 1) / 2` (the last node with a child under 0-based `2i` / `2i + 1`) and every input is sorted | not executed | `HeapSort.HeapSortOddCounterexample` | `HeapSort.HeapSortFixedSorts` |
| 04-binary-search-tree.py:95-98 | a right child without a right subtree asks its parent for the parent's successor, which descends into the child's own subtree | on the demo tree, the successor of key 2 is node 2 itself | the first ancestor reached from a left child, as in `tree_successor` | not executed | `SearchTree.NodeSuccessorCounterexample` | `SearchTree.SuccessorIsInorderNext` |
| 04-binary-search-tree.py:144-151 | `postorder_tree_walk` walks the subtrees with `preorder_tree_walk` | for the tree built by inserting 1, 3 and 2 it prints 3 before 2 | both subtrees walked in postorder | not executed | `SearchTree.PostorderCounterexample` | `SearchTree.PostorderIsReversedMirrorPreorder` |
| 07-array-list.py:44 | `get` checks `index > 0`, so position 0 is never returned | after `append(7)`, `get(0)` answers `None` | `index >= 0` | not executed | `ArrayLists.FirstElementUnreachable` | `ArrayLists.FirstElementFixed` |
