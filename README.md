# A verified model of the study tool's data structures

The study tool is a desktop revision application for A-level Computer
Science students. Behind its screens sit a few teaching structures and a
layer of small validators:

- a recursive merge sort;
- a binary search tree with manual insertion, pre-, in- and post-order
  traversals and a balanced build;
- a family of bounded containers: `Queue`, `PriorityQueue`, `CircularQueue`
  and `Stack`;
- flashcards and card packs;
- the part of the `DataHandler` glue class that needs no database:
  - building a graph's adjacency list node by node and edge by edge;
  - reading an adjacency matrix typed as comma-separated integers;
  - rendering either form as an adjacency-matrix table;
  - validating the tree-demo input, new usernames, pack names and cards;
  - stepping through theory pages;
  - reversing the leaderboard.

This project models those parts in Dafny and proves what each operation
promises.

## Layout

| file | module | what it holds |
|---|---|---|
| `common.dfy` | `Common` | Python-style results. `Outcome` is "an item or `False`", `Completion` is "a value or a raised exception", `Check` is "`True` or a message". Also Python indexing with negative indices, list reversal and distinctness. |
| `text.dfy` | `Text` | The Python builtins the validators use, over ASCII: `split`, `join`, `strip`, `replace` of one character, `int()` of a string, `str()` of an int, and string ordering and `sorted` on strings. |
| `merge_sort.dfy` | `MergeSort` | `sort` as a recursive function. `_merge` as a method with the source's two-index loop. |
| `search_tree.dfy` | `SearchTree` | The tree as a datatype, insertion, the traversals and the balanced build. The class `BinarySearchTree` holds the root that `add_node`, `build_tree` and `build_balanced_tree` replace. |
| `queues.dfy` | `Queues` | One class per container. `CircularQueue` keeps the source's fixed-length array, written in place. |
| `cards.dfy` | `Cards` | `Card` (all three variants, told apart by `kind`) and `CardPack` with its cursor. |
| `graphs.dfy` | `Graphs` | Adjacency-list updates, matrix parsing and reshaping, the table text, and the class `Graph` that holds the three fields `DataHandler` updates. |
| `data_handler.dfy` | `DataHandler` | The remaining validators of `DataHandler`. Card creation as the class `CardCreator`, the theory-page cursor as `TheoryReader`, the leaderboard as `Leaderboard`, and the tree demo as `TreeDemo`. |

Each validator is a pure function. Most return `Check`: `Accepted` or
`Rejected(message)`, with the source's exact message texts. Three return
something else: `DataHandler.ValCreateUsername` returns the list of messages,
and `DataHandler.ParseTreeInput` and `Graphs.ParseMatrix` return a `Result`
that holds either the parsed value or the message. Each method that changes
state then ensures that its answer is that function of the old state. A
value-level invariant with a preservation lemma says that the new state keeps
the data well formed.

Two behaviours of the code on equal values are worth stating:

- **Merge ties.** `_merge` takes the left head only when it is strictly
  smaller (merge_sort.py:46), so on equal heads the right element comes
  first. On lists of `int` the two heads are the same value, so the merged
  list is the same whichever side a tie is taken from.
- **Duplicate values in the tree.** `_add_node_recursive`
  (binary_search_tree.py:64-73) drops a value equal to an existing node,
  because it falls through both comparisons.

## Model

| member | source | states |
|---|---|---|
| Common.PyIndex | cards.py:189-191 | Python indexing: defined exactly for `-len <= i < len`, with a negative index counting from the end |
| Common.ReversedInvolution | data_handler.py:734-738 | reversing a list twice gives it back, so two calls of `leaderboard_data_reverse` restore the order |
| Common.ReversedMultiset | data_handler.py:737 | `[::-1]` keeps every row: the multiset is unchanged |
| Text.SplitJoin | data_handler.py:770 | `str.split` always yields at least one piece, and joining the pieces with the separator gives the text back |
| Text.JoinSplit | data_handler.py:770 | splitting the join of separator-free pieces gives the pieces back |
| Text.SplitNoSeparator | queues.py:125 | text without the separator splits into itself alone |
| Text.SplitAfterPiece | queues.py:125 | `split` cuts at the first separator: the first piece is everything before it |
| Text.RemoveAbsent | data_handler.py:986 | removing a character that does not occur leaves the text unchanged |
| Text.StripSpec | data_handler.py:1090 | `strip` keeps a contiguous part of the text with no whitespace at either end |
| Text.ParseInt | data_handler.py:1118-1124 | `int()` of a string: optional surrounding whitespace and sign, digits with single underscores between them; `None` for the ValueError |
| Text.ParseIntRoundTrip | data_handler.py:1118-1124 | `int(str(i)) == i` for every integer |
| Text.ParseAll | data_handler.py:772-773 | every token parses exactly when the result exists, and its entries are the parsed tokens in order |
| Text.ParseAllRoundTrip | data_handler.py:772-773 | the decimal texts of a list of integers parse back to that list |
| Text.IntToStringAvoids | data_handler.py:1085-1086 | `str(i)` contains no separator such as `,` or space |
| Text.StrLessTransitive | queues.py:129 | Python's string order is transitive |
| Text.StrLessTotal | queues.py:129 | Python's string order is total: of two different strings one is smaller |
| Text.SortStrings | data_handler.py:1094 | `sorted` returns a permutation of its argument |
| Text.SortStringsSorted | data_handler.py:1094 | `sorted` returns the strings in ascending order |
| Text.SortStringsStrict | data_handler.py:1094 | sorting distinct names gives a strictly ascending list |
| MergeSort.Merge | merge_sort.py:32-54 | the two-index loop produces `Merged(left, right)`: a tie takes the right head, and the leftovers of both lists are appended |
| MergeSort.MergedPermutes | merge_sort.py:43-54 | the merge is a permutation of the two inputs together, so its length is their sum |
| MergeSort.MergedSorted | merge_sort.py:43-54 | merging two sorted lists gives a sorted list |
| MergeSort.MergeTieTakesRight | merge_sort.py:46-51 | on equal heads the right head is emitted first (on `int` lists the result does not show which side a tie came from) |
| MergeSort.Sort | merge_sort.py:12-29 | `sort` returns a sorted permutation of its input, equal to `MergeSortOf` |
| MergeSort.SortShortIsIdentity | merge_sort.py:22-23 | a list of length at most 1 is returned unchanged |
| MergeSort.HalvesShorter | merge_sort.py:24-28 | for length at least 2 both halves at `len // 2` are strictly shorter |
| MergeSort.MergeSortOfPermutes | merge_sort.py:24-29 | the sort's result is a permutation of its input |
| MergeSort.MergeSortOfSorted | merge_sort.py:12-29 | the sort's result is non-decreasing |
| MergeSort.SortOfSortedIsIdentity | merge_sort.py:12-29 | sorting an already sorted list returns it unchanged |
| MergeSort.SortIdempotent | merge_sort.py:12-29 | sorting twice equals sorting once |
| SearchTree.Insert | binary_search_tree.py:42-73 | inserting adds exactly the value and keeps the search-tree order; an empty tree becomes a single leaf |
| SearchTree.InsertPresent | binary_search_tree.py:64-73 | inserting a value already in the tree leaves the tree unchanged |
| SearchTree.InsertAll | binary_search_tree.py:75-78 | `build_tree` inserts every value in turn: the elements are the old ones plus the input, and the order is kept |
| SearchTree.RootFirstAndLast | binary_search_tree.py:98-155 | pre-order starts with the root value and post-order ends with it |
| SearchTree.TraversalsPermute | binary_search_tree.py:98-155 | the three traversals are permutations of one another |
| SearchTree.InOrderElements | binary_search_tree.py:117-135 | in-order lists exactly the tree's values |
| SearchTree.InOrderAscending | binary_search_tree.py:117-135 | the in-order traversal of a search tree is strictly ascending |
| SearchTree.BuildBalanced | binary_search_tree.py:168-185 | the tree built from a list has one node per entry |
| SearchTree.BalancedInOrder | binary_search_tree.py:168-185 | building around `values[len // 2]` and reading back in order gives the list back |
| SearchTree.AscendingIsBst | binary_search_tree.py:168-185 | a tree whose in-order is strictly ascending is a search tree |
| SearchTree.BalancedSplit | binary_search_tree.py:178-184 | the left subtree gets `n // 2` nodes and the right `n - n // 2 - 1` |
| SearchTree.BalancedHeight | binary_search_tree.py:178-184 | the balanced tree's height is the bit length of `n`, which is ⌈log2(n+1)⌉ |
| SearchTree.BalancedIsLowest | binary_search_tree.py:178-184 | no tree with the same number of nodes is lower |
| SearchTree.Dedupe | binary_search_tree.py:164 | `list(set(values))` has no duplicates and the same members as the input |
| SearchTree.BalancedOf | binary_search_tree.py:157-166 | the balanced build is a search tree over the input's values, and its in-order is the sorted distinct input |
| SearchTree.BuildOrdersAgree | binary_search_tree.py:75-78 | both ways of building give the same in-order traversal |
| SearchTree.BinarySearchTree.AddNode | binary_search_tree.py:42-52 | the root becomes `Insert(old root, value)` and gains exactly that value |
| SearchTree.BinarySearchTree.BuildTree | binary_search_tree.py:75-78 | the loop of `add_node` calls leaves `InsertAll(old root, values)` |
| SearchTree.BinarySearchTree.PreOrderTraversal | binary_search_tree.py:98-115 | raises on an empty tree; otherwise one entry per node, with the root first |
| SearchTree.BinarySearchTree.InOrderTraversal | binary_search_tree.py:117-135 | raises on an empty tree; otherwise the tree's values, strictly ascending |
| SearchTree.BinarySearchTree.PostOrderTraversal | binary_search_tree.py:137-155 | raises on an empty tree; otherwise one entry per node, with the root last |
| SearchTree.BinarySearchTree.BuildBalancedTree | binary_search_tree.py:157-166 | the root is replaced by the balanced tree of the input's distinct values |
| Queues.Queue.IsFull | queues.py:72-74 | full exactly when the size has reached `max_size` |
| Queues.Queue.Size | queues.py:82-84 | the size never exceeds `max_size` and is 0 exactly when the queue is empty |
| Queues.Queue.Peek | queues.py:76-80 | the head item, or `False` exactly when the queue is empty |
| Queues.Queue.Enqueue | queues.py:40-54 | on a full queue answers `False` and changes nothing; otherwise appends the item, which is returned, and `rear` stays at the last index |
| Queues.Queue.Dequeue | queues.py:56-66 | returns what `peek` returned and removes the head, if there is one |
| Queues.QueueFifo | queues.py:40-66 | items enqueued and then dequeued come out in the order they went in |
| Queues.InsertEntry | queues.py:129 | `heappush` adds exactly the one `(priority, item)` entry |
| Queues.InsertEntrySorted | queues.py:129 | after a push the entries stay in heap order, so the root is the least pair |
| Queues.EntryLessEqTotal | queues.py:129 | Python's tuple order on `(priority, item)` is total, so ties between priorities are broken by the item text |
| Queues.PriorityQueue.Enqueue | queues.py:113-130 | the priority is parsed before the capacity check: a malformed item raises `ValueError`; a full queue answers `False`; otherwise the entry is added |
| Queues.PriorityQueue.Dequeue | queues.py:132-143 | `False` on an empty queue, otherwise removes and returns the item of the least `(priority, item)` pair |
| Queues.PriorityQueue.Peek | queues.py:145-149 | `False` exactly when the queue is empty, otherwise the least pair's item followed by " with priority " and its priority |
| Queues.PriorityOfPrefix | queues.py:125 | an item written as a natural number, a `-` and any text has that number as its priority |
| Queues.SamplePriorities | queues.py:125 | the priority is the integer before the item's first `-` |
| Queues.PriorityOrderExample | queues.py:129-141 | items pushed as 5, 1, 3 are held in the order 1, 3, 5 |
| Queues.RingEnqueue | queues.py:182-200 | writing at `(rear + 1) % max_size`, or at slot 0 when empty, keeps the ring invariant with the item appended |
| Queues.RingDequeue | queues.py:202-218 | the front slot holds the first item, `front == rear` exactly when one item is left, and advancing `front` keeps the ring invariant |
| Queues.CircularQueue.constructor | queues.py:170-180 | an array of `max_size` empty slots and an empty queue |
| Queues.CircularQueue.IsEmpty | queues.py:228-230 | empty exactly when `current_size` is 0 |
| Queues.CircularQueue.IsFull | queues.py:224-226 | full exactly when `current_size` equals `max_size` |
| Queues.CircularQueue.Size | queues.py:220-222 | `current_size` is the number of items held and never exceeds `max_size` |
| Queues.CircularQueue.Enqueue | queues.py:182-200 | `False` and no change when full; otherwise one array slot is written and the item becomes the rear |
| Queues.CircularQueue.Dequeue | queues.py:202-218 | `False` when empty; otherwise the front item is returned, only the pointers and the size move, and the array is untouched |
| Queues.CircularQueue.Peek | queues.py:232-236 | the front item, or `False` exactly when empty |
| Queues.CircularQueue.RearItem | queues.py:238-242 | the rear item, or `False` exactly when empty |
| Queues.PointerDistance | queues.py:194-217 | a non-empty queue has `(rear - front) % max_size == current_size - 1` |
| Queues.WraparoundExample | queues.py:182-218 | in a queue of three slots, enqueuing three items, dequeuing one and enqueuing another wraps the rear round to slot 0 while the front is at slot 1 |
| Queues.CircularFifo | queues.py:182-218 | items enqueued and then dequeued come out in the order they went in |
| Queues.Stack.Size | queues.py:312-314 | the size never exceeds `max_size` and is 0 exactly when the stack is empty |
| Queues.Stack.IsFull | queues.py:304-306 | full exactly when the size has reached `max_size` |
| Queues.Stack.Push | queues.py:272-285 | `False` and no change when full; otherwise the item goes on top and is returned |
| Queues.Stack.Pop | queues.py:287-296 | `None` on an empty stack, otherwise removes and returns the top item |
| Queues.Stack.Peek | queues.py:298-302 | the top item, or `None` exactly when the stack is empty |
| Queues.Stack.Front | queues.py:316-319 | `front + size == max_size` |
| Queues.Stack.QueueView | queues.py:321-326 | the view is padded with `None` to `max_size` and lists the items from the top down |
| Queues.ViewEnds | queues.py:317-326 | in the view, the top item sits at index `front` and the bottom item at the last index |
| Queues.StackLifo | queues.py:272-296 | items pushed and then popped come out in reverse order |
| Cards.KindName | cards.py:14 | each class's `question_type` text; only the multiple-choice card is "Multiple Choice" |
| Cards.Card.constructor | cards.py:9-15 | a new card has no question or answer, 0 points and id 0 |
| Cards.Card.Answer | cards.py:84-87 | a multiple-choice card answers with its "correct" entry, the others with their plain answer |
| Cards.Card.WriteToCard | cards.py:37-48 | sets question, answer and points and nothing else |
| Cards.Card.WriteChoiceCard | cards.py:97-109 | sets question and points; the choices are replaced only when a dictionary is passed |
| Cards.Card.SetAnswer | cards.py:50-52 | the card's answer becomes the given one |
| Cards.Card.AddChoice | cards.py:89-91 | appends to "all" and leaves "correct" alone; every other field (question, answer, points, id, revealed state) is unchanged |
| Cards.Card.SetCardId | cards.py:54-56 | sets the id; question, answer, points, choices and revealed state are unchanged |
| Cards.Card.ToggleRevealedState | cards.py:119-122 | flips the state and returns the new one; question, answer, points, id and choices are unchanged |
| Cards.ToggleTwice | cards.py:119-122 | two toggles restore the original state |
| Cards.Info | cards.py:170-181 | `next_card`'s dictionary: question, points and type, with the choices map as the answer of a multiple-choice card |
| Cards.CardPack.constructor | cards.py:126-137 | an empty pack with its cursor at -1, which establishes the cursor invariant `Valid` (cursor at least -1) |
| Cards.CardPack.AddCard | cards.py:149-156 | appends and keeps the earlier cards and the cursor, preserving `Valid` |
| Cards.CardPack.NextCard | cards.py:159-181 | on a valid pack the cursor moves first and stays valid; `False` exactly when it reaches the card count, the card's dictionary when it is on a card, an IndexError past the end |
| Cards.CardPack.CurrentCardObj | cards.py:189-191 | `cards_list[current_card_index]` with Python indexing: the last card before the first `next_card`, an IndexError out of range |
| Cards.WalkPack | cards.py:126-181 | a fresh pack hands out every card's dictionary in the order added, then `False` |
| Graphs.WithNodeWellFormed | data_handler.py:1038-1040 | adding a new name with an empty list keeps the adjacency list well formed and symmetric |
| Graphs.WithEdge | data_handler.py:1068-1070 | the edge is added, plus its reverse when undirected; no other entry changes |
| Graphs.WithEdgeWellFormed | data_handler.py:1057-1070 | an edge that passes the checks keeps every list inside the graph, free of self-loops and free of repeats |
| Graphs.WithEdgeUndirected | data_handler.py:1068-1070 | an undirected edge keeps a symmetric graph symmetric |
| Graphs.Isqrt | data_handler.py:992 | the integer square root: `r*r <= n < (r+1)*(r+1)` |
| Graphs.IsqrtExact | data_handler.py:992-994 | `side * side == len(values)` holds exactly when the count is a perfect square |
| Graphs.Chunks | data_handler.py:998-1001 | the rows cut from a flat list read back as that list, none longer than `side` |
| Graphs.ChunksFull | data_handler.py:998-1001 | when the count is `side * k`, there are `k` rows of exactly `side` values |
| Graphs.ChunksOfFlatten | data_handler.py:998-1001 | reshaping a flattened square matrix gives the matrix back |
| Graphs.ParseMatrix | data_handler.py:970-1005 | an empty input, a non-integer token or a non-square count is rejected with its message; otherwise a square, non-empty matrix whose rows read back as the tokens |
| Graphs.ParseMatrixRoundTrip | data_handler.py:986-1001 | the comma-separated text of a square matrix is read back as that matrix |
| Graphs.MatrixCells | data_handler.py:1083-1086 | each matrix cell is written as text that reads back as its value |
| Graphs.ListCells | data_handler.py:1096-1104 | a cell is "1" exactly when the column node is in the row node's list, "0" otherwise |
| Graphs.ListCellsSymmetric | data_handler.py:1096-1104 | the table of an undirected graph is symmetric |
| Graphs.Table | data_handler.py:1074-1108 | the matrix takes precedence (its table over labels 1..n), then the adjacency list's 0/1 table over the sorted node names, each of which is a node; there is no table exactly when both are empty |
| Graphs.NodeCheck | data_handler.py:1032-1037 | a name is accepted exactly when it has 1 to 3 characters and is new, with one message for each failure in source order |
| Graphs.EdgeCheck | data_handler.py:1057-1066 | missing node, self-loop and duplicate edge (in either direction when undirected) are rejected in that order |
| Graphs.KeysEmpty | data_handler.py:1093 | the node list is empty exactly when the adjacency dictionary is |
| Graphs.AddNodeInvariant | data_handler.py:1021-1040 | adding an accepted node keeps the graph invariant |
| Graphs.AddEdgeInvariant | data_handler.py:1042-1071 | adding an accepted edge keeps the graph invariant and undirected symmetry |
| Graphs.Graph.AddAdjacencyNode | data_handler.py:1021-1040 | answers `NodeCheck`; on acceptance adds the name with an empty list, otherwise changes nothing |
| Graphs.Graph.AddEdgeAdjacencyList | data_handler.py:1042-1071 | answers `EdgeCheck`; on acceptance the appends in place give `WithEdge`, otherwise nothing changes |
| Graphs.Graph.GenerateGraphFromMatrixString | data_handler.py:970-1005 | stores the parsed matrix on success, keeps the old one and returns the message on failure |
| Graphs.Graph.AdjacencyMatrixTableStr | data_handler.py:1074-1108 | the string-building loops produce `Table` of the current state |
| Graphs.RowText | data_handler.py:1081-1090 | the row loop builds the head, the cells each followed by a space, then strips and ends the line |
| Graphs.BuildTable | data_handler.py:1078-1092 | header line, then one row line per row head |
| DataHandler.ValCreateUsername | data_handler.py:53-76 | exactly one message for an empty name; otherwise a length message exactly when the length is outside 3..20, and a character message exactly when it has characters other than letters, digits and `_` or is all underscores |
| DataHandler.UnderscoresRemoved | data_handler.py:72-74 | with underscores removed, the name is alphanumeric exactly when it has only letters, digits and `_` and not only `_` |
| DataHandler.UnderscoresOnlyRejected | data_handler.py:72-74 | a name made only of underscores is refused |
| DataHandler.ValidatePackNameAsWritten | data_handler.py:554-569 | the source's check: 3 to 30 characters matching the pattern, where `$` also allows one trailing newline |
| DataHandler.PackNameNewlineAccepted | data_handler.py:566-567 | "abc\n" passes the check as written although `\n` is not an allowed character |
| DataHandler.ValidatePackName | data_handler.py:554-569 | accepted exactly when 3 to 30 characters, all letters, digits or spaces |
| DataHandler.PackNameChecksAgree | data_handler.py:566-567 | the two checks differ only on names that end in a newline |
| DataHandler.ParseTreeInput | data_handler.py:768-779 | 2 to 30 comma-separated pieces that are all integers give the integers; otherwise the count message or the integer message |
| DataHandler.TreeInputRoundTrip | data_handler.py:768-779 | a list of 2 to 30 integers written with commas is read back as that list |
| DataHandler.TreeDemo.GenerateTree | data_handler.py:755-791 | on bad input returns the message and keeps the tree; otherwise a new tree, balanced or built in input order |
| DataHandler.ChoiceCheck | data_handler.py:587-607 | accepted exactly when fewer than 4 choices, a correct one by the 4th, new, 1 to 125 characters, and at most one correct; the messages come in source order |
| DataHandler.WithChoice | data_handler.py:600-605 | the answer is appended to "all" and becomes "correct" when flagged |
| DataHandler.ChoiceKeepsValid | data_handler.py:587-607 | an accepted choice keeps: at most 4, distinct, 1 to 125 characters, the correct one among them, and a correct one when there are 4 |
| DataHandler.CardCheck | data_handler.py:636-668 | the prompt and answer length, the duplicate question, the choices of a multiple-choice card and the integer answer, each with its message |
| DataHandler.CardCreator.ValidatePackNameAndCreate | data_handler.py:554-569 | answers `ValidatePackName` (the corrected check, see Findings); on acceptance a new empty pack for the user with its cursor at -1; on rejection the pack is kept |
| DataHandler.CardCreator.AddCardChoice | data_handler.py:571-607 | starts a multiple-choice card if none is pending, answers `ChoiceCheck`, and records the choice exactly when accepted; the pending card's question, answer, points, id and revealed state are kept (the defaults for a new card) |
| DataHandler.CardCreator.DuplicateCardsCheck | data_handler.py:613-618 | true exactly when a card in the pack has this question |
| DataHandler.CardCreator.AddCard | data_handler.py:620-672 | answers `CardCheck`; on acceptance one card of the right kind and contents is appended, the pending card is cleared, and the cursor is kept; on rejection the pack's cards, the pending card and all its fields are unchanged |
| DataHandler.View | data_handler.py:391-403 | the page's heading, its 1-based number, the lines joined by blank lines, and an image path only when one is set |
| DataHandler.Turn | data_handler.py:385-387 | the next or previous index when it is inside the page list, else nothing |
| DataHandler.TurnBack | data_handler.py:385-390 | a page forward and then a page back returns to the same page |
| DataHandler.ForwardFromStart | data_handler.py:385-390 | from -1, the cursor of a freshly loaded topic, `n + 1` forward turns in a row reach page `n` for every page, and the turn after the last page fails |
| DataHandler.TheoryReader.GetNextTheoryPage | data_handler.py:370-403 | `False` and no move outside the list; otherwise moves the cursor, marks completion exactly on the last page, and returns its view |
| DataHandler.Leaderboard.LeaderboardDataReverse | data_handler.py:734-738 | the field is replaced by a reversed copy of the rows, which is returned; it holds the same rows |
| DataHandler.ReverseTwice | data_handler.py:734-738 | two reversals restore the original order |

## Left out

- User interface, database, network and rendering: the screens, every `db` call, `render_as_image`, the graph drawing, `resize_image` and image files are not part of this model. `GetNextTheoryPage` returns `completes` where the source calls `complete_topic`.
- `generate_graph_from_adjacency_list` only hands the dictionary to the drawing code. It is not part of this model.
- Graphs.Isqrt: replaces `int(np.sqrt(len(values)))`. It assumes the float square root rounds correctly, which holds for the short inputs the tool takes.
- DataHandler.View: leaves out `textwrap.fill` to 70 columns, and returns the image path's components rather than a path joined onto the working directory.
- Text.ParseInt: `int()` here reads ASCII digits only and skips only ASCII whitespace around them; Python also accepts other Unicode digits and strips Unicode whitespace such as `\xa0` and `\x85`.
- Text.StripSpec: `IsSpace` is the ASCII whitespace set. Python's `strip()` also removes non-ASCII whitespace such as `\xa0` and `\x85`, so a node name made of such characters gives a different table row here.
- DataHandler.ValCreateUsername: `isalnum` is taken over ASCII letters and digits only; Python also accepts other Unicode letters.
- SearchTree.Dedupe: `list(set(values))` has an order Python does not specify. The model picks one order, which does not matter because the result is sorted next.
- Queues.PriorityQueue: the `heapq` array layout is not modelled. The heap is held as its entries in ascending `(priority, item)` order, which gives the same pushes, pops and peeks.
- SearchTree.BinarySearchTree: the tree is a value held in `root`, not linked node objects. The `parent` back-references are left out because only the rendering uses them.
- DataHandler.CardCreator.ValidatePackNameAndCreate: uses the corrected `ValidatePackName`, so it rejects a name ending in a newline such as `"abc\n"`, which the code as written (`ValidatePackNameAsWritten`, see Findings) accepts.
- DataHandler.CardCreator.AddCard: the kind is a three-way datatype. The source silently appends the pending card (or `None`) when `question_type` is none of its three strings; that case is not modelled.
- DataHandler.CardCreator.AddCard: requires a current pack, because the source fails with an AttributeError without one. DuplicateCardsCheck requires the same.
- DataHandler.TreeDemo.GenerateTree: the `try`/`except` around building the tree is left out, because the build cannot raise on validated input.
- Cards.Card.WriteChoiceCard: takes the choices dictionary by value, so later changes through another reference to the same dictionary are not modelled.
- Queues: a negative `max_size` is not modelled; capacities are natural numbers.
- Queues.Stack.Pop: the source documents `False` for an empty stack, but its code returns `None`; the model follows the code.
- Queues.CircularQueue: the card-review items that `_create_queue_item` builds from files and `random` are not part of this model.

## Findings

| source | as written | input that shows it | evidently intended | confidence | as-written member | corrected member |
|---|---|---|---|---|---|---|
| data_handler.py:566-567 | `re.match("^[a-zA-Z0-9 ]*$", pack_name)`: `$` also matches just before a final newline | `"abc\n"` is accepted as a pack name | only letters, digits and spaces, 3 to 30 characters | not executed | DataHandler.ValidatePackNameAsWritten | DataHandler.ValidatePackName |
