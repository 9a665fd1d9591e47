# LearnC core, modelled in Dafny

LearnC is a collection of independent teaching programs in C. This project
models the sequential, deterministic part of those programs and proves what
their code promises:

- **Software renderer.** This is the integer core of `Renderer/src/renderer.c`:
  - a packed ARGB framebuffer that is cleared and painted one clipped pixel at a time;
  - rectangles, Bresenham lines, midpoint circles, filled circles, and triangle outlines and fills;
  - the BMP loader's header checks and row decoder;
  - the 8x8 bitmap text renderer.
- **Data structures.**
  - array and linked stacks, with bracket matching and string reversal;
  - circular and linked queues;
  - singly and doubly linked lists;
  - a binary search tree;
  - a chained hash table;
  - a min-heap with heap sort;
  - an undirected graph with breadth-first search, path test and component count.
- **Memory management.** An arena, a LIFO stack allocator with in-buffer headers, a fixed-size pool and a leak-tracking wrapper.
- **Cryptography.**
  - Base64, using the alphabet and padding of section 4 of RFC 4648;
  - XOR and Caesar ciphers;
  - DJB2 password hashing with a constant-time compare;
  - a password-derived keystream cipher;
  - toy RSA: gcd, extended gcd, modular inverse, modular power, trial division, and key pair, encrypt, decrypt, sign and verify.
- **Algorithms.**
  - bubble, selection, insertion, merge and quick sort;
  - iterative, recursive, first-occurrence and linear search;
  - the recursive classics;
  - N-Queens by backtracking.
- **Scripting language.**
  - the tokenizer;
  - the calculator's recursive-descent parser and evaluator;
  - the variables interpreter with its symbol table;
  - the control-flow interpreter with `if`, `while` and blocks.
- **Other programs.**
  - the text editor's line buffer;
  - the snake game's state and update step;
  - the integer image operations: flips, quarter turn, crop, brightness, invert, threshold, posterize, solarize, mirror, pixelate, and the BMP writer's drawing primitives;
  - the word-count scanner and word-frequency table;
  - the HTTP client's URL splitter.

Each source file becomes one Dafny module, in the form of its code:

- Code that updates memory in place becomes classes over arrays, or methods with loop invariants. Each is proved against a reference function on values.
- Linked structures keep their nodes as objects, with ghost sequences naming them.
- Recursive code becomes datatypes, functions and lemmas.

C's truncating division and remainder appear as `CDiv`/`CMod`. Fixed-width arithmetic is written out where it matters: `uint32_t` hashes, `size_t` sizes and `uint8_t` channels.

## Model

| member | source | states |
|---|---|---|
| BubbleSort.BubblePass | Algorithms/examples/01_bubble_sort.c:42-55 | one pass over a[..len] permutes that prefix, leaves the rest alone, carries its largest element to position len-1, and a pass with no swap means the prefix was already sorted |
| BubbleSort.PassExtends | Algorithms/examples/01_bubble_sort.c:35-55 | each pass extends the sorted, placed suffix by one element |
| BubbleSort.BubbleSort | Algorithms/examples/01_bubble_sort.c:32-71 | bubble_sort, including the early exit after a pass without swaps, leaves the array sorted and a permutation of the input |
| SelectionSort.MinIndex | Algorithms/examples/02_selection_sort.c:26-34 | the inner scan returns the index of the first minimum of a[i..] (strict `<` keeps the earliest one) |
| SelectionSort.SelectExtends | Algorithms/examples/02_selection_sort.c:36-41 | swapping the minimum to position i extends the sorted prefix of final elements by one |
| SelectionSort.SelectionSort | Algorithms/examples/02_selection_sort.c:19-58 | selection_sort leaves the array sorted and a permutation of the input, with at most n-1 swaps counted |
| InsertionSort.FillHole | Algorithms/examples/03_insertion_sort.c:41-46 | dropping the key into the gap leaves the first i+1 elements sorted, a permutation of the original, with nothing after i changed |
| InsertionSort.InsertKey | Algorithms/examples/03_insertion_sort.c:31-46 | inserting a[i] into the sorted a[..i] makes a[..i+1] sorted, permutes the array, leaves a[i+1..] alone and shifts at most i times |
| InsertionSort.InsertionSort | Algorithms/examples/03_insertion_sort.c:27-54 | insertion_sort leaves the array sorted and a permutation of the input |
| MergeSort.MergeMultiset | Algorithms/examples/04_merge_sort.c:41-52 | the merge of two runs holds exactly the elements of both, with their multiplicities |
| MergeSort.MergeElements | Algorithms/examples/04_merge_sort.c:41-52 | a value is in the merge exactly when it is in one of the two runs |
| MergeSort.MergeSorted | Algorithms/examples/04_merge_sort.c:41-52 | merging two sorted runs gives a sorted run |
| MergeSort.CopyOut | Algorithms/examples/04_merge_sort.c:25-30 | the temporary array is new and holds a copy of a[lo..lo+n] |
| MergeSort.MergeHeads | Algorithms/examples/04_merge_sort.c:41-48 | the main loop stops when one run is used up, having written the corresponding prefix of the merge to a[left..] |
| MergeSort.Drain | Algorithms/examples/04_merge_sort.c:50-52 | a drain loop copies the rest of one run, which is exactly the rest of the merge |
| MergeSort.DrainRest | Algorithms/examples/04_merge_sort.c:50-52 | after the main loop the two drain loops complete the merge in a[left..left+n1+n2] |
| MergeSort.Merge | Algorithms/examples/04_merge_sort.c:20-64 | merge writes the merge of the old a[left..mid] and a[mid+1..right] into a[left..right] and changes nothing else |
| MergeSort.HalvesSorted | Algorithms/examples/04_merge_sort.c:80-85 | merging the two recursively sorted halves sorts the range |
| MergeSort.HalvesPermuted | Algorithms/examples/04_merge_sort.c:80-85 | after both recursive calls and the merge the range is a permutation of the range on entry |
| MergeSort.HalvesOutside | Algorithms/examples/04_merge_sort.c:80-85 | the recursive calls and the merge change nothing outside [left, right] |
| MergeSort.MergeSortRec | Algorithms/examples/04_merge_sort.c:67-89 | merge_sort_recursive sorts a[left..right] by permuting it and leaves the rest of the array unchanged |
| MergeSort.MergeSortAll | Algorithms/examples/04_merge_sort.c:91-97 | merge_sort leaves the array sorted and a permutation of the input |
| QuickSort.SplitSwap | Algorithms/examples/05_quick_sort.c:35-38 | swapping an element below the pivot to position i+1 keeps the partition invariant and permutes only [low, high] |
| QuickSort.SplitSkip | Algorithms/examples/05_quick_sort.c:34-39 | an element at least the pivot extends the upper part where it stands |
| QuickSort.PartitionScan | Algorithms/examples/05_quick_sort.c:27-39 | the scan leaves a[low..i] below the pivot and a[i+1..high-1] at least the pivot, keeps the pivot at high and only permutes [low, high] |
| QuickSort.PivotPlaced | Algorithms/examples/05_quick_sort.c:40 | the final swap puts the pivot at i+1 between the smaller and the not-smaller elements |
| QuickSort.Partition | Algorithms/examples/05_quick_sort.c:26-52 | partition returns pi in [low, high] holding the old a[high], everything before it in the range is smaller and everything after is at least as large, by a permutation of [low, high] |
| QuickSort.SortedAroundPivot | Algorithms/examples/05_quick_sort.c:67-71 | a sorted run of smaller elements, the pivot and a sorted run of not-smaller elements make a sorted sequence |
| QuickSort.PartsSorted | Algorithms/examples/05_quick_sort.c:67-71 | sorting both sides of the placed pivot sorts the whole range |
| QuickSort.PartsPermuted | Algorithms/examples/05_quick_sort.c:67-71 | the two recursive calls together permute the range and nothing outside it |
| QuickSort.RecursionStep | Algorithms/examples/05_quick_sort.c:56-74 | partition followed by the two recursive calls sorts and permutes the range |
| QuickSort.QuickSortRec | Algorithms/examples/05_quick_sort.c:55-75 | quick_sort_recursive sorts a[low..high] by a permutation of that range only |
| QuickSort.QuickSortAll | Algorithms/examples/05_quick_sort.c:77-83 | quick_sort leaves the array sorted and a permutation of the input |
| BinarySearch.IndexOf | Algorithms/examples/06_binary_search.c:106-111 | the reference search: -1 exactly when the target is absent, otherwise a position holding it with no earlier occurrence |
| BinarySearch.Mid | Algorithms/examples/06_binary_search.c:39 | left + (right - left) / 2 lies in [left, right] and no intermediate value leaves the range of a C int |
| BinarySearch.SortedExcludes | Algorithms/examples/06_binary_search.c:54-64 | in a sorted array a probe below the target rules out everything to its left, a probe above it everything to its right |
| BinarySearch.Search | Algorithms/examples/06_binary_search.c:32-71 | binary_search on a sorted array returns -1 exactly when the target is absent, and otherwise an index holding it |
| BinarySearch.SearchRec | Algorithms/examples/06_binary_search.c:74-82 | binary_search_recursive returns -1 or an index in [left, right] holding the target, and on a sorted array -1 means it is absent from the range |
| BinarySearch.SearchRecWhole | Algorithms/examples/06_binary_search.c:74-82 | on the whole sorted array the recursive search agrees with the iterative postcondition |
| BinarySearch.SearchFirst | Algorithms/examples/06_binary_search.c:85-103 | binary_search_first returns the first index of the target in the sorted array, or -1 |
| BinarySearch.IndexOfUnique | Algorithms/examples/06_binary_search.c:85-111 | the first-index reference is the only value with its two properties, so the two first-occurrence searches agree |
| BinarySearch.LinearSearch | Algorithms/examples/06_binary_search.c:106-111 | linear_search returns the first index of the target, or -1 |
| Recursion.Factorial | Algorithms/examples/07_recursion.c:13-21 | factorial is at least 1, and at least n for n >= 1 |
| Recursion.FactorialMonotone | Algorithms/examples/07_recursion.c:13-21 | factorial(m) <= factorial(n) whenever m <= n |
| Recursion.FactorialFitsInt | Algorithms/examples/07_recursion.c:13-21 | factorial(n) fits in a C int exactly when n <= 12, so the C function overflows from n = 13 on |
| Recursion.FactorialDivisible | Algorithms/examples/07_recursion.c:13-21 | every k in [1, n] divides factorial(n) |
| Recursion.Fib | Algorithms/examples/07_recursion.c:24-31 | fibonacci is positive from n = 1 on |
| Recursion.FibMonotone | Algorithms/examples/07_recursion.c:24-31 | fibonacci(m) <= fibonacci(n) whenever m <= n |
| Recursion.FibValues | Algorithms/examples/07_recursion.c:24-31 | fibonacci(46) = 1836311903 and fibonacci(47) = 2971215073 |
| Recursion.FibFitsInt | Algorithms/examples/07_recursion.c:24-31 | fibonacci(n) fits in a C int exactly when n <= 46, so the C addition overflows from n = 47 on |
| Recursion.FibMemoHelper | Algorithms/examples/07_recursion.c:34-45 | fib_memo_helper returns fibonacci(n) and keeps every filled memo entry equal to the fibonacci number of its index |
| Recursion.FibonacciMemoized | Algorithms/examples/07_recursion.c:47-55 | fibonacci_memoized agrees with the naive recursion |
| Recursion.SumDigits | Algorithms/examples/07_recursion.c:58-61 | with C's truncating / and %, the digit sum has the sign of n |
| Recursion.Digits | Algorithms/examples/07_recursion.c:58-61 | the decimal digits of n, each in [0, 9], whose positional value is n |
| Recursion.SumDigitsIsDigitSum | Algorithms/examples/07_recursion.c:58-61 | for n >= 0 sum_digits is the sum of the decimal digits of n |
| Recursion.SumDigitsNeg | Algorithms/examples/07_recursion.c:58-61 | sum_digits(-n) == -sum_digits(n) |
| Recursion.SumDigitsMod9 | Algorithms/examples/07_recursion.c:58-61 | the digit sum is congruent to n modulo 9 |
| Recursion.ReverseString | Algorithms/examples/07_recursion.c:64-74 | reverse_string mirrors str[start..end] in place and leaves every other character unchanged |
| Recursion.ReverseWhole | Algorithms/examples/07_recursion.c:156-161 | reversing from 0 to length-1 reverses the whole string |
| Recursion.IsPalindrome | Algorithms/examples/07_recursion.c:77-83 | is_palindrome holds exactly when every character in [start, end] equals its mirror |
| Recursion.PalindromeIsReverse | Algorithms/examples/07_recursion.c:77-83 | over the whole string, is_palindrome holds exactly when the string equals its reverse |
| Recursion.Power | Algorithms/examples/07_recursion.c:86-98 | power(x, n) by squaring computes x to the power abs(n) (the source has no negative-exponent case, and C's truncating / makes a negative n behave like -n) |
| Recursion.Gcd | Algorithms/examples/07_recursion.c:111-114 | the absolute value of gcd(a, b) is the greatest common divisor of a and b (C's % keeps the sign of the dividend, so the result may be negative) |
| NQueens.PlacementExtend | Algorithms/examples/08_backtracking.c:32-49 | a queen placement extends by a column exactly when the column is on the board and attacks no earlier queen |
| NQueens.IsSafe | Algorithms/examples/08_backtracking.c:32-49 | is_safe holds exactly when no queen occupies the column above, the upper-left diagonal or the upper-right diagonal |
| NQueens.SafeIffNoAttack | Algorithms/examples/08_backtracking.c:32-49 | on a board holding exactly the queens of a placement, is_safe agrees with the column/diagonal attack test on the placement |
| NQueens.CompletionsExact | Algorithms/examples/08_backtracking.c:52-82 | the solutions enumerated from a partial placement are exactly the full n-queen placements extending it |
| NQueens.ExtendExact | Algorithms/examples/08_backtracking.c:62-79 | the columns tried from c on enumerate exactly the full placements extending the prefix whose next queen is at column c or later |
| NQueens.CompletionsDistinct | Algorithms/examples/08_backtracking.c:52-82 | no solution is counted twice |
| NQueens.Solve | Algorithms/examples/08_backtracking.c:52-82 | solve_n_queens returns 1 exactly at a full board, counts every completion of the current placement, and leaves the board as it found it |
| NQueens.TryColumn | Algorithms/examples/08_backtracking.c:63-78 | placing, recursing and removing a queen counts the completions through that column and restores the board |
| NQueens.FourQueens | Algorithms/examples/08_backtracking.c:173-174 | the four-queens search finds exactly two solutions, [1, 3, 0, 2] and then [2, 0, 3, 1] |
| NQueens.FindAllSolutions | Algorithms/examples/08_backtracking.c:85-101 | find_all_solutions counts every n-queen placement on an empty board, 2 of them for n = 4 |
| Stack.ArrayStack.constructor | DataStructures/examples/03_stack.c:20-26 | create_array_stack gives an empty stack of the requested capacity (top = -1) |
| Stack.ArrayStack.IsFull | DataStructures/examples/03_stack.c:28-30 | is_full_array holds exactly when the stack holds capacity items |
| Stack.ArrayStack.IsEmpty | DataStructures/examples/03_stack.c:32-34 | is_empty_array holds exactly when the stack holds nothing |
| Stack.ArrayStack.Push | DataStructures/examples/03_stack.c:36-42 | push_array on a full stack changes nothing; otherwise the item goes on top and top grows by one |
| Stack.ArrayStack.Pop | DataStructures/examples/03_stack.c:44-50 | pop_array on an empty stack returns -1 and changes nothing; otherwise it returns the top item and removes it |
| Stack.ArrayStack.Peek | DataStructures/examples/03_stack.c:52-57 | peek_array returns the top item, or -1 on an empty stack |
| Stack.LinkedStack.constructor | DataStructures/examples/03_stack.c:76-81 | create_linked_stack gives an empty stack |
| Stack.LinkedStack.IsEmpty | DataStructures/examples/03_stack.c:83-85 | is_empty_linked holds exactly when the stack holds nothing |
| Stack.LinkedStack.Push | DataStructures/examples/03_stack.c:87-93 | push_linked puts the item in a new node on top and counts it |
| Stack.LinkedStack.Pop | DataStructures/examples/03_stack.c:95-107 | pop_linked on an empty stack returns -1; otherwise it returns the top item and unlinks it |
| Stack.LinkedStack.Peek | DataStructures/examples/03_stack.c:109-114 | peek_linked returns the top item, or -1 on an empty stack |
| Stack.ScanAppend | DataStructures/examples/03_stack.c:129-146 | scanning a + b is scanning a and then b from the stack a leaves |
| Stack.ScanBelow | DataStructures/examples/03_stack.c:129-146 | a successful scan never touches the stack below its own starting contents |
| Stack.MatchedConcat | DataStructures/examples/03_stack.c:126-151 | two balanced expressions in a row are balanced |
| Stack.MatchedWrap | DataStructures/examples/03_stack.c:126-151 | a balanced expression wrapped in a matching bracket pair is balanced |
| Stack.UnmatchedSingles | DataStructures/examples/03_stack.c:126-151 | a lone bracket is not balanced |
| Stack.CappedAgrees | DataStructures/examples/03_stack.c:36-42 | while the nesting stays within capacity, the capped stack (pushes onto a full stack are dropped) behaves like an unbounded one |
| Stack.ScanOpeners | DataStructures/examples/03_stack.c:130-131 | n opening brackets push n entries on the unbounded stack and fill the capped one up to its capacity |
| Stack.ScanClosers | DataStructures/examples/03_stack.c:132-144 | n closing brackets pop n matching openers |
| Stack.ScanTooManyClosers | DataStructures/examples/03_stack.c:133-136 | more closers than openers makes the scan fail on the empty stack |
| Stack.CappedAcceptsUnmatched | DataStructures/examples/03_stack.c:126-151 | with capacity 100, 101 openers and 100 closers are accepted although unbalanced |
| Stack.CappedRejectsMatched | DataStructures/examples/03_stack.c:126-151 | with capacity 100, 101 openers and 101 closers are rejected although balanced |
| Stack.BalancedOnStack | DataStructures/examples/03_stack.c:126-151 | the scan over an array stack of capacity cap returns 1 exactly when the capped scan ends with an empty stack |
| Stack.IsBalanced | DataStructures/examples/03_stack.c:126-151 | is_balanced as written uses a 100-entry stack, and for expressions of at most 100 characters it returns 1 exactly when the brackets are balanced |
| Stack.IsBalancedFixed | DataStructures/examples/03_stack.c:126-151 | with a stack as large as the expression, is_balanced returns 1 exactly when the brackets are balanced |
| Stack.ReverseString | DataStructures/examples/03_stack.c:154-169 | pushing every character and popping them back reverses the string in place |
| Queue.WrapIsMod | DataStructures/examples/04_queue.c:45-57 | the wrap-around step (index + 1) % capacity stays in [0, capacity) |
| Queue.WindowPush | DataStructures/examples/04_queue.c:45-47 | writing at the slot after the rear appends the item to the queue read from front around the ring |
| Queue.WindowPop | DataStructures/examples/04_queue.c:56-58 | advancing the front around the ring drops the first item of the queue |
| Queue.ArrayQueue.constructor | DataStructures/examples/04_queue.c:21-29 | create_array_queue gives an empty ring of the requested capacity with front 0 and rear -1 |
| Queue.ArrayQueue.IsFull | DataStructures/examples/04_queue.c:31-33 | is_full_array holds exactly when the queue holds capacity items |
| Queue.ArrayQueue.IsEmpty | DataStructures/examples/04_queue.c:35-37 | is_empty_array holds exactly when the queue holds nothing |
| Queue.ArrayQueue.Enqueue | DataStructures/examples/04_queue.c:39-48 | enqueue_array on a full queue changes nothing; otherwise the item is appended at the back and rear advances around the ring |
| Queue.ArrayQueue.Dequeue | DataStructures/examples/04_queue.c:50-60 | dequeue_array on an empty queue returns -1 and changes nothing; otherwise it returns the front item, removes it and advances front around the ring |
| Queue.ArrayQueue.Peek | DataStructures/examples/04_queue.c:62-67 | peek_array returns the front item, or -1 on an empty queue |
| Queue.LinkedQueue.constructor | DataStructures/examples/04_queue.c:103-109 | create_linked_queue gives an empty queue with no front and no rear |
| Queue.LinkedQueue.IsEmpty | DataStructures/examples/04_queue.c:111-113 | is_empty_linked holds exactly when the queue holds nothing |
| Queue.LinkedQueue.Enqueue | DataStructures/examples/04_queue.c:115-128 | enqueue_linked appends the item in a new rear node, which also becomes the front of an empty queue, and keeps every other node's data |
| Queue.LinkedQueue.Dequeue | DataStructures/examples/04_queue.c:130-148 | dequeue_linked on an empty queue returns -1; otherwise it returns and unlinks the front item, clearing rear when the queue becomes empty |
| Queue.LinkedQueue.Peek | DataStructures/examples/04_queue.c:150-155 | peek_linked returns the front item, or -1 on an empty queue |
| LinkedList.Node.constructor | DataStructures/examples/01_linked_list.c:17-26 | create_node gives a node holding the data with no successor |
| LinkedList.IndexOf | DataStructures/examples/01_linked_list.c:123-136 | the reference search: -1 exactly when the value is absent, otherwise the position of its first occurrence |
| LinkedList.RemoveFirst | DataStructures/examples/01_linked_list.c:94-120 | the reference deletion: an absent value leaves the list alone, otherwise exactly its first occurrence is removed |
| LinkedList.InsertAtPositionMeaning | DataStructures/examples/01_linked_list.c:70-91 | for 0 <= position <= length the data lands at index position with everything else kept in order; past the end the list is unchanged; a negative position inserts after the head |
| LinkedList.List.constructor | DataStructures/examples/01_linked_list.c:177-251 | an empty list (a NULL head) |
| LinkedList.List.InsertAtHead | DataStructures/examples/01_linked_list.c:47-51 | insert_at_head puts the data in front of the list |
| LinkedList.List.InsertAtTail | DataStructures/examples/01_linked_list.c:54-67 | insert_at_tail appends the data after the last node |
| LinkedList.List.InsertAtPositionM | DataStructures/examples/01_linked_list.c:70-91 | insert_at_position changes the list as the reference insertion describes |
| LinkedList.List.LinkAfter | DataStructures/examples/01_linked_list.c:89-90 | linking a new node after the node at index k inserts its data at index k+1 |
| LinkedList.List.FindBefore | DataStructures/examples/01_linked_list.c:107-110 | the walk stops at the last node or at the node before the first occurrence of the data |
| LinkedList.List.UnlinkHead | DataStructures/examples/01_linked_list.c:98-104 | unlinking the head removes the first element |
| LinkedList.List.UnlinkAfter | DataStructures/examples/01_linked_list.c:112-115 | unlinking the successor of the node at index k removes element k+1 |
| LinkedList.List.DeleteValue | DataStructures/examples/01_linked_list.c:94-120 | delete_value removes the first occurrence of the data, if any |
| LinkedList.List.Search | DataStructures/examples/01_linked_list.c:123-136 | search returns the position of the first occurrence, or -1 |
| LinkedList.List.Length | DataStructures/examples/01_linked_list.c:139-149 | length counts the nodes |
| LinkedList.List.TurnLinks | DataStructures/examples/01_linked_list.c:153-164 | the reversal loop points every node at its predecessor and returns the old last node |
| LinkedList.List.Reverse | DataStructures/examples/01_linked_list.c:152-165 | reverse leaves the list holding the old contents in reverse order |
| DoublyLinkedList.DNode.constructor | DataStructures/examples/02_doubly_linked_list.c:18-28 | create_node gives a node holding the data with neither neighbour |
| DoublyLinkedList.InsertAfterFirst | DataStructures/examples/02_doubly_linked_list.c:105-128 | the reference insertion: an absent anchor leaves the list alone, otherwise the data follows the first occurrence of the anchor |
| DoublyLinkedList.HoldsEdit | DataStructures/examples/02_doubly_linked_list.c:119-145 | removing or inserting one node keeps the node sequence in step with the contents |
| DoublyLinkedList.List.constructor | DataStructures/examples/02_doubly_linked_list.c:188-262 | an empty list (a NULL head) |
| DoublyLinkedList.List.GetTail | DataStructures/examples/02_doubly_linked_list.c:69-77 | get_tail returns NULL on an empty list and otherwise the last node, which has no successor and holds the last element |
| DoublyLinkedList.List.InsertAtHead | DataStructures/examples/02_doubly_linked_list.c:80-88 | insert_at_head puts the data in front, keeping both link directions consistent |
| DoublyLinkedList.List.InsertAtTail | DataStructures/examples/02_doubly_linked_list.c:91-102 | insert_at_tail appends the data after the tail |
| DoublyLinkedList.List.LinkAfter | DataStructures/examples/02_doubly_linked_list.c:118-125 | splicing a new node after the node at index k inserts its data at index k+1 |
| DoublyLinkedList.List.InsertAfter | DataStructures/examples/02_doubly_linked_list.c:105-128 | insert_after changes the list as the reference insertion describes |
| DoublyLinkedList.List.DeleteNode | DataStructures/examples/02_doubly_linked_list.c:131-148 | delete_node with NULL changes nothing; otherwise it unlinks exactly that node, fixing both neighbours (or the head) |
| DoublyLinkedList.List.DeleteValue | DataStructures/examples/02_doubly_linked_list.c:151-164 | delete_value removes the first occurrence of the data, if any |
| DoublyLinkedList.List.Search | DataStructures/examples/02_doubly_linked_list.c:167-176 | search returns NULL exactly when the data is absent, and otherwise the node of its first occurrence |
| BinaryTree.Insert | DataStructures/examples/05_binary_tree.c:27-40 | insert adds the key to the key set and keeps the search-tree order |
| BinaryTree.InsertDuplicate | DataStructures/examples/05_binary_tree.c:32-36 | inserting a key already present leaves the tree unchanged |
| BinaryTree.Search | DataStructures/examples/05_binary_tree.c:43-53 | search returns a node holding the target, and in a search tree finds one exactly when the target is a key |
| BinaryTree.MinKey | DataStructures/examples/05_binary_tree.c:56-61 | the leftmost key is a key of the tree, and in a search tree the least one |
| BinaryTree.FindMin | DataStructures/examples/05_binary_tree.c:56-61 | find_min walks to a node without a left child holding the leftmost key |
| BinaryTree.Delete | DataStructures/examples/05_binary_tree.c:64-93 | delete_node (with the in-order successor for two children) keeps the search-tree order and removes exactly the key |
| BinaryTree.DeleteAbsent | DataStructures/examples/05_binary_tree.c:64-93 | deleting an absent key leaves the tree unchanged |
| BinaryTree.Inorder | DataStructures/examples/05_binary_tree.c:96-102 | the in-order listing holds exactly the keys of the tree |
| BinaryTree.Preorder | DataStructures/examples/05_binary_tree.c:105-111 | the pre-order listing holds the same keys as the in-order one, each as often, and starts with the root |
| BinaryTree.Postorder | DataStructures/examples/05_binary_tree.c:114-120 | the post-order listing holds the same keys as the in-order one, each as often, and ends with the root |
| BinaryTree.InorderAscending | DataStructures/examples/05_binary_tree.c:96-102 | the in-order listing of a search tree is strictly ascending |
| BinaryTree.Height | DataStructures/examples/05_binary_tree.c:123-130 | height is -1 exactly for the empty tree and less than the number of nodes otherwise |
| BinaryTree.Size | DataStructures/examples/05_binary_tree.c:133-136 | size counts the nodes, the length of the in-order listing |
| BinaryTree.SizeIsKeyCount | DataStructures/examples/05_binary_tree.c:133-136 | in a search tree the size is the number of distinct keys |
| HashTable.Bucket | DataStructures/examples/06_hash_table.c:28-37 | the bucket index is below the table size |
| HashTable.Hash | DataStructures/examples/06_hash_table.c:28-37 | the DJB2 loop with 32-bit unsigned wrap-around computes the bucket of the key |
| HashTable.Find | DataStructures/examples/06_hash_table.c:75-82 | the chain lookup finds nothing exactly when no entry has the key |
| HashTable.FindAt | DataStructures/examples/06_hash_table.c:75-82 | the lookup returns the value of the first entry with the key |
| HashTable.UpdateEntry | DataStructures/examples/06_hash_table.c:53-58 | overwriting the value of the entry with the key keeps the chain well formed, makes the key map to the new value and changes no other key |
| HashTable.Prepend | DataStructures/examples/06_hash_table.c:63-68 | prepending a new entry for an absent key keeps the chain well formed, makes the key map to the value and changes no other key |
| HashTable.Unlink | DataStructures/examples/06_hash_table.c:94-105 | unlinking the entry with the key keeps the chain well formed, removes the key and changes no other key |
| HashTable.KeyHome | DataStructures/examples/06_hash_table.c:49-110 | a key can sit in one bucket only, its hash bucket, and at one position of that chain only |
| HashTable.Table.constructor | DataStructures/examples/06_hash_table.c:40-46 | create_table gives a table of the requested size with no entries and a count of 0 |
| HashTable.Table.Search | DataStructures/examples/06_hash_table.c:72-85 | search returns 1 and the value when the key is present, and 0 with the out-parameter untouched otherwise |
| HashTable.Table.Insert | DataStructures/examples/06_hash_table.c:49-69 | insert makes the key map to the value, leaves every other key alone and counts only a new key |
| HashTable.Table.SetChain | DataStructures/examples/06_hash_table.c:67-68 | storing a rebuilt chain in the key's bucket keeps the table well formed, with the lookups the chain gives |
| HashTable.Table.Delete | DataStructures/examples/06_hash_table.c:88-110 | delete_key removes the key, leaves every other key alone and decrements the count only when the key was present |
| Heap.ParentOfChildren | DataStructures/examples/08_heap.c:18-20 | parent(2i+1) and parent(2i+2) are i, no other vertex has parent i, and a parent index is smaller than its child's |
| Heap.HeapMin | DataStructures/examples/08_heap.c:130-135 | in a min-heap the root is no larger than any element |
| Heap.HeapRootMin | DataStructures/examples/08_heap.c:130-135 | the root of a min-heap is a minimum of its elements |
| Heap.LastToRoot | DataStructures/examples/08_heap.c:117-121 | moving the last element to the root leaves a heap broken only at the root, holding the old elements less the old root |
| Heap.UpStep | DataStructures/examples/08_heap.c:83-85 | swapping an element with a larger parent moves the only heap violation one level up |
| Heap.UpDone | DataStructures/examples/08_heap.c:83 | when the sift-up loop stops the array is a min-heap |
| Heap.AppendUp | DataStructures/examples/08_heap.c:97-101 | writing the new value after a heap leaves a heap broken only at the new slot |
| Heap.DownStep | DataStructures/examples/08_heap.c:75-77 | swapping with the smaller child moves the only heap violation one level down |
| Heap.DownDone | DataStructures/examples/08_heap.c:67-75 | when neither child is smaller the subtree is a heap again |
| Heap.LeavesHeap | DataStructures/examples/08_heap.c:145 | the nodes from n/2 on are leaves, so they satisfy the heap property trivially |
| Heap.MinHeap.constructor | DataStructures/examples/08_heap.c:29-35 | create_heap gives an empty heap of the requested capacity |
| Heap.MinHeap.HeapifyUp | DataStructures/examples/08_heap.c:82-87 | heapify_up restores the heap property by permuting the heap's elements |
| Heap.MinHeap.HeapifyDown | DataStructures/examples/08_heap.c:62-79 | heapify_down restores the heap property below index by permuting only that part of the array |
| Heap.MinHeap.SwapDown | DataStructures/examples/08_heap.c:75-78 | the swap with the smaller child followed by the recursive call restores the subtree |
| Heap.MinHeap.Insert | DataStructures/examples/08_heap.c:90-102 | insert on a full heap changes nothing; otherwise the value joins the elements and the heap property holds |
| Heap.MinHeap.ExtractMin | DataStructures/examples/08_heap.c:105-127 | extract_min on an empty heap returns -1; otherwise it returns a least element, removes exactly it and keeps the heap property |
| Heap.MinHeap.PeekMin | DataStructures/examples/08_heap.c:130-135 | peek_min returns -1 on an empty heap and otherwise a least element |
| Heap.MinHeap.BuildHeap | DataStructures/examples/08_heap.c:138-148 | build_heap copies the n inputs and sifts the internal nodes down from n/2-1, giving a heap of exactly those elements |
| Heap.HeapSort | DataStructures/examples/08_heap.c:151-162 | heap_sort leaves arr[..n] sorted and a permutation of the input, and nothing after it changed |
| Heap.ExtractedInOrder | DataStructures/examples/08_heap.c:156-158 | each extracted minimum extends the sorted output and is no larger than what remains |
| Graph.ReachRefl | DataStructures/examples/07_graph.c:157-173 | every vertex reaches itself |
| Graph.ReachStep | DataStructures/examples/07_graph.c:139-147 | a neighbour of a reachable vertex is reachable |
| Graph.ReachTrans | DataStructures/examples/07_graph.c:157-173 | reachability is transitive |
| Graph.ReachSym | DataStructures/examples/07_graph.c:43-55 | in an undirected graph (every edge added both ways) reachability is symmetric |
| Graph.ClosedHoldsReach | DataStructures/examples/07_graph.c:126-154 | a marked set closed under neighbours holds every vertex reachable from a marked vertex |
| Graph.ShortestExists | DataStructures/examples/07_graph.c:126-154 | when some walk joins two vertices, a shortest one exists: a length with a walk and no walk of any smaller length |
| Graph.DistShortest | DataStructures/examples/07_graph.c:126-154 | Dist, the distance from start that breadth-first order is measured by, is the length of a walk from s to t, and no shorter walk exists |
| Graph.DistZero | DataStructures/examples/07_graph.c:130-131 | start is at distance 0 from itself and is the only vertex at distance 0 |
| Graph.DistStep | DataStructures/examples/07_graph.c:139-147 | a neighbour of a reachable vertex is at most one further from start |
| Graph.DistPred | DataStructures/examples/07_graph.c:139-147 | every vertex at distance d > 0 from start is a neighbour of a reachable vertex at a smaller distance |
| Graph.MarkedBelow | DataStructures/examples/07_graph.c:135-147 | when the vertex at the front of the queue is at distance d, every vertex at most d from start is already marked |
| Graph.FrontMarked | DataStructures/examples/07_graph.c:135-147 | at each dequeue, every vertex no further from start than the dequeued vertex is marked |
| Graph.NextLevel | DataStructures/examples/07_graph.c:141-145 | a neighbour of the dequeued vertex that is still unmarked is exactly one further from start than it |
| Graph.NewLevel | DataStructures/examples/07_graph.c:139-147 | the vertices one round enqueues are all exactly one further from start than the dequeued vertex |
| Graph.BfsStart | DataStructures/examples/07_graph.c:127-131 | before the first round only start is marked and queued, and it is at distance 0 |
| Graph.LevelsStep | DataStructures/examples/07_graph.c:135-147 | one round keeps the enqueued vertices sorted by distance, all within one of the dequeued vertex's distance, with the queue at or beyond it |
| Graph.StepState | DataStructures/examples/07_graph.c:135-147 | after one round the dequeued vertex joins the visited ones, the new neighbours join the back of the queue, and every visited vertex has its neighbours marked |
| Graph.Graph.constructor | DataStructures/examples/07_graph.c:30-40 | create_graph gives num_vertices empty adjacency lists |
| Graph.Graph.AddEdge | DataStructures/examples/07_graph.c:43-55 | add_edge puts dest at the front of src's list and src at the front of dest's list (a self-loop twice in one list) |
| Graph.BfsQueue.constructor | DataStructures/examples/07_graph.c:98-106 | create_queue gives an empty ring with rear at the last slot |
| Graph.BfsQueue.IsEmpty | DataStructures/examples/07_graph.c:108-110 | is_empty holds exactly when nothing is queued |
| Graph.BfsQueue.Enqueue | DataStructures/examples/07_graph.c:112-116 | enqueue, which does not check for room, appends the item when the ring has room |
| Graph.BfsQueue.Dequeue | DataStructures/examples/07_graph.c:118-123 | dequeue, which does not check for an item, returns and removes the front of a non-empty queue |
| Graph.MarkOne | DataStructures/examples/07_graph.c:142-145 | marking and enqueueing an unmarked neighbour keeps the marks equal to the enqueued vertices, all reachable, and the queue within num_vertices slots |
| Graph.VisitNeighbours | DataStructures/examples/07_graph.c:139-147 | the inner loop of bfs marks and enqueues exactly the unmarked neighbours, after which every neighbour of the vertex is marked |
| Graph.BfsStep | DataStructures/examples/07_graph.c:136-147 | one round of bfs dequeues the next marked vertex and leaves every dequeued vertex with all its neighbours marked; the queue stays sorted by distance from start, and the dequeued vertex is no nearer than any dequeued before |
| Graph.BfsDrain | DataStructures/examples/07_graph.c:135-148 | the outer loop of bfs runs until the queue is empty, keeping the visited vertices in the order they were marked and sorted by distance from start |
| Graph.BfsDone | DataStructures/examples/07_graph.c:135-148 | once the queue is empty, the dequeued vertices are every vertex reachable from start, each once, start first, in non-decreasing distance from start |
| Graph.Bfs | DataStructures/examples/07_graph.c:126-154 | bfs visits start first and then every vertex reachable from start exactly once and no other vertex, in breadth-first order (distance from start never decreases along the visiting order), and its queue never overflows |
| Graph.HasPathHelper | DataStructures/examples/07_graph.c:157-173 | has_path_helper returns 1 only when target is reachable from current, and a 0 leaves every newly marked vertex reachable from current with its neighbours marked |
| Graph.HasPath | DataStructures/examples/07_graph.c:175-180 | has_path returns 1 exactly when end is reachable from start, and 0 otherwise |
| Graph.DfsComponent | DataStructures/examples/07_graph.c:183-193 | dfs_component marks the vertex and everything newly marked is reachable from it with all its neighbours marked |
| Graph.NewRep | DataStructures/examples/07_graph.c:199-203 | an unmarked vertex met by the loop is the least vertex of a new component |
| Graph.OldRep | DataStructures/examples/07_graph.c:199-203 | a marked vertex met by the loop belongs to a component already counted |
| Graph.CountComponents | DataStructures/examples/07_graph.c:195-208 | count_components returns the number of connected components |
| ArenaAllocator.AlignedSizeAsWritten | MemoryManagement/examples/02_arena_allocator.c:41 | (size + 7) & ~7 in 64-bit size_t is a multiple of 8 and the least one not below size, except that sizes above 2^64-8 wrap to 0 |
| ArenaAllocator.AllocAsWritten | MemoryManagement/examples/02_arena_allocator.c:39-51 | arena_alloc with 64-bit arithmetic: a success starts at the old used offset and ends within the arena |
| ArenaAllocator.HugeRequestSucceeds | MemoryManagement/examples/02_arena_allocator.c:41-48 | a request of 2^64-1 bytes from an empty arena of size 0 succeeds with 0 bytes reserved |
| ArenaAllocator.AlignedSize | MemoryManagement/examples/02_arena_allocator.c:41 | the intended aligned size: the least multiple of 8 not below size |
| ArenaAllocator.AllocAsWrittenAgrees | MemoryManagement/examples/02_arena_allocator.c:39-51 | away from the wrap-around, arena_alloc as written agrees with the corrected allocation |
| ArenaAllocator.ContiguousDisjoint | MemoryManagement/examples/02_arena_allocator.c:47-48 | bump allocations never overlap and all lie below the used mark |
| ArenaAllocator.AllocFresh | MemoryManagement/examples/02_arena_allocator.c:47-48 | a new block starts at the used mark, past every earlier block |
| ArenaAllocator.Arena.constructor | MemoryManagement/examples/02_arena_allocator.c:22-36 | arena_create gives an arena of the requested size with nothing used |
| ArenaAllocator.Arena.Alloc | MemoryManagement/examples/02_arena_allocator.c:39-51 | arena_alloc fails without change when the aligned size does not fit (or would wrap); otherwise it returns the old used offset and bumps used by the aligned size |
| ArenaAllocator.Arena.Reset | MemoryManagement/examples/02_arena_allocator.c:57-59 | arena_reset frees everything at once |
| StackAllocator.TotalSizeAsWritten | MemoryManagement/examples/04_stack_allocator.c:45-48 | header plus size rounded up to 8 in 64-bit size_t, which wraps for sizes near 2^64 |
| StackAllocator.AllocAsWritten | MemoryManagement/examples/04_stack_allocator.c:43-63 | stack_alloc with 64-bit arithmetic: a success writes its header at the old used offset |
| StackAllocator.HugeRequestHeaderPastEnd | MemoryManagement/examples/04_stack_allocator.c:45-57 | a request of 2^64-16 bytes on a full 64-byte stack succeeds with a header of size 0 written past the buffer |
| StackAllocator.TotalSize | MemoryManagement/examples/04_stack_allocator.c:45-48 | the intended block size: header plus size rounded up to a multiple of 8 |
| StackAllocator.AllocHeader | MemoryManagement/examples/04_stack_allocator.c:43-63 | an allocation fails exactly when the rounded block does not fit (or the size would wrap); a success records offset = old used and a block that fits |
| StackAllocator.AllocAsWrittenAgrees | MemoryManagement/examples/04_stack_allocator.c:43-63 | away from the wrap-around, stack_alloc as written agrees with the corrected allocation |
| StackAllocator.FreeTo | MemoryManagement/examples/04_stack_allocator.c:66-82 | stack_free pops back to the header's offset exactly when the block is on top, and otherwise changes nothing |
| StackAllocator.FreeUndoesAlloc | MemoryManagement/examples/04_stack_allocator.c:43-82 | freeing the block just allocated restores the used mark |
| StackAllocator.Allocator.constructor | MemoryManagement/examples/04_stack_allocator.c:26-40 | stack_create gives an allocator of the requested size with nothing used |
| StackAllocator.Allocator.Alloc | MemoryManagement/examples/04_stack_allocator.c:43-63 | stack_alloc returns the address after the new header and records the header, or fails with no change |
| StackAllocator.Allocator.Free | MemoryManagement/examples/04_stack_allocator.c:66-82 | stack_free of NULL changes nothing; otherwise the used mark moves as the top-of-stack check says |
| StackAllocator.Allocator.GetMarker | MemoryManagement/examples/04_stack_allocator.c:85-87 | the marker is the used mark, within the buffer |
| StackAllocator.Allocator.FreeToMarker | MemoryManagement/examples/04_stack_allocator.c:90-94 | stack_free_to_marker moves used back to the marker only when the marker is not above it |
| MemoryPool.PushedSlots | MemoryManagement/examples/03_memory_pool.c:46-51 | the free list built by pool_create holds slot offsets from the last slot down to 0 |
| MemoryPool.SlotsDistinct | MemoryManagement/examples/03_memory_pool.c:46-51 | the initial free list names each slot once |
| MemoryPool.SlotsInBuffer | MemoryManagement/examples/03_memory_pool.c:46-51 | every initial slot is aligned to the object size and lies inside the buffer |
| MemoryPool.Pool.constructor | MemoryManagement/examples/03_memory_pool.c:28-54 | pool_create raises the object size to at least a pointer, and every one of the count slots is free, once, inside the buffer |
| MemoryPool.Pool.Alloc | MemoryManagement/examples/03_memory_pool.c:57-67 | pool_alloc on an exhausted pool returns NULL; otherwise it pops the head of the free list |
| MemoryPool.Pool.Free | MemoryManagement/examples/03_memory_pool.c:70-77 | pool_free of NULL changes nothing; otherwise it pushes the slot onto the free list |
| MemoryPool.FreeKeepsDistinct | MemoryManagement/examples/03_memory_pool.c:70-77 | freeing a slot that is not already free keeps the free list duplicate-free |
| TrackingAllocator.FindPtr | MemoryManagement/examples/05_tracking_allocator.c:67-83 | the search of the tracking list finds the first record of the pointer, or -1 when there is none |
| TrackingAllocator.SumAppend | MemoryManagement/examples/05_tracking_allocator.c:137-143 | the leaked total of two lists is the sum of their totals |
| TrackingAllocator.SumRemove | MemoryManagement/examples/05_tracking_allocator.c:70-75 | unlinking a record lowers the listed total by its size |
| TrackingAllocator.Tracker.constructor | MemoryManagement/examples/05_tracking_allocator.c:33 | the tracker starts with no records and every counter at 0 |
| TrackingAllocator.Tracker.TrackedMalloc | MemoryManagement/examples/05_tracking_allocator.c:36-60 | tracked_malloc returns malloc's result; a success records it first, adds its size to the totals and raises the peak when exceeded; a failure changes nothing |
| TrackingAllocator.Tracker.TrackedFree | MemoryManagement/examples/05_tracking_allocator.c:63-88 | tracked_free of NULL or of an untracked pointer changes nothing; otherwise the first record of it is unlinked and the freed totals grow by its size |
| TrackingAllocator.Tracker.LeakedBytes | MemoryManagement/examples/05_tracking_allocator.c:124-146 | check_leaks sums to current usage, allocated minus freed, over allocation_count minus free_count records |
| SymmetricCrypto.XorEncryptDecrypt | Cryptography/examples/02_symmetric_crypto.c:17-21 | xor_encrypt_decrypt replaces data[..len] by its XOR with the key repeated cyclically and leaves the rest of the buffer alone |
| SymmetricCrypto.XorTwice | Cryptography/examples/02_symmetric_crypto.c:17-21 | applying the XOR cipher twice with the same key gives the data back, so one routine both encrypts and decrypts |
| SymmetricCrypto.ShiftChar | Cryptography/examples/02_symmetric_crypto.c:26-30 | characters that are not ASCII letters pass through unchanged |
| SymmetricCrypto.ShiftKeepsCase | Cryptography/examples/02_symmetric_crypto.c:26-30 | for a non-negative shift a lower-case letter stays lower-case, an upper-case one upper-case, and only letters become letters |
| SymmetricCrypto.ShiftLower | Cryptography/examples/02_symmetric_crypto.c:26-27 | a lower-case letter moves to position (c - 'a' + shift) mod 26 of the alphabet |
| SymmetricCrypto.ShiftUpper | Cryptography/examples/02_symmetric_crypto.c:28-29 | an upper-case letter moves to position (c - 'A' + shift) mod 26 of the alphabet |
| SymmetricCrypto.ShiftFullTurn | Cryptography/examples/02_symmetric_crypto.c:26-30 | a shift by 26 is the identity |
| SymmetricCrypto.ShiftCompose | Cryptography/examples/02_symmetric_crypto.c:24-36 | two non-negative shifts in a row are one shift by their sum |
| SymmetricCrypto.ShiftPeriod | Cryptography/examples/02_symmetric_crypto.c:26-30 | adding a multiple of 26 to a non-negative shift changes nothing |
| SymmetricCrypto.SubstitutionEncrypt | Cryptography/examples/02_symmetric_crypto.c:24-32 | substitution_encrypt shifts every letter before the first NUL in place, keeps the string length and leaves the bytes from the NUL on alone |
| SymmetricCrypto.SubstitutionDecrypt | Cryptography/examples/02_symmetric_crypto.c:34-36 | substitution_decrypt as written: the string shifted by 26 - shift, length and tail kept |
| SymmetricCrypto.DecryptEncrypt | Cryptography/examples/02_symmetric_crypto.c:24-36 | for 0 <= shift <= 26, decrypting the encrypted text gives it back |
| SymmetricCrypto.DecryptAsWrittenFails | Cryptography/examples/02_symmetric_crypto.c:34-36 | with shift 30 the as-written decrypt turns the encryption of "z" into "`", not "z" |
| SymmetricCrypto.ReverseShift | Cryptography/examples/02_symmetric_crypto.c:34-36 | the corrected reverse shift lies in 1..26 and cancels the forward shift modulo 26 |
| SymmetricCrypto.SubstitutionDecryptFixed | Cryptography/examples/02_symmetric_crypto.c:34-36 | the corrected decrypt shifts the string by the reverse shift, keeping length and tail |
| SymmetricCrypto.DecryptFixedEncrypt | Cryptography/examples/02_symmetric_crypto.c:24-36 | for every non-negative shift the corrected decrypt undoes the encryption |
| PasswordHashing.Djb2Hash | Cryptography/examples/03_password_hashing.c:18-24 | the loop computes djb2 (start 5381, hash*33 + byte) with the 32-bit wrap-around of uint32_t |
| PasswordHashing.DigitRoundTrip | Cryptography/examples/03_password_hashing.c:43 | a hex digit written by `%x` reads back as its value |
| PasswordHashing.ParseHexOfHex | Cryptography/examples/03_password_hashing.c:43 | n hex digits of h read back as h mod 16^n |
| PasswordHashing.Hex8RoundTrip | Cryptography/examples/03_password_hashing.c:43 | `%08x` of a 32-bit value is eight hex digits that read back as the value |
| PasswordHashing.Hex8Injective | Cryptography/examples/03_password_hashing.c:43 | two 32-bit values have the same `%08x` text exactly when they are equal |
| PasswordHashing.Combined | Cryptography/examples/03_password_hashing.c:39-40 | snprintf into the 256-byte buffer gives salt + password, cut to 255 bytes when longer |
| PasswordHashing.HashOf | Cryptography/examples/03_password_hashing.c:38-44 | the stored hash is always eight hex digits |
| PasswordHashing.HashPassword | Cryptography/examples/03_password_hashing.c:38-44 | hash_password writes the hex text whose value is djb2 of the (possibly truncated) salt + password |
| PasswordHashing.VerifyPassword | Cryptography/examples/03_password_hashing.c:67-71 | verify_password accepts exactly when the stored text equals the hash of the password with that salt |
| PasswordHashing.VerifyAcceptsIff | Cryptography/examples/03_password_hashing.c:38-71 | a second password is accepted exactly when its salted djb2 value equals that of the first |
| PasswordHashing.TruncatedPasswordsCollide | Cryptography/examples/03_password_hashing.c:39-42 | passwords that agree on the first 255 bytes of salt + password hash alike, whatever follows |
| PasswordHashing.DiffBitsZero | Cryptography/examples/03_password_hashing.c:77-81 | the OR of the XORs of two equal-length strings is zero exactly when they are equal |
| PasswordHashing.ConstantTimeCompare | Cryptography/examples/03_password_hashing.c:74-82 | constant_time_compare returns 1 exactly when the strings are equal, 0 otherwise, and for equal lengths inspects every position |
| Base64.DecodeCharTable | Cryptography/examples/04_base64.c:52-59 | base64_decode_char maps the i-th character of the alphabet back to i |
| Base64.DecodeCharInvalid | Cryptography/examples/04_base64.c:52-59 | base64_decode_char returns -1 exactly for characters outside the alphabet, and otherwise the index of the character |
| Base64.EncodeShape | Cryptography/examples/04_base64.c:21-49 | the encoding of n bytes has 4 * ceil(n / 3) characters, a multiple of four, each from the alphabet or '=' |
| Base64.PadCount | Cryptography/examples/04_base64.c:43-45 | the padding loop adds fewer than four '=' and reaches a multiple of four |
| Base64.BytesSextets | Cryptography/examples/04_base64.c:21-83 | regrouping the 6-bit values of the encoder into bytes gives the input bytes back |
| Base64.ValuesChars | Cryptography/examples/04_base64.c:67-71 | the decoder reads back the 6-bit values of the encoded letters and stops at the first '=' |
| Base64.DecodeEncode | Cryptography/examples/04_base64.c:21-83 | decoding the encoding of any byte string gives that byte string back |
| Base64.EncodeByte | Cryptography/examples/04_base64.c:26-34 | one iteration of the encoder loop shifts a byte into the bit buffer and emits every complete 6-bit group, keeping the output equal to the letters of the bytes so far |
| Base64.EncodeBytes | Cryptography/examples/04_base64.c:26-34 | the encoder loop, whatever the uninitialised starting buffer holds, writes the letters for all complete 6-bit groups of the input |
| Base64.FlushInto | Cryptography/examples/04_base64.c:36-40 | the leftover bits, padded with zero bits, become one last character, so the output holds the letters of all the input's 6-bit values; nothing beyond is written |
| Base64.PadOut | Cryptography/examples/04_base64.c:43-45 | the padding loop writes '=' up to the next multiple of four, keeps what was written before and writes nothing beyond |
| Base64.EncodeInto | Cryptography/examples/04_base64.c:21-49 | base64_encode writes exactly the Base64 encoding of the input followed by a NUL and returns its length; the rest of the buffer after the NUL is untouched |
| Base64.DecodeValue | Cryptography/examples/04_base64.c:73-79 | one decoder step shifts a 6-bit value into the buffer and emits a byte whenever 8 bits are collected |
| Base64.DecodeStep | Cryptography/examples/04_base64.c:70-79 | one pass of the decoder loop skips a character outside the alphabet and decodes any other, keeping the output equal to the bytes of the values read so far |
| Base64.DecodedAll | Cryptography/examples/04_base64.c:67-82 | once every value before the first '=' is read, the output's prefix is the decoding of the input |
| Base64.DecodeInto | Cryptography/examples/04_base64.c:61-83 | base64_decode writes the bytes of the 6-bit values before the first '=', skipping characters outside the alphabet, and returns their count; the rest of the buffer is untouched |
| FileEncryption.CharValue | Cryptography/examples/06_file_encryption.c:35-37 | a password byte is added as a signed char: a value in -128..127 congruent to the byte modulo 256 |
| FileEncryption.AbsorbConcat | Cryptography/examples/06_file_encryption.c:30-48 | hashing two pieces of data in a row is hashing their concatenation |
| FileEncryption.AbsorbIsDjb2 | Cryptography/examples/06_file_encryption.c:30-43 | the derive_key mixing step starting at 5381 is djb2 with 32-bit wrap-around |
| FileEncryption.RoundsAbsorbRepeat | Cryptography/examples/06_file_encryption.c:33-43 | n rounds of mixing in password and salt is djb2 of the password-and-salt block repeated n times |
| FileEncryption.KeyHashAbsorbs | Cryptography/examples/06_file_encryption.c:46-49 | the key loop mixes in the counters 0..i on top of the round hash |
| FileEncryption.DeriveKeyIsDjb2 | Cryptography/examples/06_file_encryption.c:26-50 | key byte i is the low byte of djb2 over 10000 copies of password + salt followed by the counters 0..i |
| FileEncryption.AbsorbPassword | Cryptography/examples/06_file_encryption.c:35-37 | the password loop computes the mixing of the password's signed char values |
| FileEncryption.AbsorbSalt | Cryptography/examples/06_file_encryption.c:40-42 | the salt loop computes the mixing of the 16 salt bytes |
| FileEncryption.HashRounds | Cryptography/examples/06_file_encryption.c:30-43 | the 10000-round loop computes the round hash |
| FileEncryption.DeriveKeyInto | Cryptography/examples/06_file_encryption.c:26-50 | derive_key fills the 32 key bytes with the derived key and nothing else |
| FileEncryption.StreamNext | Cryptography/examples/06_file_encryption.c:71-76 | each step XORs the keystream byte at i mod 48 with the ciphertext byte just produced |
| FileEncryption.EncryptByte | Cryptography/examples/06_file_encryption.c:72-75 | one loop step encrypts byte i and updates the keystream as the stream function says |
| FileEncryption.EncryptData | Cryptography/examples/06_file_encryption.c:66-77 | encrypt_data replaces data[..len] by its encryption under key and IV and leaves the rest alone |
| FileEncryption.DecryptData | Cryptography/examples/06_file_encryption.c:80-82 | decrypt_data as written applies the encryption again |
| FileEncryption.EncryptFirstBlock | Cryptography/examples/06_file_encryption.c:66-77 | within the first 48 bytes each byte is XORed with the key-then-IV byte at its position |
| FileEncryption.DecryptEncryptShort | Cryptography/examples/06_file_encryption.c:66-82 | for data of at most 48 bytes decrypt_data does undo encrypt_data |
| FileEncryption.Byte48 | Cryptography/examples/06_file_encryption.c:71-76 | byte 48 of the ciphertext is plaintext byte 48 XORed with plaintext byte 0 |
| FileEncryption.TwiceByte48 | Cryptography/examples/06_file_encryption.c:66-82 | applying encrypt_data twice leaves byte 48 XORed with the first key byte |
| FileEncryption.DecryptAsWrittenFails | Cryptography/examples/06_file_encryption.c:80-82 | for data longer than 48 bytes and a key whose first byte is not zero, decrypt_data does not give the plaintext back |
| FileEncryption.Decrypt | Cryptography/examples/06_file_encryption.c:80-82 | the corrected decryption keeps the length of the ciphertext |
| FileEncryption.SameStream | Cryptography/examples/06_file_encryption.c:71-76 | the corrected decryption, fed the ciphertext, rebuilds the same keystream as the encryption did |
| FileEncryption.DecryptEncrypt | Cryptography/examples/06_file_encryption.c:66-82 | the corrected decryption undoes the encryption for data of every length |
| FileEncryption.DecryptByte | Cryptography/examples/06_file_encryption.c:80-82 | one step of the corrected decryption recovers byte i and feeds the ciphertext byte into the keystream |
| FileEncryption.DecryptDataFixed | Cryptography/examples/06_file_encryption.c:80-82 | the corrected decrypt_data replaces data[..len] by its decryption and leaves the rest alone |
| Rsa.Gcd | Cryptography/examples/05_rsa_basics.c:29-36 | gcd on 64-bit values returns the greatest common divisor |
| Rsa.ExtendedGcd | Cryptography/examples/05_rsa_basics.c:39-53 | extended_gcd returns Bezout coefficients: a*x + b*y equals the returned value |
| Rsa.ExtendedGcdIsGcd | Cryptography/examples/05_rsa_basics.c:39-53 | the absolute value of what extended_gcd returns is the gcd, under C's truncating division |
| Rsa.ExtendedGcdOne | Cryptography/examples/05_rsa_basics.c:58-62 | extended_gcd returns 1 exactly when the arguments are coprime |
| Rsa.ModInverseAsWritten | Cryptography/examples/05_rsa_basics.c:56-65 | mod_inverse as written, with x % m taken on unsigned 64-bit values: 0 when no inverse exists, otherwise a value below m |
| Rsa.ModInverseAsWrittenWrong | Cryptography/examples/05_rsa_basics.c:56-65 | for e = 17 and phi = 3120 the as-written mod_inverse gives 2769, and 17 * 2769 mod 3120 is 273, not 1 |
| Rsa.ModInverse | Cryptography/examples/05_rsa_basics.c:56-65 | the corrected mod_inverse returns the inverse of a modulo m when they are coprime and 0 otherwise |
| Rsa.ModInverseDemo | Cryptography/examples/05_rsa_basics.c:113-117 | the corrected inverse of 17 modulo 3120 is 2753 |
| Rsa.ModPow | Cryptography/examples/05_rsa_basics.c:68-81 | mod_pow by square-and-multiply returns base^exp mod m (1 for exponent 0) |
| Rsa.IsPrime | Cryptography/examples/05_rsa_basics.c:84-93 | with i * i wrapping modulo 2^64, a number reported prime is prime, and up to (2^32 - 1)^2 the test decides primality exactly |
| Rsa.GenerateKeypair | Cryptography/examples/05_rsa_basics.c:96-127 | with the corrected inverse, the key pair has n = 61 * 53, e = 17 and d = 2753, the inverse of e modulo (p-1)(q-1) |
| Rsa.GenerateKeypairAsWritten | Cryptography/examples/05_rsa_basics.c:96-127 | as written, with the unsigned remainder in mod_inverse, d = 2769 and e * d mod (p-1)(q-1) = 273, so d is not an inverse |
| Rsa.Encrypt | Cryptography/examples/05_rsa_basics.c:130-132 | rsa_encrypt returns m^e mod n |
| Rsa.Decrypt | Cryptography/examples/05_rsa_basics.c:135-137 | rsa_decrypt returns c^d mod n |
| Rsa.Sign | Cryptography/examples/05_rsa_basics.c:140-142 | rsa_sign returns m^d mod n |
| Rsa.Verify | Cryptography/examples/05_rsa_basics.c:145-148 | rsa_verify accepts exactly when s^e mod n equals the message |
| Rsa.ExtendedGcdDemo | Cryptography/examples/05_rsa_basics.c:39-53 | extended_gcd(17, 3120) returns gcd 1 with x = -367 and y = 2, the negative coefficient the demo key hits |
| Tokenizer.CommentEnd | ScriptingLanguage/examples/01_tokenizer.c:71-75 | a `//` comment runs up to, not including, the first newline or NUL |
| Tokenizer.SkipUnique | ScriptingLanguage/examples/01_tokenizer.c:62-80 | whitespace and comment skipping has exactly one stopping point from any position |
| Tokenizer.PassComment | ScriptingLanguage/examples/01_tokenizer.c:73-75 | the comment loop stops at the comment's end and crosses no newline |
| Tokenizer.NumberAtUnique | ScriptingLanguage/examples/01_tokenizer.c:83-100 | the digits-then-optional-fraction scan of a number has one end |
| Tokenizer.OperatorRoundTrip | ScriptingLanguage/examples/01_tokenizer.c:165-202 | each single-character token kind has one symbol and the symbol maps back to it; every other character is an error token |
| Tokenizer.Lexer.constructor | ScriptingLanguage/examples/01_tokenizer.c:45-49 | lexer_init starts at position 0 on line 1 |
| Tokenizer.Lexer.SkipWhitespace | ScriptingLanguage/examples/01_tokenizer.c:62-80 | skip_whitespace moves past blanks, newlines and comments to a stopping character and adds the newlines crossed to the line count |
| Tokenizer.Lexer.ScanNumber | ScriptingLanguage/examples/01_tokenizer.c:83-112 | scan_number consumes the longest digits[.digits] run and returns a number token with that lexeme, its value and the current line |
| Tokenizer.Lexer.ScanIdentifier | ScriptingLanguage/examples/01_tokenizer.c:115-134 | scan_identifier consumes the run of letters, digits and underscores and returns it as an identifier token |
| Tokenizer.Lexer.NextToken | ScriptingLanguage/examples/01_tokenizer.c:137-205 | next_token skips to the token start, keeps the line count right and returns the token the lexical rules give there; it returns EOF exactly when it consumes nothing |
| Tokenizer.LexesUnique | ScriptingLanguage/examples/01_tokenizer.c:137-205 | the tokenization is deterministic: from one position there is one token start, one end and one token |
| Calculator.OperatorKind | ScriptingLanguage/examples/02_calculator.c:87-95 | a single character never lexes as a number or EOF |
| Calculator.NextToken | ScriptingLanguage/examples/02_calculator.c:57-98 | next_token skips blanks and returns the token the lexical rules give there, EOF exactly when nothing is left |
| Calculator.LexesUnique | ScriptingLanguage/examples/02_calculator.c:57-98 | from one position the lexical rules allow only one token and one end |
| Calculator.Parser.constructor | ScriptingLanguage/examples/02_calculator.c:154-157 | parser_init reads the first token |
| Calculator.Parser.Consume | ScriptingLanguage/examples/02_calculator.c:159-163 | consume returns the current token, appends it to the tokens read and lexes the next one |
| Calculator.Parser.ParseFactor | ScriptingLanguage/examples/02_calculator.c:171-198 | parse_factor on success consumes exactly the tokens of a factor derivation and returns its tree; otherwise it stops at the offending token with the C error message |
| Calculator.Parser.ParseNegated | ScriptingLanguage/examples/02_calculator.c:173-176 | the unary-minus branch parses '-' factor |
| Calculator.Parser.ParseParenthesised | ScriptingLanguage/examples/02_calculator.c:185-194 | the parenthesis branch parses '(' expression ')' and fails with "Expected ')'" otherwise |
| Calculator.Parser.ParseTerm | ScriptingLanguage/examples/02_calculator.c:201-211 | parse_term consumes exactly a term derivation, factors joined left to right by '*' and '/' |
| Calculator.Parser.TermStep | ScriptingLanguage/examples/02_calculator.c:204-208 | one loop iteration extends a term by an operator and a factor |
| Calculator.Parser.ParseExpression | ScriptingLanguage/examples/02_calculator.c:214-224 | parse_expression consumes exactly an expression derivation, terms joined left to right by '+' and '-' |
| Calculator.Parser.ExpressionStep | ScriptingLanguage/examples/02_calculator.c:217-221 | one loop iteration extends an expression by an operator and a term |
| Calculator.YieldEnds | ScriptingLanguage/examples/02_calculator.c:171-224 | every expression starts with a number, '-' or '(' and ends with a number or ')' |
| Calculator.ThreeTokens | ScriptingLanguage/examples/02_calculator.c:201-224 | "a op b" has exactly one derivation, the binary node for op |
| Calculator.ProductBindsFirst | ScriptingLanguage/examples/02_calculator.c:201-224 | in "a + b * c" the product is computed first |
| Calculator.ProductBindsFirstLeft | ScriptingLanguage/examples/02_calculator.c:201-224 | in "a * b + c" the product is computed first |
| Calculator.LeftAssociative | ScriptingLanguage/examples/02_calculator.c:201-224 | operators of the same precedence group to the left |
| Calculator.Apply | ScriptingLanguage/examples/02_calculator.c:236-246 | applying an operator fails exactly for a division by zero |
| Calculator.Evaluate | ScriptingLanguage/examples/02_calculator.c:227-259 | evaluation fails only with "Division by zero" |
| Calculator.FailureNeedsDivision | ScriptingLanguage/examples/02_calculator.c:227-259 | an expression without a division always evaluates |
| Calculator.NegIsSubtraction | ScriptingLanguage/examples/02_calculator.c:249-255 | negation evaluates as subtraction from zero |
| Calculator.Calculate | ScriptingLanguage/examples/02_calculator.c:357-374 | a successful line is one expression derivation followed by EOF and its result is that derivation's value |
| ScriptLexing.DotIndex | ScriptingLanguage/examples/03_variables.c:67-79 | the integer part of a number lexeme ends at its first '.', or at its end when there is none |
| ScriptLexing.BlanksEnd | ScriptingLanguage/examples/03_variables.c:49-53 | skipping blanks stops at the first character that is not a space, tab, newline or carriage return, and every character passed is a blank |
| ScriptLexing.SkipBlanks | ScriptingLanguage/examples/03_variables.c:49-53 | the skip_whitespace loop stops where BlanksEnd says |
| ScriptLexing.ScanDigits | ScriptingLanguage/examples/03_variables.c:69 | the digit loop consumes the maximal run of digits |
| ScriptLexing.ScanNumber | ScriptingLanguage/examples/03_variables.c:67-73 | the number scan consumes digits, then a '.' and digits if a '.' follows |
| ScriptLexing.ScanWord | ScriptingLanguage/examples/03_variables.c:83-85 | the identifier scan consumes the maximal run of letters, digits and underscores |
| ScriptLexing.DigitRunUnique | ScriptingLanguage/examples/03_variables.c:69 | a maximal digit run from a position has one end |
| ScriptLexing.WordRunUnique | ScriptingLanguage/examples/03_variables.c:85 | a maximal identifier run from a position has one end |
| ScriptLexing.NumberRunUnique | ScriptingLanguage/examples/03_variables.c:67-73 | a number lexeme from a position has one end |
| Variables.OperatorKind | ScriptingLanguage/examples/03_variables.c:99-113 | a single character never lexes as a number, identifier, `let` or EOF |
| Variables.WordKind | ScriptingLanguage/examples/03_variables.c:90-94 | a word is the keyword `let` exactly when it is "let", otherwise an identifier |
| Variables.NextToken | ScriptingLanguage/examples/03_variables.c:55-116 | next_token skips blanks and returns the token the lexical rules give there, EOF exactly when nothing is left |
| Variables.LexesUnique | ScriptingLanguage/examples/03_variables.c:55-116 | from one position the lexical rules allow only one token and one end |
| Variables.IndexOf | ScriptingLanguage/examples/03_variables.c:166-171 | the lookup loop finds the first variable with the name, or runs off the end when there is none |
| Variables.LookupBind | ScriptingLanguage/examples/03_variables.c:164-191 | after setting a name, getting it returns the value set |
| Variables.LookupBindOther | ScriptingLanguage/examples/03_variables.c:164-191 | setting a name leaves every other name's value as it was |
| Variables.BindLength | ScriptingLanguage/examples/03_variables.c:164-182 | setting a name adds an entry exactly when the name was new |
| Variables.BindDistinct | ScriptingLanguage/examples/03_variables.c:164-182 | setting keeps names in the table distinct |
| Variables.SymbolTable.constructor | ScriptingLanguage/examples/03_variables.c:160-162 | table_init starts with an empty table |
| Variables.SymbolTable.Set | ScriptingLanguage/examples/03_variables.c:164-182 | table_set updates an existing name in place or appends a new one, and refuses a new name when 100 are stored, leaving the table unchanged |
| Variables.SymbolTable.Get | ScriptingLanguage/examples/03_variables.c:184-191 | table_get returns the value stored for the name, or nothing |
| Variables.Parser.constructor | ScriptingLanguage/examples/03_variables.c:247-250 | parser_init reads the first token |
| Variables.Parser.Consume | ScriptingLanguage/examples/03_variables.c:252-256 | consume returns the current token, appends it to the tokens read and lexes the next one |
| Variables.Parser.PeekNext | ScriptingLanguage/examples/03_variables.c:319-323 | the one-token look-ahead lexes the next token and restores the lexer position and current token |
| Variables.Parser.ParseFactor | ScriptingLanguage/examples/03_variables.c:265-290 | parse_factor on success consumes exactly a factor derivation (number, identifier, '-' factor or parenthesised expression) |
| Variables.Parser.ParseNegated | ScriptingLanguage/examples/03_variables.c:265-290 | the unary-minus branch parses '-' factor |
| Variables.Parser.ParseParenthesised | ScriptingLanguage/examples/03_variables.c:265-290 | the parenthesis branch parses '(' expression ')' |
| Variables.Parser.ParseTerm | ScriptingLanguage/examples/03_variables.c:292-302 | parse_term consumes exactly a term derivation, factors joined left to right by '*' and '/' |
| Variables.Parser.TermStep | ScriptingLanguage/examples/03_variables.c:295-300 | one loop iteration extends a term by an operator and a factor |
| Variables.Parser.ParseExpression | ScriptingLanguage/examples/03_variables.c:304-314 | parse_expression consumes exactly an expression derivation, terms joined left to right by '+' and '-' |
| Variables.Parser.ExpressionStep | ScriptingLanguage/examples/03_variables.c:307-312 | one loop iteration extends an expression by an operator and a term |
| Variables.Parser.ParseAssignment | ScriptingLanguage/examples/03_variables.c:316-334 | parse_assignment parses `name = expression` when an identifier is followed by '=', and a plain expression otherwise |
| Variables.Parser.ParseAssigned | ScriptingLanguage/examples/03_variables.c:325-330 | the assignment branch consumes the name and '=' and parses the value |
| Variables.Parser.ParseStatement | ScriptingLanguage/examples/03_variables.c:336-346 | parse_statement parses a `let` statement exactly when the line starts with `let` |
| Variables.Parser.ParseLet | ScriptingLanguage/examples/03_variables.c:337-343 | the `let` branch consumes the two tokens after the keyword without checking them and parses the value |
| Variables.Lift | ScriptingLanguage/examples/03_variables.c:265-346 | every factor is a term, every term an expression, and an expression is a statement that is neither `let` nor assignment |
| Variables.ExpressionHasNoAssignment | ScriptingLanguage/examples/03_variables.c:265-314 | an expression parsed by parse_expression contains no assignment |
| Variables.Apply | ScriptingLanguage/examples/03_variables.c:367-372 | applying an operator fails exactly for a division by zero |
| Variables.Eval | ScriptingLanguage/examples/03_variables.c:349-389 | evaluation fails only with its three errors, keeps the table within 100 names and keeps names distinct |
| Variables.EvalBind | ScriptingLanguage/examples/03_variables.c:381-385 | a `let` or assignment stores the value, or fails with the evaluation's or the table's error |
| Variables.PureEvalKeepsTable | ScriptingLanguage/examples/03_variables.c:349-379 | evaluating an expression without assignment leaves the table as it was |
| Variables.AssignmentBinds | ScriptingLanguage/examples/03_variables.c:381-385 | after `name = x` the name holds the value of x, evaluated in the old table, and other names are unchanged |
| Variables.UndefinedVariable | ScriptingLanguage/examples/03_variables.c:354-361 | reading a variable fails exactly when the name is not in the table |
| Variables.Evaluate | ScriptingLanguage/examples/03_variables.c:349-389 | the evaluator method gives the value and the new table the evaluation function gives, and its errors |
| Variables.EvaluateBind | ScriptingLanguage/examples/03_variables.c:381-385 | the `let` and assignment case calls table_set and agrees with the evaluation function |
| Variables.RunLine | ScriptingLanguage/examples/03_variables.c:440-451 | one session line on success is a parsed statement whose evaluation against the old table gives the printed value and the new table |
| ControlFlow.OperatorKind | ScriptingLanguage/examples/04_control_flow.c:103-123 | a single character is an error token exactly when it is none of `+-*/=<>(){};,`, and never a number, identifier, keyword or EOF |
| ControlFlow.WordKind | ScriptingLanguage/examples/04_control_flow.c:95-99 | a word is `let`, `if`, `while` or `print` exactly when it is that keyword, and an identifier otherwise |
| ControlFlow.NextToken | ScriptingLanguage/examples/04_control_flow.c:60-126 | next_token skips blanks and returns the token the lexical rules give there, EOF exactly when nothing is left |
| ControlFlow.LexesUnique | ScriptingLanguage/examples/04_control_flow.c:60-126 | from one position the lexical rules allow only one token and one end |
| ControlFlow.Lift | ScriptingLanguage/examples/04_control_flow.c:301-350 | every factor is a term and every term an expression |
| ControlFlow.BinaryParts | ScriptingLanguage/examples/04_control_flow.c:323-346 | '+', '-', '<' and '>' join an expression and a term; '*' and '/' join a term and a factor |
| ControlFlow.YieldStart | ScriptingLanguage/examples/04_control_flow.c:301-321 | every expression starts with a number, an identifier or '(' |
| ControlFlow.ThreeTokens | ScriptingLanguage/examples/04_control_flow.c:323-346 | "a op b" has exactly one derivation, the binary node for op |
| ControlFlow.LeftAssociative | ScriptingLanguage/examples/04_control_flow.c:323-346 | operators of the same precedence level, comparisons included, group to the left |
| ControlFlow.Parser.constructor | ScriptingLanguage/examples/04_control_flow.c:283-286 | parser_init reads the first token |
| ControlFlow.Parser.Consume | ScriptingLanguage/examples/04_control_flow.c:288-292 | consume returns the current token, appends it to the tokens read and lexes the next one |
| ControlFlow.Parser.ParseFactor | ScriptingLanguage/examples/04_control_flow.c:301-321 | parse_factor on success consumes exactly a factor derivation: a number, an identifier or a parenthesised expression |
| ControlFlow.Parser.ParseParenthesised | ScriptingLanguage/examples/04_control_flow.c:312-317 | the parenthesis branch parses the expression and consumes the next token as ')' without checking it |
| ControlFlow.Parser.ParseTerm | ScriptingLanguage/examples/04_control_flow.c:323-333 | parse_term consumes exactly a term derivation, factors joined left to right by '*' and '/' |
| ControlFlow.Parser.TermStep | ScriptingLanguage/examples/04_control_flow.c:326-330 | one loop iteration extends a term by an operator and a factor |
| ControlFlow.Parser.ParseComparison | ScriptingLanguage/examples/04_control_flow.c:335-346 | parse_comparison consumes exactly an expression derivation, terms joined left to right by '+', '-', '<' and '>' |
| ControlFlow.Parser.ComparisonStep | ScriptingLanguage/examples/04_control_flow.c:338-343 | one loop iteration extends an expression by an operator and a term |
| ControlFlow.Parser.ParseExpression | ScriptingLanguage/examples/04_control_flow.c:348-350 | parse_expression is parse_comparison |
| ControlFlow.Parser.ParseStatement | ScriptingLanguage/examples/04_control_flow.c:365-417 | parse_statement on success consumes exactly one statement derivation chosen by the first token, and fails with "Unexpected statement" otherwise |
| ControlFlow.Parser.ParseLet | ScriptingLanguage/examples/04_control_flow.c:367-374 | `let name = expression ;` becomes an assignment; the name, '=' and ';' are consumed unchecked |
| ControlFlow.Parser.ParseAssign | ScriptingLanguage/examples/04_control_flow.c:407-413 | `name = expression ;` becomes an assignment |
| ControlFlow.Parser.ParsePrint | ScriptingLanguage/examples/04_control_flow.c:377-384 | `print ( expression ) ;` becomes a print statement |
| ControlFlow.Parser.ParseControl | ScriptingLanguage/examples/04_control_flow.c:387-404 | `if` and `while` parse a parenthesised condition followed by a block |
| ControlFlow.Parser.ParseBlock | ScriptingLanguage/examples/04_control_flow.c:352-363 | parse_block consumes '{', statements up to '}' or EOF, then one more token |
| ControlFlow.BlockYield | ScriptingLanguage/examples/04_control_flow.c:352-363 | the tokens of a block are '{', its statements' tokens and the closing token, and its tree is the block of the statements' trees |
| ControlFlow.Then | ScriptingLanguage/examples/04_control_flow.c:448-452 | output printed earlier comes before output printed later; failures pass through |
| ControlFlow.ThenThen | ScriptingLanguage/examples/04_control_flow.c:448-452 | printing in stages is printing the concatenation |
| ControlFlow.Apply | ScriptingLanguage/examples/04_control_flow.c:432-439 | '<' and '>' give 1.0 when the comparison holds and 0.0 otherwise; only a division by zero fails |
| ControlFlow.Eval | ScriptingLanguage/examples/04_control_flow.c:420-480 | evaluation fails only with an undefined variable, a full table, a division by zero or running out of fuel |
| ControlFlow.IfFalseSkipsBody | ScriptingLanguage/examples/04_control_flow.c:454-460 | an `if` whose condition is 0 gives 0 whatever its body |
| ControlFlow.WhileFalseSkipsBody | ScriptingLanguage/examples/04_control_flow.c:462-468 | a `while` whose condition is 0 gives 0 whatever its body |
| ControlFlow.WhileYieldsLastBody | ScriptingLanguage/examples/04_control_flow.c:462-468 | a `while` gives 0 when it never runs its body, and otherwise the value of the last run of its body |
| ControlFlow.EmptyBlock | ScriptingLanguage/examples/04_control_flow.c:470-476 | an empty block gives 0 and changes nothing |
| ControlFlow.BlockYieldsLast | ScriptingLanguage/examples/04_control_flow.c:470-476 | a non-empty block gives the value of its last statement |
| ControlFlow.SingletonBlock | ScriptingLanguage/examples/04_control_flow.c:470-476 | a block of one statement evaluates as that statement |
| ControlFlow.AssignBinds | ScriptingLanguage/examples/04_control_flow.c:442-446 | an assignment gives the value of its expression and stores it under the name, leaving other names as the expression left them |
| ControlFlow.SlotAsWritten | ScriptingLanguage/examples/04_control_flow.c:143-153 | table_set as written writes at the found index, or at count when the name is new |
| ControlFlow.HundredFirstNameOverflows | ScriptingLanguage/examples/04_control_flow.c:143-153 | with 100 names stored, a new name is written at index 100, past the 100-entry array |
| ControlFlow.EvalMoreFuel | ScriptingLanguage/examples/04_control_flow.c:420-480 | a result reached with some fuel is the result with any more fuel |
| ControlFlow.Evaluate | ScriptingLanguage/examples/04_control_flow.c:420-480 | the evaluator method returns the value, printed output and new table the evaluation function gives, and its errors |
| ControlFlow.EvaluateBinary | ScriptingLanguage/examples/04_control_flow.c:428-440 | the binary case evaluates left then right and applies the operator |
| ControlFlow.EvaluateWhile | ScriptingLanguage/examples/04_control_flow.c:462-468 | the while loop agrees with the evaluation function |
| ControlFlow.EvaluateBlock | ScriptingLanguage/examples/04_control_flow.c:470-476 | the block loop agrees with the evaluation function |
| ControlFlow.RunAllAppend | ScriptingLanguage/examples/04_control_flow.c:537-541 | running one more statement runs it on the table and after the output the earlier ones left |
| ControlFlow.RunProgram | ScriptingLanguage/examples/04_control_flow.c:534-541 | running a program parses statements until EOF and evaluates each in turn; on success the output is that of the parsed statements run in order |
| TextEditor.Insert | TextEditor/examples/01_simple_editor.c:115-119 | inserting x at i puts x there, keeps what was before i and shifts the rest right by one |
| TextEditor.Remove | TextEditor/examples/01_simple_editor.c:146 | removing index i keeps what was before i and shifts the rest left by one |
| TextEditor.RemoveInsert | TextEditor/examples/01_simple_editor.c:125-148 | deleting the character just inserted restores the line |
| TextEditor.InsertRemove | TextEditor/examples/01_simple_editor.c:125-148 | re-inserting the character just deleted restores the line |
| TextEditor.Split | TextEditor/examples/01_simple_editor.c:151-160 | splitting a line adds exactly one line |
| TextEditor.Join | TextEditor/examples/01_simple_editor.c:163-184 | joining removes one line, and on the last line changes nothing |
| TextEditor.JoinSplit | TextEditor/examples/01_simple_editor.c:151-184 | splitting a line and joining it back restores the text |
| TextEditor.SplitJoin | TextEditor/examples/01_simple_editor.c:151-184 | joining two lines and splitting at the old end of the first restores the text |
| TextEditor.EditsKeepLines | TextEditor/examples/01_simple_editor.c:151-184 | splitting and joining keep every line free of NUL |
| TextEditor.TextBuffer.constructor | TextEditor/examples/01_simple_editor.c:95-106 | buffer_init gives one empty line, capacity 1 and an unmodified buffer |
| TextEditor.TextBuffer.Grow | TextEditor/examples/01_simple_editor.c:110-113 | doubling the capacity keeps the text |
| TextEditor.TextBuffer.ShiftDown | TextEditor/examples/01_simple_editor.c:115-117 | the shift loop moves lines index..count-1 one slot down and keeps those before index |
| TextEditor.TextBuffer.InsertLine | TextEditor/examples/01_simple_editor.c:109-122 | buffer_insert_line puts the text at index, shifts later lines, grows the capacity when full and marks the buffer modified |
| TextEditor.TextBuffer.InsertChar | TextEditor/examples/01_simple_editor.c:125-137 | buffer_insert_char inserts c at col of that row only and marks the buffer modified |
| TextEditor.TextBuffer.DeleteChar | TextEditor/examples/01_simple_editor.c:140-148 | buffer_delete_char with col at or past the end changes nothing; otherwise it removes exactly the character at col and marks the buffer modified |
| TextEditor.TextBuffer.SplitLine | TextEditor/examples/01_simple_editor.c:151-160 | buffer_split_line leaves the text before col on the row and puts the rest on a new next line |
| TextEditor.TextBuffer.JoinLines | TextEditor/examples/01_simple_editor.c:163-184 | buffer_join_lines appends the next line to the row and removes it, count down by one; on the last row it changes nothing |
| TextEditor.SplitThenJoin | TextEditor/examples/01_simple_editor.c:151-184 | buffer_split_line followed by buffer_join_lines on the same row restores the buffer contents |
| Snake.Opposite | GameProgramming/examples/snake.c:144-155 | no direction is its own opposite |
| Snake.Step | GameProgramming/examples/snake.c:176-182 | one step moves the head to a grid-adjacent cell |
| Snake.StepBack | GameProgramming/examples/snake.c:176-182 | a step followed by a step in the opposite direction returns to the start |
| Snake.InitialBody | GameProgramming/examples/snake.c:85-96 | init_snake lays out three distinct, connected cells inside the grid |
| Snake.Steer | GameProgramming/examples/snake.c:144-155 | handle_input never sets the next direction to the reverse of the current one; it keeps the old next direction or takes a pressed key, the right key winning when allowed |
| Snake.Advance | GameProgramming/examples/snake.c:204-217 | the new head goes first; without food every cell takes its predecessor's place and the length stays; with food the length grows by one up to MAX_SNAKE_LENGTH |
| Snake.AdvanceKeepsDistinct | GameProgramming/examples/snake.c:190-217 | moving to a cell off the snake keeps the cells distinct |
| Snake.AdvanceKeepsInGrid | GameProgramming/examples/snake.c:184-217 | moving to a cell inside the grid keeps the snake inside the grid |
| Snake.AdvanceKeepsChain | GameProgramming/examples/snake.c:176-217 | moving to a cell next to the head keeps consecutive cells adjacent |
| Snake.AdvanceKeepsOff | GameProgramming/examples/snake.c:204-217 | a cell off the snake that is not the new head stays off it |
| Snake.FoodUnderHeadAsWritten | GameProgramming/examples/snake.c:198-201 | spawn_food runs before the body moves, so the cell the head is entering passes its test and the new food can land under the head |
| Snake.Game.constructor | GameProgramming/examples/snake.c:68-73 | the game starts in the menu with score 0, timer 0 and delay 10 |
| Snake.Game.CollidesWithSnake | GameProgramming/examples/snake.c:118-126 | collides_with_snake is true exactly when the point is a body cell, the head skipped when asked |
| Snake.Game.InitSnake | GameProgramming/examples/snake.c:85-96 | init_snake sets the initial body heading right and touches nothing else |
| Snake.Game.SpawnFood | GameProgramming/examples/snake.c:99-115 | spawn_food places the food at the drawn cell, which is in the grid and off the snake, and touches nothing else |
| Snake.Game.StartGame | GameProgramming/examples/snake.c:129-135 | start_game resets the snake, places food, zeroes score and timer and starts playing |
| Snake.Game.HandleInput | GameProgramming/examples/snake.c:138-164 | while playing only the next direction changes, as Steer says; in the menu Enter starts a game; after game over Enter restarts and Escape returns to the menu; a game started by Enter has its food at the drawn cell, the timer at 0 and both directions Right; without such a start score, food and timer are unchanged; the move delay never changes |
| Snake.Game.ShiftBack | GameProgramming/examples/snake.c:205-212 | the shift loops move body[0..last) one place back and keep the rest |
| Snake.Game.MoveBody | GameProgramming/examples/snake.c:204-217 | the body update gives the Advance of the old body |
| Snake.Game.Move | GameProgramming/examples/snake.c:174-217 | a move into a wall or the body ends the game with body, score and food unchanged; otherwise the snake advances one adjacent cell, and eating adds 10 to the score, moves the food and lowers the delay, never below 3 |
| Snake.Game.Update | GameProgramming/examples/snake.c:167-218 | update does nothing outside play or before the timer reaches the delay, and otherwise makes one move |
| Renderer.UnpackPack | Renderer/src/renderer.c:179 | the packed a<<24 + r<<16 + g<<8 + b value gives back each of the four channels |
| Renderer.BlendChannel | Renderer/src/renderer.c:198-201 | a blended channel lies between the source and the destination channel |
| Renderer.Blend | Renderer/src/renderer.c:193-204 | the translucent path always writes alpha 255, with every colour channel between source and destination |
| Renderer.Paint | Renderer/src/renderer.c:191-204 | a painted pixel is always opaque, an opaque colour writes exactly its packed value, and each colour channel lies between the colour's and the old pixel's |
| Renderer.Renderer.constructor | Renderer/src/renderer.c:102-138 | a new renderer has a width x height framebuffer |
| Renderer.Renderer.Clear | Renderer/src/renderer.c:178-183 | renderer_clear sets every one of the width*height pixels to the packed colour |
| Renderer.Renderer.DrawPixel | Renderer/src/renderer.c:185-205 | renderer_draw_pixel outside the framebuffer changes nothing; inside it changes only index y*width+x, to the painted colour |
| Renderer.Renderer.DrawFilledRect | Renderer/src/renderer.c:218-224 | renderer_draw_filled_rect paints exactly the in-bounds cells of [x,x+w)x[y,y+h) and leaves every other pixel alone |
| Renderer.Renderer.DrawRect | Renderer/src/renderer.c:207-216 | renderer_draw_rect paints exactly the in-bounds cells of the rectangle's outline: each ends opaque, equal to an opaque colour, with every channel between the colour's and the old pixel's (a corner may be blended twice) |
| Renderer.Renderer.DrawFilledCircle | Renderer/src/renderer.c:248-256 | renderer_draw_filled_circle paints exactly the in-bounds cells with dx*dx + dy*dy <= radius*radius |
| Renderer.DiskNextRow | Renderer/src/renderer.c:249-255 | finishing a row of the disk scan moves to the start of the next row |
| Renderer.DiskDone | Renderer/src/renderer.c:248-256 | after the last row the whole disk is painted |
| Renderer.FilledCircleRadiusZero | Renderer/src/renderer.c:248-256 | a disk of radius 0 is the centre alone |
| Renderer.Renderer.DrawLine | Renderer/src/renderer.c:258-278 | renderer_draw_line paints exactly the in-bounds points of the Bresenham path and nothing else |
| Renderer.Renderer.LineAdvance | Renderer/src/renderer.c:268-276 | one loop step moves the cursor and error as the Bresenham step function says |
| Renderer.AdvanceProgress | Renderer/src/renderer.c:265-277 | every step before the end keeps the error invariant and brings the cursor strictly closer to the end point, so the loop terminates |
| Renderer.LineProperties | Renderer/src/renderer.c:258-278 | the path starts at (x1,y1), ends at (x2,y2), moves at most one cell in x and in y per step and visits no cell twice |
| Renderer.LineZeroLength | Renderer/src/renderer.c:258-278 | a zero-length line plots one pixel |
| Renderer.Renderer.DrawTriangle | Renderer/src/renderer.c:419-423 | renderer_draw_triangle paints the cells of the three edge lines, each opaque, equal to an opaque colour and with every channel between the colour's and the old pixel's, and leaves every other pixel alone |
| Renderer.Renderer.DrawCircle | Renderer/src/renderer.c:226-246 | renderer_draw_circle paints exactly the midpoint-circle cells around the centre, each opaque, equal to an opaque colour and with every channel between the colour's and the old pixel's |
| Renderer.Renderer.CircleStep | Renderer/src/renderer.c:237-244 | one loop step updates x, y and the error as the midpoint rule says |
| Renderer.CircleAdvance | Renderer/src/renderer.c:228-245 | each step brings x - y down, so the loop terminates |
| Renderer.Renderer.PlotOctants | Renderer/src/renderer.c:229-236 | the eight draw_pixel calls plot the eight reflections of (x, y) |
| Renderer.CircleProperties | Renderer/src/renderer.c:226-246 | the circle cells lie within radius of the centre, are symmetric under swapping and mirroring the axes, and include the four axis points |
| Renderer.CircleRadiusZero | Renderer/src/renderer.c:226-246 | a circle of radius 0 is the centre alone |
| Renderer.SortByYSorted | Renderer/src/renderer.c:426-428 | the three swaps order the vertices by y and keep the same three vertices |
| Renderer.LerpBetween | Renderer/src/renderer.c:438-442 | an interpolated edge x lies between the edge's end x values and equals them at the ends |
| Renderer.SpanRow | Renderer/src/renderer.c:433-447 | the span a row fills is the one the interpolation rules give for that row |
| Renderer.SpanSkip | Renderer/src/renderer.c:436 | a row whose segment height is 0 is skipped |
| Renderer.SegmentNeverZero | Renderer/src/renderer.c:433-436 | within a triangle of non-zero height no row between the top and bottom has segment height 0 |
| Renderer.SpanBounded | Renderer/src/renderer.c:441-445 | each row's span lies between the smallest and largest vertex x |
| Renderer.FilledTriangleBounded | Renderer/src/renderer.c:425-449 | the filled triangle touches only rows y1..y3 and columns within the vertices' x range, and nothing when y3 == y1 after sorting |
| Renderer.FilledTriangleVertices | Renderer/src/renderer.c:425-449 | a triangle of non-zero height fills its three vertices |
| Renderer.Renderer.DrawFilledTriangle | Renderer/src/renderer.c:425-449 | renderer_draw_filled_triangle paints exactly the in-bounds cells of the row spans and nothing else |
| Renderer.Renderer.FillSpan | Renderer/src/renderer.c:445-447 | the inner loop paints the cells xa..xb of the row |
| RendererBmp.I32At | Renderer/src/renderer.c:292-293 | a little-endian 32-bit field is read as a signed int |
| RendererBmp.I16At | Renderer/src/renderer.c:294 | a little-endian 16-bit field is read as a signed short |
| RendererBmp.RowSizeProperties | Renderer/src/renderer.c:306 | the row size is a multiple of 4, at least width * bpp/8 and less than 4 bytes more |
| RendererBmp.RowBytes | Renderer/src/renderer.c:313-316 | every pixel's bytes lie inside its row |
| RendererBmp.Opaque24 | Renderer/src/renderer.c:316 | a 24-bit image decodes to fully opaque pixels |
| RendererBmp.FlipRows | Renderer/src/renderer.c:312 | a positive height stores rows bottom-up: image row r comes from the file row a negative height would put at height-1-r |
| RendererBmp.LoadBmp | Renderer/src/renderer.c:280-324 | image_load_bmp refuses a file without the "BM" magic or with bpp other than 24 or 32 (and, here, a negative width or a file too short for its rows), and otherwise returns a width x abs(height) image whose every pixel is the decoded file pixel |
| RendererBmp.DecodeRow | Renderer/src/renderer.c:310-318 | one pass of the row loop decodes file row y into its image row |
| RendererBmp.DecodeStep | Renderer/src/renderer.c:312 | the pixel index of (x, y) lands in the image row that file row y belongs to |
| RendererText.Glyph | Renderer/src/renderer.c:833-834 | every character selects one of the 128 glyphs |
| RendererText.HighCodesUseGlyphZero | Renderer/src/renderer.c:834 | codes 128 and up draw glyph 0 |
| RendererText.GlyphBox | Renderer/src/renderer.c:836-847 | a glyph lights only cells inside its 8*scale square |
| RendererText.PenClosedForm | Renderer/src/renderer.c:826-849 | after a text the pen is 8*scale lower per newline, and 8*scale to the right of the start per character since the last newline |
| RendererText.NewlineLightsNothing | Renderer/src/renderer.c:827-831 | a newline draws nothing |
| RendererText.InTextBeforePen | Renderer/src/renderer.c:826-849 | everything a text lights lies before the pen position after it |
| RendererText.DrawGlyph | Renderer/src/renderer.c:836-847 | the glyph loops paint exactly the cells of the glyph's set bits, each scaled to a scale x scale block |
| RendererText.DrawBlock | Renderer/src/renderer.c:839-845 | one font bit paints its block when set and nothing otherwise |
| RendererText.DrawText | Renderer/src/renderer.c:824-850 | renderer_draw_text paints exactly the in-bounds cells lit by the glyphs of the text before its NUL, laid out by the pen rules, and nothing else |
| Images.Triples | ImageProcessing/examples/02_bmp_writer.c:44-48 | a buffer of 3n bytes holds n pixels |
| Images.TriplesInjective | ImageProcessing/examples/02_bmp_writer.c:44-48 | two buffers holding the same pixels are the same bytes, so the pixel view loses nothing |
| Images.Image.constructor | ImageProcessing/examples/02_bmp_writer.c:50-55 | create_image gives a width x height image whose pixels are all black (calloc) |
| Images.Image.ReadPixel | ImageProcessing/examples/05_transformations.c:119-123 | reading the three bytes at k*3 gives pixel k |
| Images.Image.Get | ImageProcessing/examples/05_transformations.c:119 | the pixel at (x, y) is pixel y*width+x, whose column is x and whose row is y |
| Images.Image.Put | ImageProcessing/examples/02_bmp_writer.c:65-72 | writing inside the image changes the pixel at (x, y) and no other |
| Images.Image.WritePixel | ImageProcessing/examples/02_bmp_writer.c:67-70 | writing pixel k changes bytes k*3..k*3+2 and no other byte |
| ColorOperations.Clamp | ImageProcessing/examples/04_color_operations.c:97 | the clamp keeps a value already in [0, 255] |
| ColorOperations.ClampNearest | ImageProcessing/examples/04_color_operations.c:97 | no byte is nearer to the value than its clamp |
| ColorOperations.BrightenZero | ImageProcessing/examples/04_color_operations.c:94-99 | brightness(0) leaves every channel as it is |
| ColorOperations.BrightenTwice | ImageProcessing/examples/04_color_operations.c:94-99 | two adjustments in the same direction equal one adjustment by their sum |
| ColorOperations.BrightenLoses | ImageProcessing/examples/04_color_operations.c:94-99 | darkening by 20 then brightening by 20 does not restore a channel of 10 |
| ColorOperations.Invert | ImageProcessing/examples/04_color_operations.c:131 | an inverted channel and the original sum to 255 |
| ColorOperations.InvertInvolution | ImageProcessing/examples/04_color_operations.c:129-133 | inverting a channel twice gives it back |
| ColorOperations.Threshold | ImageProcessing/examples/04_color_operations.c:137-140 | a thresholded pixel is pure black or pure white, white exactly when the channel mean is at least thresh |
| ColorOperations.ThresholdIdempotent | ImageProcessing/examples/04_color_operations.c:135-142 | thresholding twice with the same thresh is thresholding once |
| ColorOperations.Brightness | ImageProcessing/examples/04_color_operations.c:94-99 | brightness moves every byte of the image by amount, clamped to [0, 255] |
| ColorOperations.InvertImage | ImageProcessing/examples/04_color_operations.c:129-133 | invert replaces every byte v by 255 - v |
| ColorOperations.InvertTwice | ImageProcessing/examples/04_color_operations.c:129-133 | two calls of invert restore every byte of the image |
| ColorOperations.ThresholdImage | ImageProcessing/examples/04_color_operations.c:135-142 | threshold replaces each pixel by its thresholded pixel |
| Transformations.MirrorXProps | ImageProcessing/examples/05_transformations.c:87-88 | the right index of a pixel keeps its row, mirrors its column and undoes itself |
| Transformations.MirrorYProps | ImageProcessing/examples/05_transformations.c:101-102 | the bottom index of a pixel keeps its column, mirrors its row and undoes itself |
| Transformations.FlipHTwice | ImageProcessing/examples/05_transformations.c:84-96 | flipping horizontally twice gives the image back |
| Transformations.FlipVTwice | ImageProcessing/examples/05_transformations.c:98-110 | flipping vertically twice gives the image back |
| Transformations.HalfTurnIndex | ImageProcessing/examples/05_transformations.c:84-110 | mirroring both ways sends pixel k to pixel w*h-1-k |
| Transformations.FlipsMakeHalfTurn | ImageProcessing/examples/05_transformations.c:84-110 | a horizontal and a vertical flip, in either order, reverse the pixel sequence |
| Transformations.ExchangeCells | ImageProcessing/examples/05_transformations.c:89-93 | the byte-by-byte swap exchanges the two pixels and changes nothing else |
| Transformations.FlipRow | ImageProcessing/examples/05_transformations.c:86-95 | the inner loop flips row y and leaves every other row alone |
| Transformations.FlipHorizontal | ImageProcessing/examples/05_transformations.c:84-96 | flip_horizontal leaves every pixel at the mirrored column of its row |
| Transformations.FlipRows | ImageProcessing/examples/05_transformations.c:100-109 | the inner loop exchanges row y with row height-1-y |
| Transformations.FlipVStep | ImageProcessing/examples/05_transformations.c:99-109 | after each pass one more outer pair of rows is exchanged |
| Transformations.FlipVEnds | ImageProcessing/examples/05_transformations.c:98-110 | with height/2 pairs exchanged the image is flipped vertically, the middle row of an odd height staying in place |
| Transformations.FlipVertical | ImageProcessing/examples/05_transformations.c:98-110 | flip_vertical leaves every pixel at the mirrored row of its column |
| Transformations.RotSrcProps | ImageProcessing/examples/05_transformations.c:118-119 | every pixel the rotation reads lies inside the source |
| Transformations.RotSrcTwice | ImageProcessing/examples/05_transformations.c:118-119 | two quarter turns read pixel w*h-1-j for result pixel j |
| Transformations.RotateTwice | ImageProcessing/examples/05_transformations.c:112-127 | rotating twice reverses the pixel sequence |
| Transformations.RotateTwiceIsBothFlips | ImageProcessing/examples/05_transformations.c:84-127 | rotating twice equals a horizontal then a vertical flip |
| Transformations.RotateFourTimes | ImageProcessing/examples/05_transformations.c:112-127 | four quarter turns give the image back |
| Transformations.RotateDone | ImageProcessing/examples/05_transformations.c:117-125 | once every source row is copied the result is the rotated image |
| Transformations.RotateRow | ImageProcessing/examples/05_transformations.c:118-124 | one pass of the outer loop copies source row y to column height-1-y of the result |
| Transformations.RotateClockwise | ImageProcessing/examples/05_transformations.c:112-127 | rotate_90_cw returns a new height x width image whose pixel (height-1-y, x) is source pixel (x, y) |
| Transformations.Clip | ImageProcessing/examples/05_transformations.c:152-154 | the clipped region starts at a non-negative corner, ends inside the image and is never larger than asked |
| Transformations.ClipKeepsInside | ImageProcessing/examples/05_transformations.c:152-154 | a region already inside the image is not changed by clipping |
| Transformations.CroppedAt | ImageProcessing/examples/05_transformations.c:160-167 | pixel (col, row) of the crop is source pixel (x+col, y+row) |
| Transformations.CropWhole | ImageProcessing/examples/05_transformations.c:151-170 | cropping the whole image gives it back |
| Transformations.CropRow | ImageProcessing/examples/05_transformations.c:161-167 | one pass of the outer loop copies source row y+row into row row of the crop |
| Transformations.Crop | ImageProcessing/examples/05_transformations.c:151-170 | crop returns a new image of the clipped size holding exactly the clipped region's pixels |
| ImageEffects.RoundDown | ImageProcessing/examples/06_image_effects.c:122 | for a non-negative channel, (v / step) * step in C is v rounded down to a multiple of abs(step) |
| ImageEffects.PosterizeProps | ImageProcessing/examples/06_image_effects.c:122 | a posterized channel is a multiple of abs(step), at most the channel and less than abs(step) below it, and posterizing again changes nothing |
| ImageEffects.PosterizeLevels | ImageProcessing/examples/06_image_effects.c:119-124 | with step = 256 / levels the same holds for every byte |
| ImageEffects.PosterizeImage | ImageProcessing/examples/06_image_effects.c:119-124 | posterize rounds every byte of the image down to a multiple of 256 / levels |
| ImageEffects.Solarize | ImageProcessing/examples/06_image_effects.c:200-202 | a channel above the threshold is inverted and any other channel is kept |
| ImageEffects.SolarizeBound | ImageProcessing/examples/06_image_effects.c:198-204 | a solarized channel is at most the threshold or at most 254 - threshold, and with a threshold of 127 or more solarizing again changes nothing |
| ImageEffects.SolarizeTwiceUndoes | ImageProcessing/examples/06_image_effects.c:198-204 | with a low threshold a second solarize can undo the first (200 goes to 55 and back) |
| ImageEffects.SolarizeImage | ImageProcessing/examples/06_image_effects.c:198-204 | solarize replaces every byte by its solarized value |
| ImageEffects.MirroredSymmetric | ImageProcessing/examples/06_image_effects.c:146-156 | after mirror_horizontal every row reads the same from both ends |
| ImageEffects.MirroredIdempotent | ImageProcessing/examples/06_image_effects.c:146-156 | mirroring a mirrored image changes nothing |
| ImageEffects.MirrorRow | ImageProcessing/examples/06_image_effects.c:148-155 | the inner loop copies the left half of row y onto its right half, mirrored |
| ImageEffects.MirrorRowsEnds | ImageProcessing/examples/06_image_effects.c:146-156 | once every row is mirrored the image is the mirrored image |
| ImageEffects.MirrorHorizontal | ImageProcessing/examples/06_image_effects.c:146-156 | mirror_horizontal leaves every pixel in the right half equal to its mirror in the left half and the left half unchanged |
| ImageEffects.SumOf | ImageProcessing/examples/06_image_effects.c:101-102 | each channel sum of n pixels lies in [0, 255 n] |
| ImageEffects.BlockSumBound | ImageProcessing/examples/06_image_effects.c:99-104 | each channel sum of a block of n pixels lies in [0, 255 n] |
| ImageEffects.MeanIsByte | ImageProcessing/examples/06_image_effects.c:107 | the averages stored in uint8_t are bytes, so the cast loses nothing |
| ImageEffects.BlockStartProps | ImageProcessing/examples/06_image_effects.c:95-96 | every column and row lies in exactly one block, starting at a multiple of block_size |
| ImageEffects.PixelatedUniform | ImageProcessing/examples/06_image_effects.c:94-117 | two pixels in the same block have the same colour after pixelate |
| ImageEffects.PixelateOne | ImageProcessing/examples/06_image_effects.c:94-117 | pixelate with a block size of 1 changes nothing |
| ImageEffects.SumRow | ImageProcessing/examples/06_image_effects.c:100-104 | the inner loop adds the min(block_size, width - x) pixels of one block row |
| ImageEffects.SumBlock | ImageProcessing/examples/06_image_effects.c:97-105 | the two loops sum the block's channels and count its pixels |
| ImageEffects.FillBlock | ImageProcessing/examples/06_image_effects.c:109-114 | the second pair of loops sets every pixel of the block to one colour and changes nothing else |
| ImageEffects.PixelateBlock | ImageProcessing/examples/06_image_effects.c:97-115 | one block is filled with the truncated average of its own pixels |
| ImageEffects.PixelateBand | ImageProcessing/examples/06_image_effects.c:96-116 | one pass of the outer loop pixelates one band of block_size rows |
| ImageEffects.Pixelate | ImageProcessing/examples/06_image_effects.c:94-117 | pixelate replaces every pixel by the average of its block |
| BmpWriter.SetPixel | ImageProcessing/examples/02_bmp_writer.c:65-72 | set_pixel inside the image writes that pixel alone; outside it changes nothing |
| BmpWriter.RowLayout | ImageProcessing/examples/02_bmp_writer.c:82-83 | a written row is a multiple of 4 bytes, padded by 0 to 3 bytes after the width * 3 pixel bytes |
| BmpWriter.Rect | ImageProcessing/examples/02_bmp_writer.c:118-124 | the cells draw_rect visits are exactly [x, x+w) x [y, y+h) |
| BmpWriter.DrawRect | ImageProcessing/examples/02_bmp_writer.c:118-124 | draw_rect sets exactly the in-image cells of the rectangle and changes nothing else |
| BmpWriter.DrawCircle | ImageProcessing/examples/02_bmp_writer.c:127-135 | draw_circle sets exactly the in-image cells with x*x + y*y <= radius*radius around the centre |
| BmpWriter.DrawLine | ImageProcessing/examples/02_bmp_writer.c:138-158 | draw_line sets exactly the in-image points of the Bresenham path from (x0,y0) to (x1,y1), the same path the renderer draws |
| BmpWriter.Checker | ImageProcessing/examples/02_bmp_writer.c:221-222 | a checkerboard cell is black or white, white exactly when x / size + y / size is odd |
| BmpWriter.CheckerAlternates | ImageProcessing/examples/02_bmp_writer.c:217-225 | moving one square to the right switches the colour |
| BmpWriter.CheckerSquares | ImageProcessing/examples/02_bmp_writer.c:217-225 | every cell of a square has the colour of the square's corner |
| BmpWriter.CheckerRow | ImageProcessing/examples/02_bmp_writer.c:219-224 | one pass of the outer loop colours row y |
| BmpWriter.CheckerEnds | ImageProcessing/examples/02_bmp_writer.c:217-225 | once every row is coloured the image is the checkerboard |
| BmpWriter.CreateCheckerboard | ImageProcessing/examples/02_bmp_writer.c:217-225 | create_checkerboard sets every pixel to its checkerboard grey |
| TextStats.RunLength | FileIO/examples/02_word_count.c:44-51 | a word runs up to the first separator or the end of the text |
| TextStats.Tokens | FileIO/examples/02_word_count.c:37-52 | the words of a text are non-empty and hold no separator |
| TextStats.StartsAreTokens | FileIO/examples/02_word_count.c:44-51 | counting the non-separators that follow a separator (or start the text) counts the words |
| TextStats.LineLength | FileIO/examples/02_word_count.c:40-42 | a line runs up to the first newline or the end of the text |
| TextStats.LinesOf | FileIO/examples/02_word_count.c:37-57 | no line holds a newline |
| TextStats.LinesCounted | FileIO/examples/02_word_count.c:40-57 | the number of lines is the number of newlines plus one for a last line without a newline |
| TextStats.LineCountAsWritten | FileIO/examples/02_word_count.c:37-57 | the code as written counts one line more than the text has whenever it ends with a newline, because c is EOF after the loop |
| TextStats.TrailingNewlineCountedTwice | FileIO/examples/02_word_count.c:55-57 | "a\n" has one line but count_file reports two |
| TextStats.CountFile | FileIO/examples/02_word_count.c:25-61 | the corrected count_file reports the number of characters, of words and of lines of the text |
| TextStats.Pieces | FileIO/examples/02_word_count.c:82 | fscanf with %63s splits a long word into pieces of at most 63 characters |
| TextStats.PiecesJoin | FileIO/examples/02_word_count.c:82 | the pieces put together give the word back |
| TextStats.ScanfWords | FileIO/examples/02_word_count.c:82 | every word fscanf reads has 1 to 63 characters |
| TextStats.TrimLength | FileIO/examples/02_word_count.c:89-92 | trimming stops at the last alphanumeric character and removes everything after it |
| TextStats.Normalized | FileIO/examples/02_word_count.c:84-92 | a normalized word is the lower-cased prefix of the word up to its last alphanumeric character |
| TextStats.NormalizedIsNormal | FileIO/examples/02_word_count.c:84-92 | normalizing twice is normalizing once |
| TextStats.NormalizeWord | FileIO/examples/02_word_count.c:84-92 | the lower-casing and trimming loops compute the normalized word |
| TextStats.IndexOf | FileIO/examples/02_word_count.c:98-104 | the lookup finds the first entry holding the word, or none when no entry holds it |
| TextStats.AddKeeps | FileIO/examples/02_word_count.c:96-111 | adding a word keeps every entry's word in place |
| TextStats.AddWellFormed | FileIO/examples/02_word_count.c:96-111 | adding a normal word keeps the entries distinct, normal, each counted at least once and at most 1000 |
| TextStats.TallyWellFormed | FileIO/examples/02_word_count.c:82-112 | the table of a text has distinct non-empty normal words, at most 1000 of them, each with a positive count |
| TextStats.TallyCounts | FileIO/examples/02_word_count.c:82-112 | every entry's count is the number of words that normalize to its word |
| TextStats.TallyComplete | FileIO/examples/02_word_count.c:82-112 | while the table has room, every word with a non-empty normal form has an entry |
| TextStats.TallyAbsent | FileIO/examples/02_word_count.c:82-112 | while the table has room, a word without an entry does not occur |
| TextStats.Find | FileIO/examples/02_word_count.c:97-104 | the search loop returns the first entry holding the word, or -1 |
| TextStats.ReadWord | FileIO/examples/02_word_count.c:83-111 | one pass of the reading loop adds the normalized word to the table |
| TextStats.CollectWords | FileIO/examples/02_word_count.c:82-112 | the reading loop builds the tally of the words |
| TextStats.SinkPass | FileIO/examples/02_word_count.c:118-124 | one inner pass keeps the entries and moves a smallest count to the end of the unsorted part |
| TextStats.SortPass | FileIO/examples/02_word_count.c:117-125 | each outer pass places one more entry in its final position |
| TextStats.SortByCount | FileIO/examples/02_word_count.c:116-125 | the bubble sort leaves the entries by non-increasing count and as a permutation of the table |
| TextStats.ShownFirst | FileIO/examples/02_word_count.c:132-135 | the first entries of the sorted table have counts at least those of every entry not shown |
| TextStats.AnalyzeWords | FileIO/examples/02_word_count.c:69-136 | analyze_words shows min(10, table size) entries of the tally, by non-increasing count, each counted at least as often as every entry left out |
| HttpClient.FirstIndex | Networking/examples/07_http_client.c:36 | strchr finds the first '/', or reports that there is none |
| HttpClient.AfterScheme | Networking/examples/07_http_client.c:30-33 | the "http://" prefix is skipped exactly when the URL starts with it |
| HttpClient.ParseUrl | Networking/examples/07_http_client.c:28-51 | the host holds no '/' and the path starts with one; with a '/' they join back into the text after the prefix, and without one the host is that text and the path is "/" |
| HttpClient.ParseUrlRoundTrip | Networking/examples/07_http_client.c:28-51 | a URL built from a host and a path parses back into that host and path |
| HttpClient.ParseUrlHostOnly | Networking/examples/07_http_client.c:47-50 | a bare host after the prefix is requested at "/" |

## Left out

- Platform code of the renderer: windowing, present, events and sleep. It is operating-system I/O.
- Renderer 3D code: vector and matrix math, projection, 3D lines and triangles. It is all floating point.
- renderer_draw_image, renderer_draw_image_ex, renderer_apply_tint, renderer_draw_gradient_rect, renderer_draw_thick_line, renderer_draw_textured_triangle, color_make and color_blend: float scaling, tinting and interpolation outside the integer core.
- image_free, free_image, free_ast, the list and tree destructors and the allocators' destroy functions: releasing memory has no visible effect in the model.
- malloc, calloc and realloc failure is not modelled. Every allocation is assumed to succeed.
- Recursion.Factorial: C int is modelled as an unbounded integer. The values agree with the C function only up to n = 12 (Recursion.FactorialFitsInt); from 13 on the C multiplication overflows, which is undefined behaviour.
- Recursion.Fib: C int is modelled as an unbounded integer. The values agree with the C function only up to n = 46 (Recursion.FibFitsInt); from 47 on the C addition overflows.
- Recursion.FibMemoHelper: the memo entries are unbounded integers. They agree with the C ints only up to n = 46, as for Recursion.Fib.
- Recursion.FibonacciMemoized: the result is an unbounded integer. It agrees with the C int only up to n = 46, as for Recursion.Fib.
- Recursion.Power: the result is the exact power. The C int result overflows once x to the power abs(n) leaves the int range, for example power(2, 31).
- NQueens.FindAllSolutions: the 8-queens count of 92 given in the source's comment is not proved. Only the 4-queens count of 2 is proved (NQueens.FourQueens).
- Renderer.BlendChannel: the float alpha blend is modelled as exact integer arithmetic truncated toward zero, so a result can differ from the float rounding by one.
- Renderer.SpanRow: the float edge interpolation of the filled triangle is modelled exactly and then truncated. The row bounds do not depend on it.
- RendererBmp.LoadBmp: a file shorter than its header or its rows is refused, where the C reads past what fread filled. A header with a negative width is refused too, where the C goes on: it asks malloc for a negative-sized pixel buffer, skips every column and returns an image of that negative width. Failure to open the file is not modelled.
- print_array, print_graph, print_ast, pool_print_stats, the demo, benchmark and main functions: printing and demonstrations.
- The graph's dfs and dfs_helper only print the vertices they visit and are left out. The depth-first path test is modelled (Graph.HasPath).
- The hash table's load_factor is a float division.
- Rsa.IsPrime: above (2^32 - 1)^2 the contract promises only that a number reported prime is prime. There the wrapped i * i lets the loop run past the square root, and it may reach i == n and report a prime as composite; which primes that happens to is not characterised.
- Rsa: decrypt(encrypt(m)) == m and verify(m, sign(m)) need Fermat's little theorem or the Chinese remainder theorem, which are not proved here. The model states encryption and decryption as modular powers of the key pair.
- TrackingAllocator.Tracker: the size_t counters (total allocated, total freed, current and peak usage, allocation and free counts) are unbounded integers, so their 64-bit wrap-around is not modelled.
- Base64.EncodeInto: base64_encode never initialises its bit buffer. Its starting value is the parameter buffer0, and the output is proved the same for every value.
- Base64: the caller must provide an output array with room for the encoding and its NUL, as the C caller does.
- Password hashing: slow_hash_password and generate_salt. They depend on time and rand.
- generate_random_bytes, encrypt_file and decrypt_file: randomness and file I/O.
- Calculator, Variables and ControlFlow: `double` arithmetic is modelled as exact reals, and atof as the exact decimal value.
- Variables.Apply: division by zero gives the error "Division by zero", where the C evaluates it to an infinity or NaN.
- ControlFlow.Apply: division by zero gives the error "Division by zero", where the C evaluates it to an infinity or NaN.
- ControlFlow.Eval: every evaluation carries a fuel bound on loop turns and returns "Out of fuel" when the bound is exhausted. A `while` that never ends, which hangs the C program, is not modelled beyond that bound.
- ControlFlow.Eval: a failure returns only the error message. Values a `print` inside the same evaluation produced before the failure are dropped, where the C has already written them to stdout before it calls exit(1).
- ControlFlow.Evaluate: like ControlFlow.Eval, a failure carries no output, so what the failing statement printed before its error is not kept.
- ControlFlow.RunProgram: a failure returns only the error message. The output of the statements that ran before it is not returned, where the C has already printed it before exit(1). On failure the contract states only the error message.
- Tokenizer and the script lexers: the fixed-size lexeme buffers are not modelled. Lexemes are exact strings.
- Text editor: buffer_load, buffer_save, read_key, the terminal rendering and main are file and terminal I/O.
- Snake.Game.Update: a move onto the food requires a draw that is inside the grid and off the snake. Once the snake fills the grid no such cell exists, and the C's spawn_food loop never ends. That case is not modelled.
- Snake: rand in spawn_food is the `draw` parameter of SpawnFood. render, the input loop and main are terminal I/O and timing.
- Image processing:
  - read_bmp and write_bmp bodies are file I/O;
  - scale, contrast, grayscale, sepia, gamma_correction and vignette are floating point;
  - oil_painting is integer code but is not part of this model, which covers the pixelate, posterize, solarize and mirror effects of that file;
  - copy_image is a plain copy.
- BmpWriter.CreateCheckerboard: it requires a non-zero square size. With size 0 the C divides by zero.
- BmpWriter.SetPixel: the colour is one RGB value rather than three separate bytes.
- ImageEffects.Pixelate: it requires a block size above 0. With 0 the C loops forever, and with a negative size it divides by a zero count.
- ImageEffects.PosterizeImage: it requires a non-zero step. With more than 256 levels the C divides by zero.
- Transformations.Crop: a clipped size that comes out negative gives an empty image, where the C stores the negative width in the result.
- TextStats.SortByCount: the contract does not state that the bubble sort keeps entries with equal counts in table order. So it does not say which of several tied words are shown.
- TextStats: the file is given as its text, in the C locale (ASCII classes and case). find_longest_line and create_sample_file are file I/O.
- HttpClient: the 256-byte host and path buffers are not modelled, and neither are sockets, the request or the response.

## Findings

| source | as written | input that shows it | evidently intended | confidence | as-written member | corrected member |
|---|---|---|---|---|---|---|
| Cryptography/examples/05_rsa_basics.c:56-65 | `x % m` mixes a negative `int64_t` x with an unsigned m, so the remainder is taken after x is converted to unsigned | e = 17, phi = 3120: x = -367, and the result is 2769, with 17 * 2769 mod 3120 = 273 | the inverse 2753, with 17 * 2753 mod 3120 = 1 | not executed | Rsa.ModInverseAsWrittenWrong | Rsa.ModInverse |
| DataStructures/examples/03_stack.c:126-151 | is_balanced pushes onto a 100-slot stack whose push silently drops items when full | 101 '(' then 100 ')' is accepted; 101 '(' then 101 ')' is rejected | balanced exactly when the brackets match | not executed | Stack.CappedAcceptsUnmatched | Stack.IsBalancedFixed |
| MemoryManagement/examples/02_arena_allocator.c:41-48 | aligned_size = (size + 7) & ~7 wraps for sizes near SIZE_MAX | a SIZE_MAX request on an empty arena of size 0 succeeds and reserves nothing | a request larger than the arena fails | not executed | ArenaAllocator.HugeRequestSucceeds | ArenaAllocator.Arena.Alloc |
| MemoryManagement/examples/04_stack_allocator.c:45-57 | total_size = round_up8(16 + size) wraps for sizes near SIZE_MAX | a SIZE_MAX - 15 request on a full 64-byte stack is accepted, and its header is written at bytes 64-79, past the buffer | a request larger than the free space fails | not executed | StackAllocator.HugeRequestHeaderPastEnd | StackAllocator.Allocator.Alloc |
| Cryptography/examples/02_symmetric_crypto.c:34-36 | substitution_decrypt encrypts with 26 - shift, which is negative for shifts above 26, and C's % then leaves the alphabet | "z" encrypted with 30 is "d"; "d" decrypted with 30 is the backquote | decryption undoes encryption for every shift | not executed | SymmetricCrypto.DecryptAsWrittenFails | SymmetricCrypto.DecryptFixedEncrypt |
| Cryptography/examples/06_file_encryption.c:72-82 | the keystream is refilled from the output bytes, so decrypt_data (encrypt_data again) feeds plaintext where encryption fed ciphertext | a 49-byte message with a non-zero first key byte: byte 48 comes back changed | decrypt(encrypt(d)) == d for every length | not executed | FileEncryption.DecryptAsWrittenFails | FileEncryption.DecryptEncrypt |
| ScriptingLanguage/examples/04_control_flow.c:143-153 | table_set appends a new name without checking the 100-entry capacity | a 101st variable name is written to vars[100], one past the array | an error once 100 names are bound, as in 03_variables.c | not executed | ControlFlow.HundredFirstNameOverflows | Variables.SymbolTable.Set |
| GameProgramming/examples/snake.c:198-201 | update calls spawn_food before the body moves, so the new food is checked against the old body | the food is eaten at the cell the head enters; a draw of that same cell passes the test and puts the new food under the head | food never spawns on the snake after the move | not executed | Snake.FoodUnderHeadAsWritten | Snake.Game.Update |
| FileIO/examples/02_word_count.c:55-57 | after the read loop c is EOF, so the test c != '\n' always holds and a final newline adds a second last line | "a\n": one line, reported as two | one more line only when the text does not end with a newline | not executed | TextStats.TrailingNewlineCountedTwice | TextStats.CountFile |
