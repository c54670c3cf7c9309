# Binary-search-tree list sort of student records, in Dafny

This project models the sorting core of a small C program that sorts
student records (a GPA, a credit count and a family name) by one of three
keys. The core is `list_sort_by_tree` in `main.c`. It turns a singly linked
list of cells into an unbalanced binary search tree: the head cell becomes
the root, and every later cell, in list order, is inserted as a leaf. The
insertion goes left when the comparator answers strictly negative and right
otherwise. The function then flattens the tree back into a list with the
accumulator-passing recursion `scan`. The sort can use one of three
comparators: `compGpa`, `compCredit` and `compName` (`strcmp` on the name).

The model is functional:

- A linked list of cells is a `seq<Record>` in list order. `NULL` is `[]`.
- A cell used as a tree node, where only its `left`/`right` links matter, is
  a `Tree` node (`Leaf` is an empty link).
- The comparator is a parameter of type `(Record, Record) -> int`. Most
  properties are proved for any comparator whose sign is a total preorder.
  All three comparators of the program are proved to be total preorders.

Files and modules:

- `records.dfy` (`Records`): the record payload, the comparator type, and the
  total-preorder predicate with the small facts derived from it.
- `comparators.dfy` (`Comparators`): `compGpa`, `compCredit`, and `compName`
  with C `strcmp` on unsigned bytes, including NUL-terminator behaviour. It
  also proves that each comparator is a preorder and that `strcmp` agrees
  with an independent definition of lexicographic order.
- `search_tree.dfy` (`SearchTree`): the tree, its in-order, `scan`, one
  insertion, the descent path of the pointer `p`, and the search-tree
  invariant.
- `tree_sort.dfy` (`TreeSort`): the build loop and `list_sort_by_tree`. It
  proves permutation, sortedness and stability, and that the result equals
  a plain list insertion sort. It also proves that an already sorted list
  comes back unchanged. It also models the code as written, where the
  root's links are never cleared (see "## Findings").
- `scenario.dfy` (`Scenario`): the three-record example (Brown, Adams,
  Clark) sorted by each key.

`compGpa` and `compCredit` (`main.c:135-153`) are full three-way
comparators: `TRUE` (1) for greater, `FALSE` (-1) for less, 0 for equal.
The model proves that both are total preorders. So records with equal keys
always go right, and records with unequal keys are routed consistently.

## Model

| member | source | states |
|---|---|---|
| Comparators.CompGpa | main.c:135-143 | answers exactly `TRUE` (1) when the first GPA is larger, `FALSE` (-1) when it is smaller, and 0 exactly when the GPAs are equal |
| Comparators.CompCredit | main.c:145-153 | answers exactly 1 when the first credit count is larger, -1 when it is smaller, and 0 exactly when they are equal |
| Comparators.CompGpaIsTotalPreorder | main.c:135-143 | `compGpa` is a total preorder: 0 on equal keys, and swapping the arguments exactly negates the answer |
| Comparators.CompCreditIsTotalPreorder | main.c:145-153 | `compCredit` is a total preorder: 0 on equal keys, and swapping the arguments exactly negates the answer |
| Comparators.Strcmp | main.c:156 | the sign of `strcmp` is decided by the first bytes when they differ; two strings that both end at once compare equal |
| Comparators.CompName | main.c:155-157 | `compName` answers 0 on records with the same name |
| Comparators.StrcmpSelf | main.c:156 | every string compares equal to itself under `strcmp` |
| Comparators.StrcmpAntisymmetric | main.c:156 | swapping the arguments of `strcmp` exactly negates its answer |
| Comparators.StrcmpTransitive | main.c:156 | "not after" under `strcmp` is transitive |
| Comparators.StrcmpZeroIffEqual | main.c:156 | on NUL-free names, `strcmp` is 0 if and only if the names are equal |
| Comparators.StrcmpNegativeIffLexLess | main.c:156 | on NUL-free names, `strcmp` is negative if and only if the first name is lexicographically before the second, byte by byte as unsigned values |
| Comparators.CompNameIsTotalPreorder | main.c:155-157 | `compName` is a total preorder on all byte strings, and swapping the arguments exactly negates the answer |
| Comparators.CompNameIsLexicographic | main.c:155-157 | on NUL-free names, the sign of `compName` is byte-wise lexicographic order: negative before, 0 on equal names, positive after |
| SearchTree.Scan | main.c:159-166 | `scan(t, next)` returns the in-order of `t` followed by `next`; on an empty tree it returns `next` unchanged |
| SearchTree.InsertAddsRecord | main.c:183-196 | one insertion adds exactly the new record to the tree's records, as a multiset |
| SearchTree.InsertIsGraft | main.c:183-196 | the descent ends at an empty slot; insertion puts a leaf holding the new record there, with both links cleared, and changes nothing else in the tree |
| SearchTree.DescentFollowsComparator | main.c:185-192 | every step of the descent is at a node, and it goes left exactly when `comp(node, current) < 0`; otherwise, equality included, it goes right |
| SearchTree.InsertPreservesBst | main.c:182-198 | for any comparator, insertion keeps the invariant "left subtree compares `< 0` to its ancestor, right subtree `>= 0`" |
| SearchTree.InsertSplicesInorder | main.c:183-196 | in list terms, insertion splices the new record into the in-order at one position and keeps every other record in its relative order |
| SearchTree.RankSeparates | main.c:185-196 | under a total preorder, every record before the insertion position is not greater than the new record, and every record after it is strictly greater |
| TreeSort.InsertAllAddsCells | main.c:182-198 | the build loop adds exactly the remaining cells to the tree's records, as a multiset |
| TreeSort.InsertAllPreservesBst | main.c:182-198 | the build loop keeps the search-tree invariant from the one-node root to the last cell |
| TreeSort.ListSortByTree | main.c:168-202 | the result is a permutation (multiset equality) of the input; the empty list gives the empty list; a one-cell list comes back unchanged |
| TreeSort.InorderSorted | main.c:185-191 | under a total preorder, the in-order of a search tree is sorted |
| TreeSort.SortIsSorted | main.c:168-202 | under a total preorder, every output record compares `<= 0` with every later one, in particular with its successor |
| TreeSort.InsertKeepsEquivalents | main.c:185-196 | an insertion puts the new record after every record equivalent to it, and keeps the order of the equivalent records already there |
| TreeSort.InsertAllKeepsEquivalents | main.c:182-198 | the build loop adds each cell to the end of the run of records equivalent to it, in list order |
| TreeSort.SortIsStable | main.c:179-199 | under a total preorder, for every key the records equivalent to it (comparator 0) appear in the output in their input order |
| TreeSort.InsertMatchesInsertSorted | main.c:183-196 | under a total preorder, tree insertion and list insertion before the first strictly greater record give the same in-order |
| TreeSort.InsertAllMatchesInsertionSort | main.c:182-198 | under a total preorder, the build loop's in-order is the list insertion sort of the cells onto the root's in-order |
| TreeSort.SortMatchesInsertionSort | main.c:168-202 | under a total preorder, the tree sort returns exactly what a stable list insertion sort returns |
| TreeSort.SortOfSortedIsIdentity | main.c:168-202 | under a total preorder, sorting an already sorted list returns the same list |
| TreeSort.ListSortByTreeAsWritten | main.c:179-199 | with the head cell's stale `left`/`right` links left in place, the output holds the input records plus every record those links reach |
| TreeSort.StaleRootLinksAddRecords | main.c:179-180 | with both root links empty, the as-written sort is `ListSortByTree`; with any stale record reachable from the root, the output is longer than the input |
| TreeSort.StaleRootLinkExample | main.c:179-180 | a one-record list whose head cell still links to a leftover cell comes back as two records, where the corrected sort returns it unchanged |
| Scenario.ByName | main.c:155-157 | Brown, Adams, Clark sorted by name give Adams, Brown, Clark |
| Scenario.ByGpa | main.c:135-143 | Brown (3.500), Adams (3.200), Clark (3.500) sorted by GPA give Adams, Brown, Clark: the tie keeps its input order |
| Scenario.ByCredit | main.c:145-153 | Brown (90), Adams (120), Clark (60) sorted by credit give Clark, Brown, Adams |

## Left out

- `input` (main.c:68-105) is not modelled: file reading, `fscanf` parsing,
  `malloc` failure and the "no records" diagnostic are I/O. The model
  starts from the list of records that `input` returns.
- `output` (main.c:107-124) is not modelled: writing records in a fixed
  column format is I/O.
- `main` (main.c:32-66) is not modelled: argument checks, key selection and
  `clock()` timing. The timing variables are uninitialised on the GPA and
  credit paths. Forwarding the list unsorted on an unknown key is just the
  identity.
- `free_list` (main.c:126-133) and `dump_list` (main.c:204-213) are not
  modelled: they release memory and print debug output, and have no
  functional content.
- GPA is an `int` key, not a C `float`. The model only ever compares `gpa`,
  so it stands for any order-preserving integer encoding of the finite
  float values (3500 for 3.500 in the scenario); no rounding is implied,
  and two floats that compare unequal map to different integers.
  NaN is left out: with NaN, both comparisons in `compGpa` are false and it
  answers 0, which is not a preorder.
- `credit` is an unbounded `int`. The comparators only compare it, with no
  arithmetic, so a 32-bit range does not change any result.
- The fixed 200-byte `name` buffer and the `strcpy` overflow (main.c:14, 91)
  are left out. Names are unbounded byte sequences.
- Comparators.Strcmp: only the sign of the answer is stated. ISO C promises
  no more. The body returns the difference of the first differing bytes, as
  common implementations do.
- Comparators.CompName: its own contract states only "equal names compare
  0". The preorder and lexicographic properties are separate lemmas.
- Node identity and destructive re-linking are left out: the model does not
  track which `next`, `left` or `right` pointer is written, or the
  list/tree overlay. Records are compared as values, so "the same cells"
  is stated as multiset equality of records.
- Recursion depth of `scan` and quadratic time on degenerate trees are left
  out: these are resource limits, not functional behaviour.

## Findings

| source | as written | input that shows it | evidently intended | confidence | as-written member | corrected member |
|---|---|---|---|---|---|---|
| main.c:179-180 | `root = list` keeps the head cell's `left` and `right` as they are. Only cells inserted later are cleared (main.c:194-195), and `input` (main.c:89-93) never initialises those two fields of a `malloc`ed cell. So the descent and `scan` read indeterminate links from the root. | any list, even one record long, whose head cell's `left` or `right` is not zero after `malloc`: the output then contains cells that were never in the list (or the program faults) | the root starts as a one-node tree with both links empty, so the output is a permutation of the input | medium (not executed): depends on what `malloc` leaves in the fresh cell | TreeSort.ListSortByTreeAsWritten (exhibited by TreeSort.StaleRootLinksAddRecords and TreeSort.StaleRootLinkExample) | TreeSort.ListSortByTree (permutation in its contract; TreeSort.SortIsSorted, TreeSort.SortIsStable) |
