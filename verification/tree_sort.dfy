/**
  `list_sort_by_tree` (main.c:168-202): make the head cell the root, insert
  every later cell in list order, then flatten the tree with
  `scan(root, NULL)`. A linked list of cells is a `seq<Record>` in list
  order; the empty list (`NULL`) is `[]`.
 */
module TreeSort {
  import opened Records
  import opened SearchTree

  /** The outer loop of the build phase (main.c:182-198): insert the cells
      one by one, in list order, into the tree grown so far. */
  function InsertAll(comp: Comparator, t: Tree, cells: seq<Record>): Tree
    decreases |cells|
  {
    if cells == [] then t
    else InsertAll(comp, Insert(comp, t, cells[0]), cells[1..])
  }

  /** The build loop adds exactly the remaining cells to the tree's records:
      no cell is dropped and none is created. */
  lemma {:induction false} InsertAllAddsCells(comp: Comparator, t: Tree, cells: seq<Record>)
    ensures multiset(Inorder(InsertAll(comp, t, cells))) == multiset(Inorder(t)) + multiset(cells)
    decreases |cells|
  {
    if cells != [] {
      assert cells == [cells[0]] + cells[1..];
      InsertAddsRecord(comp, t, cells[0]);
      InsertAllAddsCells(comp, Insert(comp, t, cells[0]), cells[1..]);
    }
  }

  /** `list_sort_by_tree`. The result holds exactly the input records;
      an empty list comes back empty and a one-cell list unchanged. */
  function ListSortByTree(comp: Comparator, list: seq<Record>): (sorted: seq<Record>)
    ensures multiset(sorted) == multiset(list)
    ensures |sorted| == |list|
    ensures list == [] ==> sorted == []
    ensures |list| == 1 ==> sorted == list
  {
    if list == [] then []
    else
      // The C code makes the head cell the root (`root = list`) without
      // clearing its `left` and `right`, and `input` never sets them; the
      // model starts the tree explicitly as the head cell with both links
      // empty. `ListSortByTreeAsWritten` models the links left as they are.
      var root := Node(Leaf, list[0], Leaf);
      assert list == [list[0]] + list[1..];
      assert Inorder(root) == [list[0]];
      InsertAllAddsCells(comp, root, list[1..]);
      Scan(InsertAll(comp, root, list[1..]), [])
  }

  /** `list_sort_by_tree` as written, with the head cell's stale `left` and
      `right` links as parameters: the tree the build phase starts from is
      whatever those links reach. */
  function ListSortByTreeAsWritten(comp: Comparator, list: seq<Record>, staleLeft: Tree, staleRight: Tree)
    : (sorted: seq<Record>)
    ensures list != [] ==>
      multiset(sorted) == multiset(list) + multiset(Inorder(staleLeft)) + multiset(Inorder(staleRight))
    ensures list == [] ==> sorted == []
  {
    if list == [] then []
    else
      var root := Node(staleLeft, list[0], staleRight);
      assert list == [list[0]] + list[1..];
      InsertAllAddsCells(comp, root, list[1..]);
      Scan(InsertAll(comp, root, list[1..]), [])
  }

  /** With both root links cleared, the code as written is `ListSortByTree`;
      with any record reachable from a stale link, the output holds a
      record that was never in the input. */
  lemma StaleRootLinksAddRecords(comp: Comparator, list: seq<Record>, staleLeft: Tree, staleRight: Tree)
    ensures ListSortByTreeAsWritten(comp, list, Leaf, Leaf) == ListSortByTree(comp, list)
    ensures list != [] && (staleLeft != Leaf || staleRight != Leaf) ==>
      |ListSortByTreeAsWritten(comp, list, staleLeft, staleRight)| > |list|
  {
    if list != [] {
      var sorted := ListSortByTreeAsWritten(comp, list, staleLeft, staleRight);
      assert |multiset(sorted)| == |list| + |Inorder(staleLeft)| + |Inorder(staleRight)|;
      if staleLeft != Leaf {
        assert |Inorder(staleLeft)| > 0;
      }
      if staleRight != Leaf {
        assert |Inorder(staleRight)| > 0;
      }
    }
  }

  /** A concrete witness: one record, sorted while the head cell's `left`
      still points at a leftover cell, comes back as two. */
  lemma StaleRootLinkExample(comp: Comparator, x: Record, y: Record)
    ensures ListSortByTreeAsWritten(comp, [x], Node(Leaf, y, Leaf), Leaf) == [y, x]
    ensures ListSortByTree(comp, [x]) == [x]
  {
  }

  /** The build loop keeps the search-tree invariant from the one-cell
      root to the last cell. */
  lemma {:induction false} InsertAllPreservesBst(comp: Comparator, t: Tree, cells: seq<Record>)
    requires IsBst(comp, t)
    ensures IsBst(comp, InsertAll(comp, t, cells))
    decreases |cells|
  {
    if cells != [] {
      InsertPreservesBst(comp, t, cells[0]);
      InsertAllPreservesBst(comp, Insert(comp, t, cells[0]), cells[1..]);
    }
  }

  /** Every pair of records, in output order, compares "not greater". */
  ghost predicate Sorted(comp: Comparator, s: seq<Record>) {
    forall i, j | 0 <= i < j < |s| :: comp(s[i], s[j]) <= 0
  }

  /** A node between a sorted left part of smaller records and a sorted
      right part of not-smaller records yields a sorted list. */
  lemma SortedAroundNode(comp: Comparator, L: seq<Record>, x: Record, R: seq<Record>)
    requires TotalPreorder(comp)
    requires Sorted(comp, L) && Sorted(comp, R)
    requires forall y | y in L :: comp(y, x) < 0
    requires forall z | z in R :: comp(z, x) >= 0
    ensures Sorted(comp, L + [x] + R)
  {
    var s := L + [x] + R;
    var n := |L|;
    forall i, j | 0 <= i < j < |s|
      ensures comp(s[i], s[j]) <= 0
    {
      if j < n {
        assert s[i] == L[i] && s[j] == L[j];
      } else if i > n {
        assert s[i] == R[i - n - 1] && s[j] == R[j - n - 1];
      } else if j == n {
        assert s[i] == L[i];
        assert s[i] in L;
      } else {
        assert s[j] == R[j - n - 1];
        assert s[j] in R;
        PreorderReflexiveSymmetric(comp, s[j], x);
        if i < n {
          assert s[i] == L[i];
          assert s[i] in L;
          LessThenAtMost(comp, s[i], x, s[j]);
        }
      }
    }
  }

  /** The in-order of a search tree under a total preorder is sorted. */
  lemma {:induction false} InorderSorted(comp: Comparator, t: Tree)
    requires TotalPreorder(comp) && IsBst(comp, t)
    ensures Sorted(comp, Inorder(t))
  {
    match t
    case Leaf =>
    case Node(l, x, r) =>
      InorderSorted(comp, l);
      InorderSorted(comp, r);
      SortedAroundNode(comp, Inorder(l), x, Inorder(r));
  }

  /** For a comparator that is a total preorder, the sorted list is in
      non-decreasing order: any record compares "not greater" with every
      record after it, in particular with its successor. */
  lemma SortIsSorted(comp: Comparator, list: seq<Record>)
    requires TotalPreorder(comp)
    ensures Sorted(comp, ListSortByTree(comp, list))
    ensures forall i | 0 <= i < |list| - 1 ::
      comp(ListSortByTree(comp, list)[i], ListSortByTree(comp, list)[i + 1]) <= 0
  {
    if list != [] {
      var root := Node(Leaf, list[0], Leaf);
      InsertAllPreservesBst(comp, root, list[1..]);
      InorderSorted(comp, InsertAll(comp, root, list[1..]));
    }
    var sorted := ListSortByTree(comp, list);
    forall i | 0 <= i < |list| - 1
      ensures comp(sorted[i], sorted[i + 1]) <= 0
    {
    }
  }

  /** The records of `s` equivalent to `k` under `comp`, in their order in `s`. */
  function Equivalents(comp: Comparator, k: Record, s: seq<Record>): (r: seq<Record>)
    ensures |r| <= |s|
  {
    if s == [] then []
    else (if comp(s[0], k) == 0 then [s[0]] else []) + Equivalents(comp, k, s[1..])
  }

  /** Filtering distributes over concatenation. */
  lemma {:induction false} EquivalentsOfConcat(comp: Comparator, k: Record, a: seq<Record>, b: seq<Record>)
    ensures Equivalents(comp, k, a + b) == Equivalents(comp, k, a) + Equivalents(comp, k, b)
    decreases |a|
  {
    if a == [] {
      assert a + b == b;
    } else {
      assert (a + b)[1..] == a[1..] + b;
      EquivalentsOfConcat(comp, k, a[1..], b);
    }
  }

  /** A list with no record equivalent to `k` has no equivalents of `k`. */
  lemma {:induction false} EquivalentsNone(comp: Comparator, k: Record, s: seq<Record>)
    requires forall j | 0 <= j < |s| :: comp(s[j], k) != 0
    ensures Equivalents(comp, k, s) == []
    decreases |s|
  {
    if s != [] {
      EquivalentsNone(comp, k, s[1..]);
    }
  }

  /** Stability: for every key, the records equivalent to it appear in the
      output in the same order as in the input. */
  ghost predicate Stable(comp: Comparator, input: seq<Record>, output: seq<Record>) {
    forall k :: Equivalents(comp, k, output) == Equivalents(comp, k, input)
  }

  /** Splicing `e` into `A + B` appends it to the equivalents of `k`
      when nothing after the splice point is equivalent to `k`. */
  lemma SpliceEquivalents(comp: Comparator, k: Record, A: seq<Record>, e: Record, B: seq<Record>)
    requires comp(e, k) == 0 ==> Equivalents(comp, k, B) == []
    ensures Equivalents(comp, k, A + [e] + B)
         == Equivalents(comp, k, A + B) + Equivalents(comp, k, [e])
  {
    EquivalentsOfConcat(comp, k, A, B);
    EquivalentsOfConcat(comp, k, A + [e], B);
    EquivalentsOfConcat(comp, k, A, [e]);
    assert Equivalents(comp, k, [e]) == (if comp(e, k) == 0 then [e] else []);
  }

  /** Splicing `e` in at position `i` of `s` appends it to the equivalents
      of `k` when nothing from position `i` on is equivalent to `k`. */
  lemma SpliceAt(comp: Comparator, k: Record, s: seq<Record>, i: nat, e: Record, ins: seq<Record>)
    requires i <= |s| && ins == s[..i] + [e] + s[i..]
    requires comp(e, k) == 0 ==> Equivalents(comp, k, s[i..]) == []
    ensures Equivalents(comp, k, ins) == Equivalents(comp, k, s) + Equivalents(comp, k, [e])
  {
    assert s == s[..i] + s[i..];
    SpliceEquivalents(comp, k, s[..i], e, s[i..]);
  }

  /** In a search tree, no record after the insertion slot of `e` is
      equivalent to `e`. */
  lemma NoEquivalentsAfterRank(comp: Comparator, t: Tree, e: Record, k: Record)
    requires TotalPreorder(comp) && IsBst(comp, t) && comp(e, k) == 0
    ensures Equivalents(comp, k, Inorder(t)[Rank(comp, t, e)..]) == []
  {
    var s := Inorder(t);
    var i := Rank(comp, t, e);
    var B := s[i..];
    RankSeparates(comp, t, e);
    forall j | 0 <= j < |B|
      ensures comp(B[j], k) != 0
    {
      assert B[j] == s[i + j];
      // `B[j]` is strictly after `e` and `e` is equivalent to `k`, so
      // `B[j] <= k` would give `B[j] <= e` by one step of transitivity.
      PreorderReflexiveSymmetric(comp, e, k);
      PreorderReflexiveSymmetric(comp, B[j], e);
      assert comp(k, e) == 0;
      assert comp(B[j], e) > 0;
    }
    EquivalentsNone(comp, k, B);
  }

  /** Inserting `e` appends it to the run of its equivalents: it lands
      after every record equivalent to it and leaves the others' order. */
  lemma InsertKeepsEquivalents(comp: Comparator, t: Tree, e: Record, k: Record)
    requires TotalPreorder(comp) && IsBst(comp, t)
    ensures Equivalents(comp, k, Inorder(Insert(comp, t, e)))
         == Equivalents(comp, k, Inorder(t)) + Equivalents(comp, k, [e])
  {
    InsertSplicesInorder(comp, t, e);
    if comp(e, k) == 0 {
      NoEquivalentsAfterRank(comp, t, e, k);
    }
    SpliceAt(comp, k, Inorder(t), Rank(comp, t, e), e, Inorder(Insert(comp, t, e)));
  }

  /** One step of the build loop, in terms of equivalents: what the rest
      of the loop appends to the tree after inserting `cells[0]`. */
  lemma ChainEquivalents(comp: Comparator, k: Record, out: seq<Record>, mid: seq<Record>, s: seq<Record>, cells: seq<Record>)
    requires cells != []
    requires Equivalents(comp, k, out) == Equivalents(comp, k, mid) + Equivalents(comp, k, cells[1..])
    requires Equivalents(comp, k, mid) == Equivalents(comp, k, s) + Equivalents(comp, k, [cells[0]])
    ensures Equivalents(comp, k, out) == Equivalents(comp, k, s) + Equivalents(comp, k, cells)
  {
    EquivalentsOfHead(comp, k, cells);
    Regroup(Equivalents(comp, k, out), Equivalents(comp, k, mid), Equivalents(comp, k, cells[1..]),
            Equivalents(comp, k, s), Equivalents(comp, k, [cells[0]]), Equivalents(comp, k, cells));
  }

  /** `a == (d + e) + c` regrouped as `d + (e + c)`. */
  lemma Regroup(a: seq<Record>, b: seq<Record>, c: seq<Record>, d: seq<Record>, e: seq<Record>, f: seq<Record>)
    requires a == b + c && b == d + e && f == e + c
    ensures a == d + f
  {
  }

  /** The equivalents of a list are those of its head followed by those of its tail. */
  lemma EquivalentsOfHead(comp: Comparator, k: Record, cells: seq<Record>)
    requires cells != []
    ensures Equivalents(comp, k, cells) == Equivalents(comp, k, [cells[0]]) + Equivalents(comp, k, cells[1..])
  {
    assert [cells[0]][1..] == [];
  }

  /** The build loop appends each cell to the run of its equivalents. */
  lemma {:induction false} InsertAllKeepsEquivalents(comp: Comparator, t: Tree, cells: seq<Record>, k: Record)
    requires TotalPreorder(comp) && IsBst(comp, t)
    ensures Equivalents(comp, k, Inorder(InsertAll(comp, t, cells)))
         == Equivalents(comp, k, Inorder(t)) + Equivalents(comp, k, cells)
    decreases |cells|
  {
    if cells != [] {
      var t' := Insert(comp, t, cells[0]);
      InsertKeepsEquivalents(comp, t, cells[0], k);
      InsertPreservesBst(comp, t, cells[0]);
      InsertAllKeepsEquivalents(comp, t', cells[1..], k);
      assert InsertAll(comp, t, cells) == InsertAll(comp, t', cells[1..]);
      ChainEquivalents(comp, k, Inorder(InsertAll(comp, t, cells)), Inorder(t'), Inorder(t), cells);
    }
  }

  /** For a total preorder, records that compare equal keep their input
      order: ties are routed right, after the equal records inserted
      before them. */
  lemma SortIsStable(comp: Comparator, list: seq<Record>)
    requires TotalPreorder(comp)
    ensures Stable(comp, list, ListSortByTree(comp, list))
  {
    forall k
      ensures Equivalents(comp, k, ListSortByTree(comp, list)) == Equivalents(comp, k, list)
    {
      SortKeepsEquivalents(comp, list, k);
    }
  }

  /** `SortIsStable` for one key. */
  lemma SortKeepsEquivalents(comp: Comparator, list: seq<Record>, k: Record)
    requires TotalPreorder(comp)
    ensures Equivalents(comp, k, ListSortByTree(comp, list)) == Equivalents(comp, k, list)
  {
    if list != [] {
      var root := Node(Leaf, list[0], Leaf);
      var tree := InsertAll(comp, root, list[1..]);
      assert Inorder(root) == [list[0]];
      assert ListSortByTree(comp, list) == Inorder(tree) + [];
      assert Inorder(tree) + [] == Inorder(tree);
      InsertAllKeepsEquivalents(comp, root, list[1..], k);
      EquivalentsOfHead(comp, k, list);
    }
  }

  /** Reference insertion into a list: `e` goes in front of the first
      record that compares strictly greater than it. */
  function InsertSorted(comp: Comparator, s: seq<Record>, e: Record): seq<Record> {
    if s == [] then [e]
    else if comp(e, s[0]) < 0 then [e] + s
    else [s[0]] + InsertSorted(comp, s[1..], e)
  }

  /** Reference list insertion sort, consuming `rest` in list order. */
  function InsertionSortOnto(comp: Comparator, sorted: seq<Record>, rest: seq<Record>): seq<Record>
    decreases |rest|
  {
    if rest == [] then sorted
    else InsertionSortOnto(comp, InsertSorted(comp, sorted, rest[0]), rest[1..])
  }

  function InsertionSort(comp: Comparator, list: seq<Record>): seq<Record> {
    InsertionSortOnto(comp, [], list)
  }

  /** When position `i` separates the records not greater than `e` from the
      strictly greater ones, list insertion puts `e` at `i`. */
  lemma {:induction false} InsertSortedAt(comp: Comparator, s: seq<Record>, e: Record, i: nat)
    requires i <= |s|
    requires forall j | 0 <= j < i :: comp(e, s[j]) >= 0
    requires forall j | i <= j < |s| :: comp(e, s[j]) < 0
    ensures InsertSorted(comp, s, e) == s[..i] + [e] + s[i..]
    decreases |s|
  {
    if s != [] && i > 0 {
      InsertSortedAt(comp, s[1..], e, i - 1);
      assert s[..i] == [s[0]] + s[1..][..i - 1];
      assert s[i..] == s[1..][i - 1..];
    }
  }

  /** Tree insertion and list insertion agree on the in-order. */
  lemma InsertMatchesInsertSorted(comp: Comparator, t: Tree, e: Record)
    requires TotalPreorder(comp) && IsBst(comp, t)
    ensures Inorder(Insert(comp, t, e)) == InsertSorted(comp, Inorder(t), e)
  {
    InsertSplicesInorder(comp, t, e);
    RankSeparates(comp, t, e);
    InsertSortedAt(comp, Inorder(t), e, Rank(comp, t, e));
  }

  lemma {:induction false} InsertAllMatchesInsertionSort(comp: Comparator, t: Tree, cells: seq<Record>)
    requires TotalPreorder(comp) && IsBst(comp, t)
    ensures Inorder(InsertAll(comp, t, cells)) == InsertionSortOnto(comp, Inorder(t), cells)
    decreases |cells|
  {
    if cells != [] {
      InsertMatchesInsertSorted(comp, t, cells[0]);
      InsertPreservesBst(comp, t, cells[0]);
      InsertAllMatchesInsertionSort(comp, Insert(comp, t, cells[0]), cells[1..]);
    }
  }

  /** For a total preorder, the tree sort produces exactly the list a plain
      stable insertion sort produces. */
  lemma SortMatchesInsertionSort(comp: Comparator, list: seq<Record>)
    requires TotalPreorder(comp)
    ensures ListSortByTree(comp, list) == InsertionSort(comp, list)
  {
    if list != [] {
      var root := Node(Leaf, list[0], Leaf);
      InsertAllMatchesInsertionSort(comp, root, list[1..]);
      assert InsertSorted(comp, [], list[0]) == Inorder(root);
    }
  }

  /** Insertion sort onto an already sorted prefix of a sorted list only
      appends. */
  lemma {:induction false} InsertionSortOntoSorted(comp: Comparator, p: seq<Record>, q: seq<Record>)
    requires TotalPreorder(comp) && Sorted(comp, p + q)
    ensures InsertionSortOnto(comp, p, q) == p + q
    decreases |q|
  {
    if q != [] {
      var s := p + q;
      forall j | 0 <= j < |p|
        ensures comp(q[0], p[j]) >= 0
      {
        assert s[j] == p[j] && s[|p|] == q[0];
        PreorderReflexiveSymmetric(comp, q[0], p[j]);
      }
      InsertSortedAt(comp, p, q[0], |p|);
      assert p[..|p|] == p && p[|p|..] == [];
      assert InsertSorted(comp, p, q[0]) == p + [q[0]];
      assert (p + [q[0]]) + q[1..] == s;
      InsertionSortOntoSorted(comp, p + [q[0]], q[1..]);
      assert InsertionSortOnto(comp, p, q) == InsertionSortOnto(comp, p + [q[0]], q[1..]);
    }
  }

  /** Sorting a list that is already in order gives back the same list. */
  lemma SortOfSortedIsIdentity(comp: Comparator, list: seq<Record>)
    requires TotalPreorder(comp) && Sorted(comp, list)
    ensures ListSortByTree(comp, list) == list
  {
    SortMatchesInsertionSort(comp, list);
    InsertionSortOntoSorted(comp, [], list);
  }
}
