/**
  The working binary search tree of `list_sort_by_tree` (main.c:168-202)
  and its flattening `scan` (main.c:159-166). A cell used as a tree node,
  where only its `left` / `right` links matter, is a `Node`; those links
  are the two subtrees, and an empty link (`NULL`) is `Leaf`.
 */
module SearchTree {
  import opened Records

  datatype Tree = Leaf | Node(left: Tree, rec: Record, right: Tree)

  /** The records of a tree in in-order: left subtree, node, right subtree. */
  function Inorder(t: Tree): seq<Record> {
    match t
    case Leaf => []
    case Node(l, x, r) => Inorder(l) + [x] + Inorder(r)
  }

  /** `scan(tree, next)` (main.c:159-166): link the flattened right subtree
      in front of `next`, make that the node's successor, then flatten the
      left subtree in front of the node. The returned list is the tree's
      in-order followed by `next`. */
  function Scan(t: Tree, next: seq<Record>): (list: seq<Record>)
    ensures list == Inorder(t) + next
    ensures t == Leaf ==> list == next
  {
    match t
    case Leaf => next
    case Node(l, x, r) => Scan(l, [x] + Scan(r, next))
  }

  /** The search-tree invariant the build phase keeps: every record in a
      left subtree compares strictly less than its ancestor, every record
      in a right subtree compares not less. */
  ghost predicate IsBst(comp: Comparator, t: Tree) {
    match t
    case Leaf => true
    case Node(l, x, r) =>
      && IsBst(comp, l)
      && IsBst(comp, r)
      && (forall y | y in Inorder(l) :: comp(y, x) < 0)
      && (forall z | z in Inorder(r) :: comp(z, x) >= 0)
  }

  /** One pass of the inner loop of the build phase (main.c:183-196):
      descend left while `comp(node, *p) < 0`, otherwise right, and hang
      the new cell, with both links cleared, in the empty slot reached. */
  function Insert(comp: Comparator, t: Tree, e: Record): Tree {
    match t
    case Leaf => Node(Leaf, e, Leaf)
    case Node(l, x, rt) =>
      if comp(e, x) < 0 then Node(Insert(comp, l, e), x, rt)
      else Node(l, x, Insert(comp, rt, e))
  }

  /** One insertion adds exactly the new record to the tree's records. */
  lemma {:induction false} InsertAddsRecord(comp: Comparator, t: Tree, e: Record)
    ensures multiset(Inorder(Insert(comp, t, e))) == multiset(Inorder(t)) + multiset{e}
  {
    match t
    case Leaf =>
    case Node(l, x, r) =>
      if comp(e, x) < 0 {
        InsertAddsRecord(comp, l, e);
      } else {
        InsertAddsRecord(comp, r, e);
      }
  }

  /** A step of the pointer-to-link `p` in the build phase. */
  datatype Dir = Left | Right

  /** The successive steps of `p` (main.c:185-192) while it looks for the
      empty slot where `e` goes. */
  function Descent(comp: Comparator, t: Tree, e: Record): seq<Dir> {
    match t
    case Leaf => []
    case Node(l, x, r) =>
      if comp(e, x) < 0 then [Left] + Descent(comp, l, e)
      else [Right] + Descent(comp, r, e)
  }

  /** The subtree a path of steps leads to from the root (`Leaf` once the
      path runs off the tree). */
  function Subtree(t: Tree, path: seq<Dir>): Tree
    decreases path
  {
    if path == [] then t
    else match t
      case Leaf => Leaf
      case Node(l, _, r) => Subtree(if path[0] == Left then l else r, path[1..])
  }

  /** `t` with the subtree at the end of `path` replaced by `u`; a path that
      runs off the tree changes nothing. */
  function Graft(t: Tree, path: seq<Dir>, u: Tree): Tree
    decreases path
  {
    if path == [] then u
    else match t
      case Leaf => Leaf
      case Node(l, x, r) =>
        if path[0] == Left then Node(Graft(l, path[1..], u), x, r)
        else Node(l, x, Graft(r, path[1..], u))
  }

  /** Insertion changes exactly one empty slot: the one the descent ends
      at becomes a leaf node holding `e`, and nothing else in the tree
      changes. */
  lemma {:induction false} InsertIsGraft(comp: Comparator, t: Tree, e: Record)
    ensures Subtree(t, Descent(comp, t, e)) == Leaf
    ensures Insert(comp, t, e) == Graft(t, Descent(comp, t, e), Node(Leaf, e, Leaf))
  {
    match t
    case Leaf =>
    case Node(l, x, r) =>
      var path := Descent(comp, t, e);
      if comp(e, x) < 0 {
        InsertIsGraft(comp, l, e);
        assert path[1..] == Descent(comp, l, e);
      } else {
        InsertIsGraft(comp, r, e);
        assert path[1..] == Descent(comp, r, e);
      }
  }

  /** The descent steps left exactly where the comparator answers strictly
      negative for the new record against the node reached so far, and
      right otherwise (equality included). */
  lemma {:induction false} DescentFollowsComparator(comp: Comparator, t: Tree, e: Record)
    ensures forall k | 0 <= k < |Descent(comp, t, e)| ::
      && Subtree(t, Descent(comp, t, e)[..k]).Node?
      && (Descent(comp, t, e)[k] == Left <==> comp(e, Subtree(t, Descent(comp, t, e)[..k]).rec) < 0)
  {
    match t
    case Leaf =>
    case Node(l, x, r) =>
      var path := Descent(comp, t, e);
      var child := if comp(e, x) < 0 then l else r;
      DescentFollowsComparator(comp, child, e);
      assert path[1..] == Descent(comp, child, e);
      forall k | 0 <= k < |path|
        ensures Subtree(t, path[..k]).Node?
        ensures path[k] == Left <==> comp(e, Subtree(t, path[..k]).rec) < 0
      {
        if k > 0 {
          assert path[..k][0] == path[0];
          assert path[..k][1..] == path[1..][..k - 1];
          assert Subtree(t, path[..k]) == Subtree(child, path[1..][..k - 1]);
        } else {
          assert path[..k] == [];
        }
      }
  }

  /** Insertion keeps the search-tree invariant, for any comparator: the
      descent only passes a node on the side its comparator answer picks. */
  lemma {:induction false} InsertPreservesBst(comp: Comparator, t: Tree, e: Record)
    requires IsBst(comp, t)
    ensures IsBst(comp, Insert(comp, t, e))
  {
    match t
    case Leaf =>
    case Node(l, x, r) =>
      if comp(e, x) < 0 {
        var l' := Insert(comp, l, e);
        InsertPreservesBst(comp, l, e);
        InsertAddsRecord(comp, l, e);
        forall y | y in Inorder(l')
          ensures comp(y, x) < 0
        {
          assert y in multiset(Inorder(l'));
        }
      } else {
        var r' := Insert(comp, r, e);
        InsertPreservesBst(comp, r, e);
        InsertAddsRecord(comp, r, e);
        forall z | z in Inorder(r')
          ensures comp(z, x) >= 0
        {
          assert z in multiset(Inorder(r'));
        }
      }
  }

  /** How many records of the in-order come before the slot `e` is
      inserted at. */
  function Rank(comp: Comparator, t: Tree, e: Record): (i: nat)
    ensures i <= |Inorder(t)|
  {
    match t
    case Leaf => 0
    case Node(l, x, r) =>
      if comp(e, x) < 0 then Rank(comp, l, e)
      else |Inorder(l)| + 1 + Rank(comp, r, e)
  }

  /** In list terms, insertion splices `e` into the in-order at position
      `Rank` and leaves every other record where it was. */
  lemma {:induction false} InsertSplicesInorder(comp: Comparator, t: Tree, e: Record)
    ensures Inorder(Insert(comp, t, e))
         == Inorder(t)[..Rank(comp, t, e)] + [e] + Inorder(t)[Rank(comp, t, e)..]
  {
    match t
    case Leaf =>
    case Node(l, x, r) =>
      if comp(e, x) < 0 {
        InsertSplicesInorder(comp, l, e);
        SpliceBeforeNode(Inorder(l), x, Inorder(r), Rank(comp, l, e), e);
      } else {
        InsertSplicesInorder(comp, r, e);
        SpliceAfterNode(Inorder(l), x, Inorder(r), Rank(comp, r, e), e);
      }
  }

  /** Splicing into the left part of `L + [x] + R`. */
  lemma SpliceBeforeNode(L: seq<Record>, x: Record, R: seq<Record>, i: nat, e: Record)
    requires i <= |L|
    ensures (L[..i] + [e] + L[i..]) + [x] + R
         == (L + [x] + R)[..i] + [e] + (L + [x] + R)[i..]
  {
    var s := L + [x] + R;
    assert s[..i] == L[..i];
    assert s[i..] == L[i..] + [x] + R;
  }

  /** Splicing into the right part of `L + [x] + R`. */
  lemma SpliceAfterNode(L: seq<Record>, x: Record, R: seq<Record>, i: nat, e: Record)
    requires i <= |R|
    ensures L + [x] + (R[..i] + [e] + R[i..])
         == (L + [x] + R)[..|L| + 1 + i] + [e] + (L + [x] + R)[|L| + 1 + i..]
  {
    var s := L + [x] + R;
    assert s[..|L| + 1 + i] == L + [x] + R[..i];
    assert s[|L| + 1 + i..] == R[i..];
  }

  /** In a search tree under a total preorder, the insertion slot separates
      the in-order exactly: every record before it is not greater than `e`
      and every record after it is strictly greater. So `e` lands after all
      records equivalent to it. */
  lemma {:induction false} RankSeparates(comp: Comparator, t: Tree, e: Record)
    requires TotalPreorder(comp) && IsBst(comp, t)
    ensures forall j | 0 <= j < Rank(comp, t, e) :: comp(e, Inorder(t)[j]) >= 0
    ensures forall j | Rank(comp, t, e) <= j < |Inorder(t)| :: comp(e, Inorder(t)[j]) < 0
  {
    match t
    case Leaf =>
    case Node(l, x, r) =>
      if comp(e, x) < 0 {
        RankSeparates(comp, l, e);
        RankSeparatesGoLeft(comp, l, x, r, e);
      } else {
        RankSeparates(comp, r, e);
        RankSeparatesGoRight(comp, l, x, r, e);
      }
  }

  /** The step of `RankSeparates` where the descent goes left at the root. */
  lemma RankSeparatesGoLeft(comp: Comparator, l: Tree, x: Record, r: Tree, e: Record)
    requires TotalPreorder(comp) && IsBst(comp, Node(l, x, r)) && comp(e, x) < 0
    requires forall j | 0 <= j < Rank(comp, l, e) :: comp(e, Inorder(l)[j]) >= 0
    requires forall j | Rank(comp, l, e) <= j < |Inorder(l)| :: comp(e, Inorder(l)[j]) < 0
    ensures forall j | 0 <= j < Rank(comp, Node(l, x, r), e) :: comp(e, Inorder(Node(l, x, r))[j]) >= 0
    ensures forall j | Rank(comp, Node(l, x, r), e) <= j < |Inorder(Node(l, x, r))| ::
      comp(e, Inorder(Node(l, x, r))[j]) < 0
  {
    var L, R := Inorder(l), Inorder(r);
    var s := L + [x] + R;
    assert Inorder(Node(l, x, r)) == s;
    var n := |L|;
    forall j | n < j < |s|
      ensures comp(e, s[j]) < 0
    {
      assert s[j] == R[j - n - 1];
      assert s[j] in R;
      PreorderReflexiveSymmetric(comp, s[j], x);
      LessThenAtMost(comp, e, x, s[j]);
    }
    forall j | 0 <= j < n
      ensures s[j] == L[j]
    {
    }
  }

  /** The step of `RankSeparates` where the descent goes right at the root. */
  lemma RankSeparatesGoRight(comp: Comparator, l: Tree, x: Record, r: Tree, e: Record)
    requires TotalPreorder(comp) && IsBst(comp, Node(l, x, r)) && comp(e, x) >= 0
    requires forall j | 0 <= j < Rank(comp, r, e) :: comp(e, Inorder(r)[j]) >= 0
    requires forall j | Rank(comp, r, e) <= j < |Inorder(r)| :: comp(e, Inorder(r)[j]) < 0
    ensures forall j | 0 <= j < Rank(comp, Node(l, x, r), e) :: comp(e, Inorder(Node(l, x, r))[j]) >= 0
    ensures forall j | Rank(comp, Node(l, x, r), e) <= j < |Inorder(Node(l, x, r))| ::
      comp(e, Inorder(Node(l, x, r))[j]) < 0
  {
    var L, R := Inorder(l), Inorder(r);
    var s := L + [x] + R;
    assert Inorder(Node(l, x, r)) == s;
    var n := |L|;
    forall j | 0 <= j < n
      ensures comp(e, s[j]) >= 0
    {
      assert s[j] == L[j];
      assert s[j] in L;
      PreorderReflexiveSymmetric(comp, e, x);
      LessThenAtMost(comp, s[j], x, e);
      PreorderReflexiveSymmetric(comp, s[j], e);
    }
    forall j | n < j < |s|
      ensures s[j] == R[j - n - 1]
    {
    }
  }
}
