/**
  A worked example of the sorter on three records: two share a GPA, so
  sorting by GPA shows the right-biased placement of ties.
 */
module Scenario {
  import opened Records
  import opened Comparators
  import opened SearchTree
  import opened TreeSort

  /** 3.500 90 Brown */
  const Brown: Record := Record(3500, 90, [66, 114, 111, 119, 110])
  /** 3.200 120 Adams */
  const Adams: Record := Record(3200, 120, [65, 100, 97, 109, 115])
  /** 3.500 60 Clark */
  const Clark: Record := Record(3500, 60, [67, 108, 97, 114, 107])

  /** By name: Adams, Brown, Clark, in strict byte-wise order. */
  lemma ByName()
    ensures ListSortByTree(CompName, [Brown, Adams, Clark]) == [Adams, Brown, Clark]
  {
    assert Head(Adams.name) == 65 && Head(Brown.name) == 66 && Head(Clark.name) == 67;
    assert CompName(Adams, Brown) < 0 && CompName(Clark, Brown) > 0;
    SortsLeftRight(CompName, Brown, Adams, Clark);
  }

  /** By GPA: Adams (3.200), then the two 3.500 records in input order,
      Brown before Clark, because the tie is routed right. */
  lemma ByGpa()
    ensures ListSortByTree(CompGpa, [Brown, Adams, Clark]) == [Adams, Brown, Clark]
  {
    assert CompGpa(Adams, Brown) < 0 && CompGpa(Clark, Brown) == 0;
    SortsLeftRight(CompGpa, Brown, Adams, Clark);
  }

  /** By credit: Clark (60), Brown (90), Adams (120). */
  lemma ByCredit()
    ensures ListSortByTree(CompCredit, [Brown, Adams, Clark]) == [Clark, Brown, Adams]
  {
    assert CompCredit(Clark, Brown) < 0 && CompCredit(Adams, Brown) > 0;
    SortsRightLeft(CompCredit, Brown, Adams, Clark);
  }

  /** The tree built from three cells: the head as root, the second and
      third inserted in turn. */
  lemma ThreeCellTree(comp: Comparator, x: Record, y: Record, z: Record)
    ensures ListSortByTree(comp, [x, y, z])
         == Inorder(Insert(comp, Insert(comp, Node(Leaf, x, Leaf), y), z))
  {
    var list := [x, y, z];
    assert list[0] == x && list[1..] == [y, z] && [y, z][1..] == [z] && [z][1..] == [];
    var root := Node(Leaf, x, Leaf);
    var t := Insert(comp, Insert(comp, root, y), z);
    assert InsertAll(comp, root, [y, z]) == InsertAll(comp, t, []);
    assert ListSortByTree(comp, list) == Scan(t, []);
  }

  /** The in-order of a root with one leaf on each side. */
  lemma InorderOfThree(a: Record, b: Record, c: Record)
    ensures Inorder(Node(Node(Leaf, a, Leaf), b, Node(Leaf, c, Leaf))) == [a, b, c]
  {
    assert Inorder(Node(Leaf, a, Leaf)) == [a];
    assert Inorder(Node(Leaf, c, Leaf)) == [c];
  }

  /** Three cells whose second goes left of the first and whose third goes
      right of it end up in the order second, first, third. */
  lemma SortsLeftRight(comp: Comparator, x: Record, y: Record, z: Record)
    requires comp(y, x) < 0 && comp(z, x) >= 0
    ensures ListSortByTree(comp, [x, y, z]) == [y, x, z]
  {
    ThreeCellTree(comp, x, y, z);
    var t1 := Insert(comp, Node(Leaf, x, Leaf), y);
    assert t1 == Node(Node(Leaf, y, Leaf), x, Leaf);
    assert Insert(comp, t1, z) == Node(Node(Leaf, y, Leaf), x, Node(Leaf, z, Leaf));
    InorderOfThree(y, x, z);
  }

  /** Three cells whose second goes right of the first and whose third goes
      left of it end up in the order third, first, second. */
  lemma SortsRightLeft(comp: Comparator, x: Record, y: Record, z: Record)
    requires comp(y, x) >= 0 && comp(z, x) < 0
    ensures ListSortByTree(comp, [x, y, z]) == [z, x, y]
  {
    ThreeCellTree(comp, x, y, z);
    var t1 := Insert(comp, Node(Leaf, x, Leaf), y);
    assert t1 == Node(Leaf, x, Node(Leaf, y, Leaf));
    assert Insert(comp, t1, z) == Node(Node(Leaf, z, Leaf), x, Node(Leaf, y, Leaf));
    InorderOfThree(z, x, y);
  }
}
