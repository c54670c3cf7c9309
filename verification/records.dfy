/**
  The payload of one `SRec` cell (main.c:11-17) and the shape of the
  three-way comparators the tree sort is parameterised by.

  The link fields `next`, `left` and `right` are not fields here: a linked
  list of cells is a `seq<Record>` and a tree of cells is a `Tree`
  (module SearchTree), so "which links are live" is carried by the type.
 */
module Records {

  /** One byte of a C `char` string, compared as `unsigned char`. */
  type Byte = b: int | 0 <= b < 256

  /** The payload of one cell.
      `gpa` is the grade-point average as an integer key: any
      order-preserving encoding of the finite `float` values (3500 for
      3.500 in the scenario), since it is only ever compared; `credit` is
      the credit count;
      `name` is the bytes of the family name. */
  datatype Record = Record(gpa: int, credit: int, name: seq<Byte>)

  /** `int (*comp)(const void *, const void *)`: negative means "less",
      zero "equal", positive "greater". */
  type Comparator = (Record, Record) -> int

  /** A comparator whose sign is a total preorder: swapping the arguments
      swaps the sign, and "not greater" is transitive. */
  ghost predicate TotalPreorder(comp: Comparator) {
    && (forall a, b :: comp(a, b) < 0 <==> comp(b, a) > 0)
    && (forall a, b, c :: comp(a, b) <= 0 && comp(b, c) <= 0 ==> comp(a, c) <= 0)
  }

  /** Every record is equivalent to itself and equivalence is symmetric. */
  lemma PreorderReflexiveSymmetric(comp: Comparator, a: Record, b: Record)
    requires TotalPreorder(comp)
    ensures comp(a, a) == 0
    ensures comp(a, b) == 0 <==> comp(b, a) == 0
    ensures comp(a, b) > 0 <==> comp(b, a) < 0
  {
    assert comp(a, a) < 0 <==> comp(a, a) > 0;
    assert comp(b, a) < 0 <==> comp(a, b) > 0;
  }

  /** Strictly less followed by not greater is strictly less. */
  lemma LessThenAtMost(comp: Comparator, a: Record, b: Record, c: Record)
    requires TotalPreorder(comp)
    requires comp(a, b) < 0 && comp(b, c) <= 0
    ensures comp(a, c) < 0
  {
  }

}
