/**
  The three comparators the sorter can be run with (main.c:135-157):
  `compGpa` and `compCredit` answer `TRUE`, `FALSE` or 0 (main.c:5, 7) from
  the numeric field; `compName` is C's `strcmp` on the name, which compares
  the strings byte by byte as `unsigned char` up to the terminating NUL
  (section 7.24.4.2 of ISO/IEC 9899:2011).
 */
module Comparators {
  import opened Records

  /** `#define TRUE 1` (main.c:7): the answer for "greater". */
  const TRUE: int := 1

  /** `#define FALSE -1` (main.c:5): the answer for "less". */
  const FALSE: int := -1

  /** The if / else-if / else ladder shared by `compGpa` and `compCredit`. */
  function Order(x: int, y: int): (r: int)
    ensures r == TRUE <==> x > y
    ensures r == FALSE <==> x < y
    ensures r == 0 <==> x == y
  {
    if x > y then TRUE else if x < y then FALSE else 0
  }

  /** `compGpa` (main.c:135-143). */
  function CompGpa(a: Record, b: Record): (r: int)
    ensures r == TRUE <==> a.gpa > b.gpa
    ensures r == FALSE <==> a.gpa < b.gpa
    ensures r == 0 <==> a.gpa == b.gpa
  {
    Order(a.gpa, b.gpa)
  }

  /** `compCredit` (main.c:145-153). */
  function CompCredit(a: Record, b: Record): (r: int)
    ensures r == TRUE <==> a.credit > b.credit
    ensures r == FALSE <==> a.credit < b.credit
    ensures r == 0 <==> a.credit == b.credit
  {
    Order(a.credit, b.credit)
  }

  /** The byte a C string shows at its first position: the first element,
      or the terminating NUL once the bytes are used up. */
  function Head(s: seq<Byte>): Byte {
    if |s| == 0 then 0 else s[0]
  }

  /** A name a C string can hold in full: no NUL inside it. */
  predicate NoNul(s: seq<Byte>) {
    forall i | 0 <= i < |s| :: s[i] != 0
  }

  /** `strcmp`: walk both strings while their bytes agree and are not the
      terminator; answer the difference of the first pair that differs,
      or 0 when both end together. Only the sign is promised by C; the
      difference is what common implementations return. An embedded NUL
      ends the string, as it does in C. */
  function Strcmp(a: seq<Byte>, b: seq<Byte>): (r: int)
    ensures Head(a) < Head(b) ==> r < 0
    ensures Head(a) > Head(b) ==> r > 0
    ensures Head(a) == 0 && Head(b) == 0 ==> r == 0
    decreases |a|
  {
    var ca := Head(a);
    var cb := Head(b);
    if ca != cb then ca - cb
    else if ca == 0 then 0
    else Strcmp(a[1..], b[1..])
  }

  /** `compName` (main.c:155-157). */
  function CompName(a: Record, b: Record): (r: int)
    ensures a.name == b.name ==> r == 0
  {
    StrcmpSelf(a.name);
    Strcmp(a.name, b.name)
  }

  /** A string compares equal to itself. */
  lemma {:induction false} StrcmpSelf(a: seq<Byte>)
    ensures Strcmp(a, a) == 0
    decreases |a|
  {
    if Head(a) != 0 {
      StrcmpSelf(a[1..]);
    }
  }

  /** Swapping the arguments of `strcmp` negates its answer. */
  lemma {:induction false} StrcmpAntisymmetric(a: seq<Byte>, b: seq<Byte>)
    ensures Strcmp(a, b) == -Strcmp(b, a)
    decreases |a|
  {
    if Head(a) == Head(b) && Head(a) != 0 {
      StrcmpAntisymmetric(a[1..], b[1..]);
    }
  }

  /** "Not after" under `strcmp` is transitive. */
  lemma {:induction false} StrcmpTransitive(a: seq<Byte>, b: seq<Byte>, c: seq<Byte>)
    requires Strcmp(a, b) <= 0 && Strcmp(b, c) <= 0
    ensures Strcmp(a, c) <= 0
    decreases |a|
  {
    if Head(a) == Head(b) && Head(b) == Head(c) && Head(a) != 0 {
      StrcmpTransitive(a[1..], b[1..], c[1..]);
    }
  }

  /** Byte-wise lexicographic order as an independent definition: `a`
      comes strictly before `b` when they agree on a common prefix of
      length `k` after which `a` ends while `b` goes on, or the next byte
      of `a` is smaller. */
  ghost predicate LexLess(a: seq<Byte>, b: seq<Byte>) {
    exists k | 0 <= k <= |a| && k <= |b| ::
      && a[..k] == b[..k]
      && ((k == |a| && k < |b|) || (k < |a| && k < |b| && a[k] < b[k]))
  }

  /** On NUL-free names, `strcmp` answers 0 exactly on equal names. */
  lemma {:induction false} StrcmpZeroIffEqual(a: seq<Byte>, b: seq<Byte>)
    requires NoNul(a) && NoNul(b)
    ensures Strcmp(a, b) == 0 <==> a == b
    decreases |a|
  {
    if a == b {
      StrcmpSelf(a);
    } else if Head(a) == Head(b) && Head(a) != 0 {
      assert a == [a[0]] + a[1..] && b == [b[0]] + b[1..];
      StrcmpZeroIffEqual(a[1..], b[1..]);
    }
  }

  /** On NUL-free names, `strcmp` is negative exactly when the first name
      comes lexicographically before the second. */
  lemma {:induction false} StrcmpNegativeIffLexLess(a: seq<Byte>, b: seq<Byte>)
    requires NoNul(a) && NoNul(b)
    ensures Strcmp(a, b) < 0 <==> LexLess(a, b)
    decreases |a|
  {
    if Head(a) != Head(b) {
      if |a| == 0 {
        assert a[..0] == b[..0];
        if Head(a) < Head(b) {
          assert LexLess(a, b);
        }
      } else if |b| == 0 {
        assert !LexLess(a, b);
      } else {
        assert a[..0] == b[..0];
        if a[0] < b[0] {
          assert LexLess(a, b);
        } else {
          LexLessNotAtFirst(a, b);
        }
      }
    } else if Head(a) == 0 {
      assert |a| == 0 && |b| == 0;
      assert !LexLess(a, b);
    } else {
      StrcmpNegativeIffLexLess(a[1..], b[1..]);
      LexLessOfTails(a, b);
    }
  }

  /** When the first bytes differ and `a`'s is larger, `a` is not before `b`. */
  lemma LexLessNotAtFirst(a: seq<Byte>, b: seq<Byte>)
    requires |a| > 0 && |b| > 0 && a[0] > b[0]
    ensures !LexLess(a, b)
  {
    if LexLess(a, b) {
      var k :| 0 <= k <= |a| && k <= |b| && a[..k] == b[..k]
        && ((k == |a| && k < |b|) || (k < |a| && k < |b| && a[k] < b[k]));
      assert false;
    }
  }

  /** Names that start with the same byte are ordered as their tails. */
  lemma LexLessOfTails(a: seq<Byte>, b: seq<Byte>)
    requires |a| > 0 && |b| > 0 && a[0] == b[0]
    ensures LexLess(a, b) <==> LexLess(a[1..], b[1..])
  {
    if LexLess(a, b) {
      var k :| 0 <= k <= |a| && k <= |b| && a[..k] == b[..k]
        && ((k == |a| && k < |b|) || (k < |a| && k < |b| && a[k] < b[k]));
      assert k > 0;
      assert a[1..][..k - 1] == a[..k][1..];
      assert b[1..][..k - 1] == b[..k][1..];
      assert a[1..][..k - 1] == b[1..][..k - 1];
    }
    if LexLess(a[1..], b[1..]) {
      var k :| 0 <= k <= |a[1..]| && k <= |b[1..]| && a[1..][..k] == b[1..][..k]
        && ((k == |a[1..]| && k < |b[1..]|) || (k < |a[1..]| && k < |b[1..]| && a[1..][k] < b[1..][k]));
      assert a[..k + 1] == [a[0]] + a[1..][..k];
      assert b[..k + 1] == [b[0]] + b[1..][..k];
      assert a[..k + 1] == b[..k + 1];
    }
  }

  /** `compGpa` is a total preorder; it answers 0 on equal keys and
      opposite signs on swapped arguments. */
  lemma CompGpaIsTotalPreorder()
    ensures TotalPreorder(CompGpa)
    ensures forall a, b :: CompGpa(a, b) == -CompGpa(b, a)
  {
  }

  /** `compCredit` is a total preorder; it answers 0 on equal keys and
      opposite signs on swapped arguments. */
  lemma CompCreditIsTotalPreorder()
    ensures TotalPreorder(CompCredit)
    ensures forall a, b :: CompCredit(a, b) == -CompCredit(b, a)
  {
  }

  /** `compName` is a total preorder (on every name, NUL or not); it
      answers exactly opposite values on swapped arguments. */
  lemma CompNameIsTotalPreorder()
    ensures TotalPreorder(CompName)
    ensures forall a, b :: CompName(a, b) == -CompName(b, a)
  {
    forall a, b
      ensures CompName(a, b) == -CompName(b, a)
    {
      StrcmpAntisymmetric(a.name, b.name);
    }
    forall a, b, c | CompName(a, b) <= 0 && CompName(b, c) <= 0
      ensures CompName(a, c) <= 0
    {
      StrcmpTransitive(a.name, b.name, c.name);
    }
  }

  /** On NUL-free names the sign of `compName` is byte-wise lexicographic
      order: negative before, zero on the same name, positive after. */
  lemma CompNameIsLexicographic(a: Record, b: Record)
    requires NoNul(a.name) && NoNul(b.name)
    ensures CompName(a, b) < 0 <==> LexLess(a.name, b.name)
    ensures CompName(a, b) == 0 <==> a.name == b.name
    ensures CompName(a, b) > 0 <==> LexLess(b.name, a.name)
  {
    StrcmpNegativeIffLexLess(a.name, b.name);
    StrcmpNegativeIffLexLess(b.name, a.name);
    StrcmpZeroIffEqual(a.name, b.name);
    StrcmpAntisymmetric(a.name, b.name);
  }
}
