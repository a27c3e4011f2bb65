/**
 * Python's ordering of strings and lists: compare element by element, the
 * first difference decides, and a proper prefix comes first. `heapq` orders
 * the uniform-cost queue's tuples this way, so ties in cost are broken by
 * the node's label and then by the path.
 */
module Ordering {

  /** `a < b` on two characters: by code point. */
  function CharLess(a: char, b: char): bool
  {
    a < b
  }

  /**
   * Python's `a < b` for two sequences whose elements are ordered by `less`;
   * a proper prefix comes first whatever `less` is.
   */
  function LexLess<T(==)>(a: seq<T>, b: seq<T>, less: (T, T) -> bool): (r: bool)
    ensures |a| < |b| && a == b[..|a|] ==> r
    ensures b == [] ==> !r
  {
    if a == [] then b != []
    else if b == [] then false
    else
      assert |a| < |b| && a == b[..|a|] ==> a[1..] == b[1..][..|a| - 1];
      less(a[0], b[0]) || (a[0] == b[0] && LexLess(a[1..], b[1..], less))
  }

  /** `less` is irreflexive, transitive and total on distinct elements. */
  ghost predicate StrictTotalOrder<T(!new)>(less: (T, T) -> bool)
  {
    && (forall a :: !less(a, a))
    && (forall a, b, c :: less(a, b) && less(b, c) ==> less(a, c))
    && (forall a, b :: a != b ==> less(a, b) || less(b, a))
  }

  lemma {:induction false} LexIrreflexive<T(!new)>(a: seq<T>, less: (T, T) -> bool)
    requires StrictTotalOrder(less)
    ensures !LexLess(a, a, less)
  {
    if a != [] {
      LexIrreflexive(a[1..], less);
    }
  }

  lemma {:induction false} LexTransitive<T(!new)>(a: seq<T>, b: seq<T>, c: seq<T>, less: (T, T) -> bool)
    requires StrictTotalOrder(less)
    requires LexLess(a, b, less) && LexLess(b, c, less)
    ensures LexLess(a, c, less)
  {
    if a != [] && b != [] && c != [] {
      if a[0] == b[0] && b[0] == c[0] {
        LexTransitive(a[1..], b[1..], c[1..], less);
      }
    }
  }

  lemma {:induction false} LexTotal<T(!new)>(a: seq<T>, b: seq<T>, less: (T, T) -> bool)
    requires StrictTotalOrder(less)
    requires a != b
    ensures LexLess(a, b, less) || LexLess(b, a, less)
  {
    if a != [] && b != [] && a[0] == b[0] {
      assert a == [a[0]] + a[1..] && b == [b[0]] + b[1..];
      LexTotal(a[1..], b[1..], less);
    }
  }

  /** Sequence comparison over a strict total order never holds both ways. */
  lemma LexAsymmetric<T(!new)>(a: seq<T>, b: seq<T>, less: (T, T) -> bool)
    requires StrictTotalOrder(less)
    ensures LexLess(a, b, less) ==> !LexLess(b, a, less) && a != b
  {
    LexIrreflexive(a, less);
    if LexLess(a, b, less) && LexLess(b, a, less) {
      LexTransitive(a, b, a, less);
    }
  }

  /** Python's `a < b` on two strings: never true both ways, so never of a string and itself. */
  function StrLess(a: string, b: string): (r: bool)
    ensures r ==> !LexLess(b, a, CharLess) && a != b
  {
    LexAsymmetric(a, b, CharLess);
    LexLess(a, b, CharLess)
  }

  /** String comparison is a strict total order. */
  lemma StrOrder()
    ensures StrictTotalOrder(StrLess)
  {
    forall a ensures !StrLess(a, a) {
      LexIrreflexive(a, CharLess);
    }
    forall a, b, c | StrLess(a, b) && StrLess(b, c) ensures StrLess(a, c) {
      LexTransitive(a, b, c, CharLess);
    }
    forall a, b | a != b ensures StrLess(a, b) || StrLess(b, a) {
      LexTotal(a, b, CharLess);
    }
  }

  /** Python's `a < b` on two lists of strings: never true both ways, so never of a list and itself. */
  function ListLess(a: seq<string>, b: seq<string>): (r: bool)
    ensures r ==> !LexLess(b, a, StrLess) && a != b
  {
    StrOrder();
    LexAsymmetric(a, b, StrLess);
    LexLess(a, b, StrLess)
  }

  /** Comparison of lists of strings is a strict total order. */
  lemma ListOrder()
    ensures StrictTotalOrder(ListLess)
  {
    StrOrder();
    forall a ensures !ListLess(a, a) {
      LexIrreflexive(a, StrLess);
    }
    forall a, b, c | ListLess(a, b) && ListLess(b, c) ensures ListLess(a, c) {
      LexTransitive(a, b, c, StrLess);
    }
    forall a, b | a != b ensures ListLess(a, b) || ListLess(b, a) {
      LexTotal(a, b, StrLess);
    }
  }
}
