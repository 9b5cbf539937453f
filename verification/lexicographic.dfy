/** The lexicographic order of `std::lexicographical_compare`, which `operator<`
    of `std::string`, `std::vector` and `std::map` all use. */
module Lexicographic {
  import opened BoundedInts

  /** A strict order in which any two distinct elements are comparable. */
  ghost predicate StrictTotalOrder<T(!new)>(less: (T, T) -> bool) {
    && (forall x :: !less(x, x))
    && (forall x, y, z :: less(x, y) && less(y, z) ==> less(x, z))
    && (forall x, y :: less(x, y) || x == y || less(y, x))
  }

  /** The first position at which neither element is smaller than the other
      decides; when one sequence runs out first, the shorter one is smaller. */
  predicate LexLess<T>(a: seq<T>, b: seq<T>, less: (T, T) -> bool) {
    if |b| == 0 then false
    else if |a| == 0 then true
    else if less(a[0], b[0]) then true
    else if less(b[0], a[0]) then false
    else LexLess(a[1..], b[1..], less)
  }

  lemma {:induction false} LexIrreflexive<T(!new)>(a: seq<T>, less: (T, T) -> bool)
    requires StrictTotalOrder(less)
    ensures !LexLess(a, a, less)
  {
    if |a| > 0 {
      LexIrreflexive(a[1..], less);
    }
  }

  lemma {:induction false} LexTransitive<T(!new)>(a: seq<T>, b: seq<T>, c: seq<T>, less: (T, T) -> bool)
    requires StrictTotalOrder(less)
    requires LexLess(a, b, less) && LexLess(b, c, less)
    ensures LexLess(a, c, less)
  {
    if |a| > 0 && !less(a[0], b[0]) && !less(b[0], c[0]) {
      assert a[0] == b[0] && b[0] == c[0];
      LexTransitive(a[1..], b[1..], c[1..], less);
    }
  }

  lemma {:induction false} LexTotal<T(!new)>(a: seq<T>, b: seq<T>, less: (T, T) -> bool)
    requires StrictTotalOrder(less)
    ensures LexLess(a, b, less) || a == b || LexLess(b, a, less)
  {
    if |a| > 0 && |b| > 0 && !less(a[0], b[0]) && !less(b[0], a[0]) {
      LexTotal(a[1..], b[1..], less);
      if a[1..] == b[1..] {
        assert a == [a[0]] + a[1..] && b == [b[0]] + b[1..];
      }
    }
  }

  /** `LexLess` with a strict total order on elements is itself one. */
  lemma LexIsStrictTotalOrder<T(!new)>(less: (T, T) -> bool)
    requires StrictTotalOrder(less)
    ensures StrictTotalOrder((a: seq<T>, b: seq<T>) => LexLess(a, b, less))
  {
    forall a: seq<T> {
      LexIrreflexive(a, less);
    }
    forall a: seq<T>, b: seq<T>, c: seq<T> | LexLess(a, b, less) && LexLess(b, c, less) {
      LexTransitive(a, b, c, less);
    }
    forall a: seq<T>, b: seq<T> {
      LexTotal(a, b, less);
    }
  }

  function CharLess(x: char, y: char): bool { x < y }

  function ByteLess(x: uint8, y: uint8): bool { x < y }

  /** `operator<` of `std::string`: character codes compared lexicographically. */
  predicate StringLess(a: string, b: string) {
    LexLess(a, b, CharLess)
  }

  lemma StringLessIsStrictTotalOrder()
    ensures forall a :: !StringLess(a, a)
    ensures forall a, b, c :: StringLess(a, b) && StringLess(b, c) ==> StringLess(a, c)
    ensures forall a, b :: StringLess(a, b) || a == b || StringLess(b, a)
  {
    forall a: string {
      LexIrreflexive(a, CharLess);
    }
    forall a: string, b: string, c: string | StringLess(a, b) && StringLess(b, c) {
      LexTransitive(a, b, c, CharLess);
    }
    forall a: string, b: string {
      LexTotal(a, b, CharLess);
    }
  }
}
