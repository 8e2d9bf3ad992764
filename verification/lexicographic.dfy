/** `std::lexicographical_compare` over two ranges, with the element
    order `less` standing for the element type's `operator<`.
 */
module Lexicographic {

  /** Neither element is less than the other. */
  predicate Equivalent<T>(less: (T, T) -> bool, a: T, b: T) {
    !less(a, b) && !less(b, a)
  }

  /** The algorithm as the standard library describes it: walk both ranges
      together; the first position where one element is less than the
      other decides; if none does, the first range is less exactly when it
      ran out while the second did not.  Nothing is less than an empty
      range, and an empty range is less than every non-empty one. */
  function LexLess<T>(xs: seq<T>, ys: seq<T>, less: (T, T) -> bool): (r: bool)
    ensures r ==> |ys| > 0
    ensures |xs| == 0 ==> (r <==> |ys| > 0)
  {
    if |xs| == 0 || |ys| == 0 then |xs| == 0 && |ys| != 0
    else if less(xs[0], ys[0]) then true
    else if less(ys[0], xs[0]) then false
    else LexLess(xs[1..], ys[1..], less)
  }

  /** `xs` is lexicographically less than `ys` because of position `p`:
      everything before `p` is equivalent, and at `p` either `xs` has the
      smaller element or `xs` has ended while `ys` goes on. */
  ghost predicate LessAt<T>(xs: seq<T>, ys: seq<T>, less: (T, T) -> bool, p: nat) {
    && p <= |xs| && p <= |ys|
    && (forall n :: 0 <= n < p ==> Equivalent(less, xs[n], ys[n]))
    && ((p < |xs| && p < |ys| && less(xs[p], ys[p])) || (p == |xs| && p < |ys|))
  }

  /** The algorithm decides exactly the first-difference definition. */
  lemma {:induction false} LexLessIff<T>(xs: seq<T>, ys: seq<T>, less: (T, T) -> bool)
    ensures LexLess(xs, ys, less) <==> exists p: nat :: LessAt(xs, ys, less, p)
  {
    if |xs| == 0 || |ys| == 0 {
      if LexLess(xs, ys, less) {
        assert LessAt(xs, ys, less, 0);
      }
    } else if less(xs[0], ys[0]) {
      assert LessAt(xs, ys, less, 0);
    } else if less(ys[0], xs[0]) {
      forall p | LessAt(xs, ys, less, p)
        ensures false
      {
        if p > 0 {
          assert false;
        }
      }
    } else {
      LexLessIff(xs[1..], ys[1..], less);
      if LexLess(xs, ys, less) {
        var p: nat :| LessAt(xs[1..], ys[1..], less, p);
        assert LessAt(xs, ys, less, p + 1);
      }
      if p: nat :| LessAt(xs, ys, less, p) {
        assert p > 0;
        assert LessAt(xs[1..], ys[1..], less, p - 1);
      }
    }
  }

  /** No element is less than itself. */
  ghost predicate IrreflexiveOrder<T(!new)>(less: (T, T) -> bool) {
    forall a :: !less(a, a)
  }

  /** Being less than is passed along a chain of two. */
  ghost predicate TransitiveOrder<T(!new)>(less: (T, T) -> bool) {
    forall a, b, c :: less(a, b) && less(b, c) ==> less(a, c)
  }

  /** Any two distinct elements are ordered one way or the other. */
  ghost predicate ConnectedOrder<T(!new)>(less: (T, T) -> bool) {
    forall a, b :: a != b ==> less(a, b) || less(b, a)
  }

  /** A strict total order: the element types whose comparison makes
      exactly one of `<`, `==`, `>` hold. */
  ghost predicate StrictTotalOrder<T(!new)>(less: (T, T) -> bool) {
    IrreflexiveOrder(less) && TransitiveOrder(less) && ConnectedOrder(less)
  }

  /** Under an irreflexive element order no range is less than itself. */
  lemma {:induction false} LexLessIrreflexive<T(!new)>(xs: seq<T>, less: (T, T) -> bool)
    requires IrreflexiveOrder(less)
    ensures !LexLess(xs, xs, less)
  {
    if |xs| > 0 {
      assert !less(xs[0], xs[0]);
      LexLessIrreflexive(xs[1..], less);
    }
  }

  /** Under a strict total order exactly one of `xs < ys`, `xs == ys`,
      `ys < xs` holds.  It is stated for every element order, because the
      comparison operators are defined for every one and promise this
      only for strict total ones. */
  lemma {:induction false} LexTrichotomy<T(!new)>(xs: seq<T>, ys: seq<T>, less: (T, T) -> bool)
    ensures StrictTotalOrder(less) ==> LexLess(xs, ys, less) || xs == ys || LexLess(ys, xs, less)
    ensures StrictTotalOrder(less) ==> !(LexLess(xs, ys, less) && xs == ys)
    ensures StrictTotalOrder(less) ==> !(LexLess(ys, xs, less) && xs == ys)
    ensures StrictTotalOrder(less) ==> !(LexLess(xs, ys, less) && LexLess(ys, xs, less))
  {
    if !StrictTotalOrder(less) {
    } else if xs == ys {
      LexLessIrreflexive(xs, less);
    } else if |xs| > 0 && |ys| > 0 {
      if xs[0] == ys[0] {
        LexTrichotomy(xs[1..], ys[1..], less);
        assert xs == [xs[0]] + xs[1..];
        assert ys == [ys[0]] + ys[1..];
      } else {
        assert less(xs[0], ys[0]) || less(ys[0], xs[0]);
        assert !(less(xs[0], ys[0]) && less(ys[0], xs[0]));
      }
    }
  }

  /** Under a strict total order the lexicographic order is transitive. */
  lemma {:induction false} LexTransitive<T(!new)>(xs: seq<T>, ys: seq<T>, zs: seq<T>, less: (T, T) -> bool)
    requires StrictTotalOrder(less)
    requires LexLess(xs, ys, less) && LexLess(ys, zs, less)
    ensures LexLess(xs, zs, less)
  {
    if |xs| > 0 && |zs| > 0 {
      assert |ys| > 0;
      if !less(xs[0], ys[0]) && !less(ys[0], zs[0]) {
        LexTransitive(xs[1..], ys[1..], zs[1..], less);
      }
    }
  }
}
