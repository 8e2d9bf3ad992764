/** The free comparison operators of `array_3d`.  They are defined only
    between two containers of the same instantiation, hence `SameShape`.
    Element equality is `==`; the element type's `operator<` is `less`.
 */
module Comparisons {
  import opened Extents
  import opened Ranges
  import opened Lexicographic
  import opened Array3D

  /** `x == y`: `std::equal` over the two storages.  It holds exactly when
      the containers agree at every flat position, which for one
      instantiation is equality of the containers and agreement at every
      in-bounds triple. */
  function Equal<T(==)>(x: Array3<T>, y: Array3<T>): (r: bool)
    requires SameShape(x, y)
    ensures r <==> forall n :: 0 <= n < |x.elems| ==> x.elems[n] == y.elems[n]
    ensures r <==> x == y
    ensures r <==> forall i: nat, j: nat, k: nat :: x.dims.InBounds(i, j, k) ==> Get(x, i, j, k) == Get(y, i, j, k)
  {
    StorageOrder(x);
    StorageOrder(y);
    RangeEqual(Elements(x), Elements(y))
  }

  /** `x != y`: the negation of `==`. */
  function NotEqual<T(==)>(x: Array3<T>, y: Array3<T>): (r: bool)
    requires SameShape(x, y)
    ensures r <==> x != y
  {
    !Equal(x, y)
  }

  /** `x < y`: `std::lexicographical_compare` of the two storages, which
      holds exactly when some position decides it (`LessAt`). */
  function Less<T>(x: Array3<T>, y: Array3<T>, less: (T, T) -> bool): (r: bool)
    requires SameShape(x, y)
    ensures r <==> exists p: nat :: LessAt(x.elems, y.elems, less, p)
  {
    LexLessIff(x.elems, y.elems, less);
    LexLess(Elements(x), Elements(y), less)
  }

  /** `x > y`, defined as `y < x`: for a strict total element order, `x`
      is greater exactly when it is neither less than nor equal to `y`. */
  function Greater<T(!new)>(x: Array3<T>, y: Array3<T>, less: (T, T) -> bool): (r: bool)
    requires SameShape(x, y)
    ensures StrictTotalOrder(less) ==> (r <==> !Less(x, y, less) && x != y)
  {
    LexTrichotomy(x.elems, y.elems, less);
    Less(y, x, less)
  }

  /** `x <= y`, defined as `!(y < x)`: for a strict total element order,
      `x < y` or `x == y`. */
  function LessEq<T(!new)>(x: Array3<T>, y: Array3<T>, less: (T, T) -> bool): (r: bool)
    requires SameShape(x, y)
    ensures StrictTotalOrder(less) ==> (r <==> Less(x, y, less) || x == y)
  {
    LexTrichotomy(x.elems, y.elems, less);
    !Less(y, x, less)
  }

  /** `x >= y`, defined as `!(x < y)`: for a strict total element order,
      `x > y` or `x == y`. */
  function GreaterEq<T(!new)>(x: Array3<T>, y: Array3<T>, less: (T, T) -> bool): (r: bool)
    requires SameShape(x, y)
    ensures StrictTotalOrder(less) ==> (r <==> Greater(x, y, less) || x == y)
  {
    LexTrichotomy(x.elems, y.elems, less);
    !Less(x, y, less)
  }

  /** With an irreflexive element order no container is less than itself. */
  lemma LessIrreflexive<T(!new)>(x: Array3<T>, less: (T, T) -> bool)
    requires x.Valid() && IrreflexiveOrder(less)
    ensures !Less(x, x, less)
  {
    LexLessIrreflexive(x.elems, less);
  }

  /** For a strict total element order exactly one of `x < y`, `x == y`,
      `x > y` holds. */
  lemma Trichotomy<T(!new)>(x: Array3<T>, y: Array3<T>, less: (T, T) -> bool)
    requires SameShape(x, y) && StrictTotalOrder(less)
    ensures Less(x, y, less) || Equal(x, y) || Greater(x, y, less)
    ensures !(Less(x, y, less) && Equal(x, y))
    ensures !(Greater(x, y, less) && Equal(x, y))
    ensures !(Less(x, y, less) && Greater(x, y, less))
  {
    LexTrichotomy(x.elems, y.elems, less);
  }

  /** For a strict total element order `<` on containers is transitive. */
  lemma LessTransitive<T(!new)>(x: Array3<T>, y: Array3<T>, z: Array3<T>, less: (T, T) -> bool)
    requires SameShape(x, y) && SameShape(y, z) && StrictTotalOrder(less)
    requires Less(x, y, less) && Less(y, z, less)
    ensures Less(x, z, less)
  {
    LexTransitive(x.elems, y.elems, z.elems, less);
  }
}
