/** `fsma::array_3d<T, D1, D2, D3>`: a fixed-size container whose storage
    is a built-in array `T elems[D1][D2][D3]`.

    The storage is the flat row-major sequence of its `D1*D2*D3` elements
    (the block `begin()` and `data()` point into).  Subscripting the
    built-in array, `elems[i][j][k]`, first selects the plane `elems[i]`,
    a contiguous block of `D2*D3` elements, then the row `elems[i][j]` of
    `D3` elements inside it, then one element of that row.
 */
module Array3D {
  import opened Extents
  import opened Ranges

  /** The text `at` throws with. */
  const OutOfRangeMessage: string := "array_3d: index out of range"

  /** The one reported failure: `std::out_of_range` from `at`. */
  datatype Error = OutOfRange(what: string)

  /** The value `at` returns, or the exception it throws. */
  datatype Result<+R> = Ok(value: R) | Err(error: Error)

  /** Whether a write through `at` happened or was refused. */
  datatype Outcome = Pass | Fail(error: Error)

  datatype Array3<T> = Array3(dims: Extents, elems: seq<T>) {
    /** Every extent is at least 1 and the storage holds exactly
        `D1*D2*D3` elements. */
    predicate Valid() {
      dims.Valid() && |elems| == dims.Size()
    }
  }

  /** Two containers of the same instantiation `array_3d<_, D1, D2, D3>`. */
  predicate SameShape<T, U>(a: Array3<T>, b: Array3<U>) {
    a.Valid() && b.Valid() && a.dims == b.dims
  }

  // ---------------------------------------------------------------------
  // Capacity

  /** `size_1d()`: the first extent `D1`, the number of first indices
      `at` accepts. */
  function Size1D<T>(a: Array3<T>): (r: nat)
    requires a.Valid()
    ensures r >= 1
    ensures forall i: nat :: i < r <==> At(a, i, 0, 0).Ok?
  {
    a.dims.d1
  }

  /** `size_2d()`: the second extent `D2`, the number of second indices
      `at` accepts. */
  function Size2D<T>(a: Array3<T>): (r: nat)
    requires a.Valid()
    ensures r >= 1
    ensures forall i: nat :: i < r <==> At(a, 0, i, 0).Ok?
  {
    a.dims.d2
  }

  /** `size_3d()`: the third extent `D3`, the number of third indices
      `at` accepts. */
  function Size3D<T>(a: Array3<T>): (r: nat)
    requires a.Valid()
    ensures r >= 1
    ensures forall i: nat :: i < r <==> At(a, 0, 0, i).Ok?
  {
    a.dims.d3
  }

  /** `size()`: `D1*D2*D3`, which is the length of the storage. */
  function Size<T>(a: Array3<T>): (r: nat)
    requires a.Valid()
    ensures r == |a.elems|
    ensures r >= 1
    ensures r == Size1D(a) * Size2D(a) * Size3D(a)
  {
    assert a.dims.d1 * (a.dims.d2 * a.dims.d3) == a.dims.d1 * a.dims.d2 * a.dims.d3;
    MulMonotone(1, a.dims.d2, a.dims.d3);
    MulMonotone(1, a.dims.d1, a.dims.PlaneSize());
    a.dims.d1 * a.dims.d2 * a.dims.d3
  }

  /** `max_size()`: the container never grows, so it is `size()`. */
  function MaxSize<T>(a: Array3<T>): (r: nat)
    requires a.Valid()
    ensures r == Size(a)
  {
    a.dims.d1 * a.dims.d2 * a.dims.d3
  }

  /** `empty()`: always false, without looking at the contents. */
  function Empty<T>(a: Array3<T>): (r: bool)
    requires a.Valid()
    ensures r <==> |a.elems| == 0
    ensures !r
  {
    MulMonotone(1, a.dims.d2, a.dims.d3);
    MulMonotone(1, a.dims.d1, a.dims.PlaneSize());
    false
  }

  // ---------------------------------------------------------------------
  // The built-in array's nested view

  /** The plane `elems[i]`: `D2*D3` contiguous elements. */
  function Plane<T>(a: Array3<T>, i: nat): (r: seq<T>)
    requires a.Valid() && i < a.dims.d1
    ensures |r| == a.dims.PlaneSize()
  {
    MulMonotone(i + 1, a.dims.d1, a.dims.PlaneSize());
    a.elems[i * a.dims.PlaneSize() .. (i + 1) * a.dims.PlaneSize()]
  }

  /** The row `elems[i][j]`: `D3` contiguous elements of plane `i`. */
  function Row<T>(a: Array3<T>, i: nat, j: nat): (r: seq<T>)
    requires a.Valid() && i < a.dims.d1 && j < a.dims.d2
    ensures |r| == a.dims.d3
  {
    MulMonotone(j + 1, a.dims.d2, a.dims.d3);
    Plane(a, i)[j * a.dims.d3 .. (j + 1) * a.dims.d3]
  }

  // ---------------------------------------------------------------------
  // Element access

  /** `operator()(i, j, k)`, the unchecked access `elems[i][j][k]`.  The
      source does not check the indices (out of range is undefined
      behaviour), so the model demands them.  The element reached is the
      one at row-major offset `i*D2*D3 + j*D3 + k` of the storage. */
  function Get<T>(a: Array3<T>, i: nat, j: nat, k: nat): (r: T)
    requires a.Valid() && a.dims.InBounds(i, j, k)
    ensures a.dims.Offset(i, j, k) < |a.elems|
    ensures r == a.elems[a.dims.Offset(i, j, k)]
  {
    OffsetBelowSize(a.dims, i, j, k);
    Row(a, i, j)[k]
  }

  /** `at(i, j, k)`: the bounds-checked access.  It throws `out_of_range`
      exactly when some index reaches its extent, and otherwise reaches the
      same element as `operator()`. */
  function At<T>(a: Array3<T>, i: nat, j: nat, k: nat): (r: Result<T>)
    requires a.Valid()
    ensures r.Err? <==> !a.dims.InBounds(i, j, k)
    ensures r.Err? ==> r.error == OutOfRange(OutOfRangeMessage)
    ensures r.Ok? ==> r.value == Get(a, i, j, k)
    ensures r.Ok? ==> r.value == a.elems[a.dims.Offset(i, j, k)]
  {
    if a.dims.d1 <= i || a.dims.d2 <= j || a.dims.d3 <= k then
      Err(OutOfRange(OutOfRangeMessage))
    else
      Ok(Get(a, i, j, k))
  }

  /** Assignment through the reference `operator()(i, j, k)` returns:
      the one element at `(i, j, k)` becomes `v`, every other is kept. */
  function Update<T>(a: Array3<T>, i: nat, j: nat, k: nat, v: T): (r: Array3<T>)
    requires a.Valid() && a.dims.InBounds(i, j, k)
    ensures r.Valid() && r.dims == a.dims
    ensures Get(r, i, j, k) == v
    ensures forall i': nat, j': nat, k': nat ::
              a.dims.InBounds(i', j', k') && (i', j', k') != (i, j, k) ==>
                Get(r, i', j', k') == Get(a, i', j', k')
  {
    OffsetBelowSize(a.dims, i, j, k);
    OffsetInjective(a.dims, i, j, k);
    Array3(a.dims, a.elems[a.dims.Offset(i, j, k) := v])
  }

  /** Assignment through the reference `at(i, j, k)` returns.  When the
      indices are out of range `at` throws before touching any element, so
      the container is left as it was. */
  function AtAssign<T>(a: Array3<T>, i: nat, j: nat, k: nat, v: T): (r: (Array3<T>, Outcome))
    requires a.Valid()
    ensures r.0.Valid() && r.0.dims == a.dims
    ensures r.1.Fail? <==> !a.dims.InBounds(i, j, k)
    ensures r.1.Fail? ==> r.0 == a && r.1.error == OutOfRange(OutOfRangeMessage)
    ensures r.1.Pass? ==> r.0 == Update(a, i, j, k, v)
  {
    match At(a, i, j, k)
    case Err(e) => (a, Fail(e))
    case Ok(_) => (Update(a, i, j, k, v), Pass)
  }

  /** `front()`: element `(0, 0, 0)`, the first of the storage. */
  function Front<T>(a: Array3<T>): (r: T)
    requires a.Valid()
    ensures r == a.elems[0]
  {
    Get(a, 0, 0, 0)
  }

  /** `back()`: element `(D1-1, D2-1, D3-1)`, the last of the storage. */
  function Back<T>(a: Array3<T>): (r: T)
    requires a.Valid()
    ensures |a.elems| >= 1
    ensures r == a.elems[|a.elems| - 1]
  {
    LastOffset(a.dims);
    Get(a, a.dims.d1 - 1, a.dims.d2 - 1, a.dims.d3 - 1)
  }

  // ---------------------------------------------------------------------
  // Iteration

  /** Every storage position `n` holds the element at `Coords(n)`. */
  lemma StorageOrder<T>(a: Array3<T>)
    requires a.Valid()
    ensures forall n: nat :: n < |a.elems| ==>
              var c := a.dims.Coords(n);
              a.dims.InBounds(c.0, c.1, c.2) && a.elems[n] == Get(a, c.0, c.1, c.2)
  {
  }

  /** Two containers of one shape that agree at every triple are equal. */
  lemma {:induction false} ExtensionalEquality<T>(a: Array3<T>, b: Array3<T>)
    requires SameShape(a, b)
    requires forall i: nat, j: nat, k: nat :: a.dims.InBounds(i, j, k) ==> Get(a, i, j, k) == Get(b, i, j, k)
    ensures a == b
  {
    StorageOrder(a);
    StorageOrder(b);
    assert a.elems == b.elems;
  }

  /** The range `[begin(), end())`, which is also the block `data()`
      exposes: `size()` elements, visiting `(i, j, k)` at position
      `i*D2*D3 + j*D3 + k`, so that position `n` holds the element at
      `Coords(n)` (row-major order, the last index fastest). */
  function Elements<T>(a: Array3<T>): (r: seq<T>)
    requires a.Valid()
    ensures |r| == Size(a)
    ensures forall i: nat, j: nat, k: nat :: a.dims.InBounds(i, j, k) ==>
              a.dims.Offset(i, j, k) < |r| && r[a.dims.Offset(i, j, k)] == Get(a, i, j, k)
    ensures forall n: nat :: n < |r| ==>
              var c := a.dims.Coords(n);
              a.dims.InBounds(c.0, c.1, c.2) && r[n] == Get(a, c.0, c.1, c.2)
  {
    StorageOrder(a);
    IndexMap(a);
    a.elems
  }

  /** Every in-bounds triple names the storage position at its offset. */
  lemma IndexMap<T>(a: Array3<T>)
    requires a.Valid()
    ensures forall i: nat, j: nat, k: nat :: a.dims.InBounds(i, j, k) ==>
              a.dims.Offset(i, j, k) < |a.elems| && a.elems[a.dims.Offset(i, j, k)] == Get(a, i, j, k)
  {
    forall i: nat, j: nat, k: nat | a.dims.InBounds(i, j, k)
      ensures a.dims.Offset(i, j, k) < |a.elems| && a.elems[a.dims.Offset(i, j, k)] == Get(a, i, j, k)
    {
      OffsetBelowSize(a.dims, i, j, k);
    }
  }

  /** The range `[rbegin(), rend())`: the same elements back to front, so
      it starts at `back()` and ends at `front()`. */
  function ReverseElements<T>(a: Array3<T>): (r: seq<T>)
    requires a.Valid()
    ensures |r| == Size(a)
    ensures forall n :: 0 <= n < |r| ==> r[n] == Elements(a)[|r| - 1 - n]
    ensures r[0] == Back(a) && r[|r| - 1] == Front(a)
  {
    Reverse(Elements(a))
  }

  /** Reverse iteration of the reverse view gives forward iteration back. */
  lemma ReverseOfReverse<T>(a: Array3<T>)
    requires a.Valid()
    ensures Reverse(ReverseElements(a)) == Elements(a)
  {
    ReverseReverse(Elements(a));
  }

  // ---------------------------------------------------------------------
  // Whole-container mutators

  /** `fill(value)`: `std::fill_n` over all `size()` elements, so every
      element becomes `value` and the extents stay. */
  function Fill<T>(a: Array3<T>, value: T): (r: Array3<T>)
    requires a.Valid()
    ensures r.Valid() && r.dims == a.dims
    ensures forall n :: 0 <= n < |r.elems| ==> r.elems[n] == value
    ensures forall i: nat, j: nat, k: nat :: a.dims.InBounds(i, j, k) ==> Get(r, i, j, k) == value
  {
    Array3(a.dims, FillN(a.elems, Size(a), value))
  }

  /** `assign(value)`: a synonym that forwards to `fill`. */
  function Assign<T>(a: Array3<T>, value: T): (r: Array3<T>)
    requires a.Valid()
    ensures r == Fill(a, value)
    ensures forall i: nat, j: nat, k: nat :: a.dims.InBounds(i, j, k) ==> Get(r, i, j, k) == value
  {
    Fill(a, value)
  }

  /** The old contents do not matter to `fill`, and filling again with the
      same value changes nothing. */
  lemma FillOverwritesAll<T>(a: Array3<T>, b: Array3<T>, value: T)
    requires SameShape(a, b)
    ensures Fill(a, value) == Fill(b, value)
    ensures Fill(Fill(a, value), value) == Fill(a, value)
  {
    assert Fill(a, value).elems == Fill(b, value).elems;
    assert Fill(Fill(a, value), value).elems == Fill(a, value).elems;
  }

  /** `a.swap(b)`: `std::swap_ranges` over all elements.  The result is
      the pair (new `a`, new `b`): each holds the other's old elements,
      and both keep their extents. */
  function Swap<T>(a: Array3<T>, b: Array3<T>): (r: (Array3<T>, Array3<T>))
    requires SameShape(a, b)
    ensures SameShape(r.0, r.1) && r.0.dims == a.dims
    ensures forall n :: 0 <= n < |a.elems| ==> r.0.elems[n] == b.elems[n] && r.1.elems[n] == a.elems[n]
    ensures r.0 == b && r.1 == a
  {
    var s := SwapRanges(a.elems, b.elems);
    assert s.0 == b.elems && s.1 == a.elems;
    (Array3(a.dims, s.0), Array3(b.dims, s.1))
  }

  /** Swapping twice restores both containers. */
  lemma SwapTwice<T>(a: Array3<T>, b: Array3<T>)
    requires SameShape(a, b)
    ensures Swap(Swap(a, b).0, Swap(a, b).1) == (a, b)
  {
  }

  /** `operator=(const array_3d<T2, D1, D2, D3>&)`: `std::copy` of the
      source range into this container, each element passing through the
      conversion `conv` from `T2` to `T`. */
  function ConvertAssign<T, S>(target: Array3<T>, rhs: Array3<S>, conv: S -> T): (r: Array3<T>)
    requires SameShape(target, rhs)
    ensures r.Valid() && r.dims == target.dims
    ensures forall n :: 0 <= n < |r.elems| ==> r.elems[n] == conv(rhs.elems[n])
    ensures forall i: nat, j: nat, k: nat :: target.dims.InBounds(i, j, k) ==>
              Get(r, i, j, k) == conv(Get(rhs, i, j, k))
  {
    Array3(target.dims, CopyConvert(rhs.elems, target.elems, conv))
  }

  /** Every element of the target is overwritten, so its old contents do
      not matter; with the identity conversion the assignment is a copy. */
  lemma ConvertAssignOverwrites<T, S>(t1: Array3<T>, t2: Array3<T>, rhs: Array3<S>, conv: S -> T)
    requires SameShape(t1, rhs) && SameShape(t2, rhs)
    ensures ConvertAssign(t1, rhs, conv) == ConvertAssign(t2, rhs, conv)
  {
    assert ConvertAssign(t1, rhs, conv).elems == ConvertAssign(t2, rhs, conv).elems;
  }

  lemma ConvertIdentityCopies<T>(target: Array3<T>, rhs: Array3<T>)
    requires SameShape(target, rhs)
    ensures ConvertAssign(target, rhs, x => x) == rhs
  {
    assert ConvertAssign(target, rhs, x => x).elems == rhs.elems;
  }
}
