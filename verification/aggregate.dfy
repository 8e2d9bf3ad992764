/** The built-in array as nested sequences, and aggregate initialisation
    from fully braced initialisers such as
    `array_3d<int, 2, 2, 2> a = {{{{1, 2}, {3, 4}}, {{5, 6}, {7, 8}}}};`.
    The nested view and the flat storage determine each other.
 */
module Aggregate {
  import opened Extents
  import opened Ranges
  import opened Array3D

  /** `D1` planes of `D2` rows of `D3` elements. */
  predicate Shaped<T>(n: seq<seq<seq<T>>>, e: Extents) {
    && |n| == e.d1
    && (forall i :: 0 <= i < |n| ==> |n[i]| == e.d2)
    && (forall i, j :: 0 <= i < |n| && 0 <= j < |n[i]| ==> |n[i][j]| == e.d3)
  }

  /** The container read as `elems[i][j][k]` for every triple. */
  function ToNested<T>(a: Array3<T>): (n: seq<seq<seq<T>>>)
    requires a.Valid()
    ensures Shaped(n, a.dims)
    ensures forall i: nat, j: nat, k: nat :: a.dims.InBounds(i, j, k) ==>
              n[i][j][k] == Get(a, i, j, k)
  {
    seq(a.dims.d1, (i: int) requires 0 <= i < a.dims.d1 =>
      seq(a.dims.d2, (j: int) requires 0 <= j < a.dims.d2 => Row(a, i, j)))
  }

  /** The whole initialiser laid out plane after plane, each plane row
      after row: `D1*D2*D3` elements with `n[i][j][k]` at the row-major
      offset of `(i, j, k)`. */
  function Flatten<T>(n: seq<seq<seq<T>>>, e: Extents): (r: seq<T>)
    requires e.Valid() && Shaped(n, e)
    ensures |r| == e.Size()
    ensures forall i: nat, j: nat, k: nat :: e.InBounds(i, j, k) ==> r[e.Offset(i, j, k)] == n[i][j][k]
  {
    var planes := seq(|n|, (i: int) requires 0 <= i < |n| => Concat(n[i]));
    assert Uniform(planes, e.PlaneSize()) by {
      forall q | 0 <= q < |planes|
        ensures |planes[q]| == e.PlaneSize()
      {
        ConcatLength(n[q], e.d3);
      }
    }
    ConcatLength(planes, e.PlaneSize());
    assert forall i: nat, j: nat, k: nat :: e.InBounds(i, j, k) ==>
             Concat(planes)[e.Offset(i, j, k)] == n[i][j][k] by {
      forall i: nat, j: nat, k: nat | e.InBounds(i, j, k)
        ensures Concat(planes)[e.Offset(i, j, k)] == n[i][j][k]
      {
        ConcatIndex(n[i], e.d3, j, k);
        ConcatIndex(planes, e.PlaneSize(), i, j * e.d3 + k);
      }
    }
    Concat(planes)
  }

  /** Aggregate initialisation from a fully braced initialiser: the
      container holds `n[i][j][k]` at every `(i, j, k)`. */
  function FromNested<T>(n: seq<seq<seq<T>>>, e: Extents): (a: Array3<T>)
    requires e.Valid() && Shaped(n, e)
    ensures a.Valid() && a.dims == e
    ensures forall i: nat, j: nat, k: nat :: e.InBounds(i, j, k) ==> Get(a, i, j, k) == n[i][j][k]
  {
    Array3(e, Flatten(n, e))
  }

  /** Reading a container as an initialiser and initialising from it gives
      the same container back. */
  lemma {:induction false} FromToNested<T>(a: Array3<T>)
    requires a.Valid()
    ensures FromNested(ToNested(a), a.dims) == a
  {
    ExtensionalEquality(FromNested(ToNested(a), a.dims), a);
  }

  /** Initialising from a shaped initialiser and reading it back gives the
      initialiser. */
  lemma {:induction false} ToFromNested<T>(n: seq<seq<seq<T>>>, e: Extents)
    requires e.Valid() && Shaped(n, e)
    ensures ToNested(FromNested(n, e)) == n
  {
    var m := ToNested(FromNested(n, e));
    assert |m| == |n|;
    forall i | 0 <= i < |n|
      ensures m[i] == n[i]
    {
      assert |m[i]| == |n[i]|;
      forall j | 0 <= j < |n[i]|
        ensures m[i][j] == n[i][j]
      {
        assert |m[i][j]| == |n[i][j]|;
        forall k | 0 <= k < |n[i][j]|
          ensures m[i][j][k] == n[i][j][k]
        {
          assert e.InBounds(i, j, k);
        }
      }
    }
  }
}
