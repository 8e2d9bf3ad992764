/** `fill` and `swap` as the loops `std::fill_n` and `std::swap_ranges`
    run over the storage block in place, shown equal to the functional
    definitions.
 */
module InPlace {
  import opened Ranges

  /** `std::fill_n(data(), size(), value)` over a storage block. */
  method FillInPlace<T>(block: array<T>, value: T)
    modifies block
    ensures block[..] == FillN(old(block[..]), block.Length, value)
  {
    var n := 0;
    while n < block.Length
      invariant 0 <= n <= block.Length
      invariant forall m :: 0 <= m < n ==> block[m] == value
    {
      block[n] := value;
      n := n + 1;
    }
  }

  /** `std::swap_ranges(begin(), end(), y.begin())` over two storage
      blocks of one size.  The standard leaves overlapping ranges
      undefined, so the blocks are distinct. */
  method SwapInPlace<T>(x: array<T>, y: array<T>)
    requires x != y && x.Length == y.Length
    modifies x, y
    ensures (x[..], y[..]) == SwapRanges(old(x[..]), old(y[..]))
  {
    var n := 0;
    while n < x.Length
      invariant 0 <= n <= x.Length
      invariant forall m :: 0 <= m < n ==> x[m] == old(y[m]) && y[m] == old(x[m])
      invariant forall m :: n <= m < x.Length ==> x[m] == old(x[m]) && y[m] == old(y[m])
    {
      x[n], y[n] := y[n], x[n];
      n := n + 1;
    }
    var s := SwapRanges(old(x[..]), old(y[..]));
    assert x[..] == s.0 && y[..] == s.1;
  }
}
