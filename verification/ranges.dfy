/** The standard sequence algorithms `array_3d` forwards to, stated over
    Dafny sequences.  A half-open iterator range `[first, last)` is the
    sequence of the elements it covers; a single output iterator `out` is
    the destination sequence, of which the algorithm touches a prefix.
 */
module Ranges {

  /** `std::fill_n(out, count, value)`: the first `count` positions become
      `value`, the rest keep their old contents. */
  function FillN<T>(s: seq<T>, count: nat, value: T): (r: seq<T>)
    requires count <= |s|
    ensures |r| == |s|
    ensures forall n :: 0 <= n < count ==> r[n] == value
    ensures forall n :: count <= n < |s| ==> r[n] == s[n]
    decreases count
  {
    if count == 0 then s
    else [value] + FillN(s[1..], count - 1, value)
  }

  /** `std::swap_ranges(first1, last1, first2)`: the `|xs|` elements of
      the first range and the first `|xs|` of the second trade places.
      The result is the pair (new first range, new second range). */
  function SwapRanges<T>(xs: seq<T>, ys: seq<T>): (r: (seq<T>, seq<T>))
    requires |xs| <= |ys|
    ensures |r.0| == |xs| && |r.1| == |ys|
    ensures forall n :: 0 <= n < |xs| ==> r.0[n] == ys[n] && r.1[n] == xs[n]
    ensures forall n :: |xs| <= n < |ys| ==> r.1[n] == ys[n]
  {
    if |xs| == 0 then (xs, ys)
    else
      var rest := SwapRanges(xs[1..], ys[1..]);
      ([ys[0]] + rest.0, [xs[0]] + rest.1)
  }

  /** `std::copy(first, last, out)` where the destination element type is
      reached from the source's by the conversion `conv`: the first `|src|`
      destination elements become the converted source elements. */
  function CopyConvert<S, T>(src: seq<S>, dst: seq<T>, conv: S -> T): (r: seq<T>)
    requires |src| <= |dst|
    ensures |r| == |dst|
    ensures forall n :: 0 <= n < |src| ==> r[n] == conv(src[n])
    ensures forall n :: |src| <= n < |dst| ==> r[n] == dst[n]
  {
    if |src| == 0 then dst
    else [conv(src[0])] + CopyConvert(src[1..], dst[1..], conv)
  }

  /** `std::equal(first1, last1, first2)`: every element of the first
      range equals the element at the same position of the second. */
  function RangeEqual<T(==)>(xs: seq<T>, ys: seq<T>): (r: bool)
    requires |xs| <= |ys|
    ensures r <==> forall n :: 0 <= n < |xs| ==> xs[n] == ys[n]
  {
    if |xs| == 0 then true
    else xs[0] == ys[0] && RangeEqual(xs[1..], ys[1..])
  }

  /** The sequence a reverse iterator pair `(rbegin, rend)` visits. */
  function Reverse<T>(s: seq<T>): (r: seq<T>)
    ensures |r| == |s|
    ensures forall n :: 0 <= n < |s| ==> r[n] == s[|s| - 1 - n]
  {
    if |s| == 0 then []
    else Reverse(s[1..]) + [s[0]]
  }

  lemma {:induction false} ReverseReverse<T>(s: seq<T>)
    ensures Reverse(Reverse(s)) == s
  {
    var r := Reverse(Reverse(s));
    assert |r| == |s|;
    forall n | 0 <= n < |s|
      ensures r[n] == s[n]
    {
      assert r[n] == Reverse(s)[|s| - 1 - n];
    }
  }

  /** Concatenation of a sequence of blocks, the contiguous layout of a
      built-in array of arrays. */
  function Concat<T>(blocks: seq<seq<T>>): seq<T>
  {
    if |blocks| == 0 then []
    else blocks[0] + Concat(blocks[1..])
  }

  /** All blocks have exactly `w` elements. */
  predicate Uniform<T>(blocks: seq<seq<T>>, w: nat) {
    forall b :: 0 <= b < |blocks| ==> |blocks[b]| == w
  }

  /** Concatenating `m` blocks of width `w` gives `m*w` elements, and
      element `r` of block `q` sits at position `q*w + r`. */
  lemma {:induction false} ConcatIndex<T>(blocks: seq<seq<T>>, w: nat, q: nat, r: nat)
    requires Uniform(blocks, w)
    requires q < |blocks| && r < w
    ensures |Concat(blocks)| == |blocks| * w
    ensures q * w + r < |Concat(blocks)|
    ensures Concat(blocks)[q * w + r] == blocks[q][r]
  {
    ConcatLength(blocks, w);
    if q == 0 {
    } else {
      ConcatIndex(blocks[1..], w, q - 1, r);
      assert Concat(blocks) == blocks[0] + Concat(blocks[1..]);
      assert q * w + r == w + ((q - 1) * w + r);
    }
  }

  lemma {:induction false} ConcatLength<T>(blocks: seq<seq<T>>, w: nat)
    requires Uniform(blocks, w)
    ensures |Concat(blocks)| == |blocks| * w
  {
    if |blocks| > 0 {
      ConcatLength(blocks[1..], w);
      assert |blocks| * w == w + (|blocks| - 1) * w;
    }
  }
}
