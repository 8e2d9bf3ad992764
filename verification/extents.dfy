/** The three fixed extents of an `array_3d` and the row-major index map.

    In the C++ container the extents `D1`, `D2`, `D3` are template
    parameters; here they are a value, and every container carries the
    extents of its type.  The last dimension varies fastest, so `(i, j, k)`
    sits at flat offset `i*D2*D3 + j*D3 + k`.
 */
module Extents {

  datatype Extents = Extents(d1: nat, d2: nat, d3: nat) {

    /** Only instantiations with every extent at least 1 are modelled. */
    predicate Valid() {
      d1 >= 1 && d2 >= 1 && d3 >= 1
    }

    /** Number of elements in one plane `elems[i]` (a `D2 x D3` block). */
    function PlaneSize(): nat {
      d2 * d3
    }

    /** Total number of elements, `D1*D2*D3`. */
    function Size(): nat {
      d1 * PlaneSize()
    }

    predicate InBounds(i: nat, j: nat, k: nat) {
      i < d1 && j < d2 && k < d3
    }

    /** Row-major flat offset of `(i, j, k)`: an in-bounds triple lands
        inside the storage. */
    function Offset(i: nat, j: nat, k: nat): (r: nat)
      ensures InBounds(i, j, k) ==> r < Size()
    {
      assert InBounds(i, j, k) ==> i * PlaneSize() + j * d3 + k < Size() by {
        if InBounds(i, j, k) {
          MulMonotone(j + 1, d2, d3);
          MulMonotone(i + 1, d1, PlaneSize());
        }
      }
      i * PlaneSize() + j * d3 + k
    }

    /** The triple whose offset is `n`: every storage position is the
        offset of an in-bounds triple, so visiting the storage in order
        visits triples in row-major order. */
    function Coords(n: nat): (c: (nat, nat, nat))
      requires Valid()
      ensures n < Size() ==> InBounds(c.0, c.1, c.2) && Offset(c.0, c.1, c.2) == n
    {
      assert n < Size() ==> Decomposes(n) by {
        if n < Size() { DecompositionBound(this, n); }
      }
      (n / PlaneSize(), (n % PlaneSize()) / d3, n % d3)
    }

    /** `n` is the offset of the in-bounds triple of its quotients. */
    predicate Decomposes(n: nat)
      requires Valid()
    {
      var p := PlaneSize();
      InBounds(n / p, (n % p) / d3, n % d3) && Offset(n / p, (n % p) / d3, n % d3) == n
    }
  }

  /** Quotient and remainder of `q*m + r` by `m` when `0 <= r < m`. */
  lemma DivModOfSum(q: nat, m: nat, r: nat)
    requires r < m
    ensures (q * m + r) / m == q
    ensures (q * m + r) % m == r
  {
    var n := q * m + r;
    assert n == (n / m) * m + n % m;
    var q' := n / m;
    if q' < q {
      MulMonotone(q' + 1, q, m);
      assert false;
    } else if q' > q {
      MulMonotone(q + 1, q', m);
      assert false;
    }
  }

  /** A quotient by `b` of a number below `a*b` is below `a`. */
  lemma QuotientBound(n: nat, a: nat, b: nat)
    requires b >= 1 && n < a * b
    ensures n / b < a
  {
    assert (n / b) * b <= n;
    if n / b >= a {
      assert false;
    }
  }

  lemma MulMonotone(a: nat, b: nat, m: nat)
    requires a <= b
    ensures a * m <= b * m
  {
  }

  /** The row of an in-bounds triple lies inside its plane. */
  lemma OffsetBelowSize(e: Extents, i: nat, j: nat, k: nat)
    requires e.InBounds(i, j, k)
    ensures e.Offset(i, j, k) < (i + 1) * e.PlaneSize()
    ensures i * e.PlaneSize() + j * e.d3 + e.d3 <= i * e.PlaneSize() + e.PlaneSize()
  {
    assert j * e.d3 + e.d3 <= e.PlaneSize() by { MulMonotone(j + 1, e.d2, e.d3); }
    assert (i + 1) * e.PlaneSize() <= e.Size() by { MulMonotone(i + 1, e.d1, e.PlaneSize()); }
  }

  /** `Coords` recovers the triple from its offset. */
  lemma CoordsOfOffset(e: Extents, i: nat, j: nat, k: nat)
    requires e.Valid() && e.InBounds(i, j, k)
    ensures e.Coords(e.Offset(i, j, k)) == (i, j, k)
  {
    var p := e.PlaneSize();
    var rest := j * e.d3 + k;
    OffsetBelowSize(e, i, j, k);
    assert rest < p;
    DivModOfSum(i, p, rest);
    DivModOfSum(j, e.d3, k);
    ModOfModMultiple(e.Offset(i, j, k), e.d2, e.d3);
  }

  /** Every position below the size decomposes into an in-bounds triple. */
  lemma DecompositionBound(e: Extents, n: nat)
    requires e.Valid() && n < e.Size()
    ensures e.Decomposes(n)
  {
    var p := e.PlaneSize();
    var r := n % p;
    assert n == (n / p) * p + r;
    assert r == (r / e.d3) * e.d3 + n % e.d3 by { ModOfModMultiple(n, e.d2, e.d3); }
    QuotientBound(n, e.d1, p);
    QuotientBound(r, e.d2, e.d3);
  }

  /** Reducing modulo `a*b` and then modulo `b` is reducing modulo `b`. */
  lemma ModOfModMultiple(n: nat, a: nat, b: nat)
    requires a >= 1 && b >= 1
    ensures (n % (a * b)) % b == n % b
  {
    var m := a * b;
    var q, r := n / m, n % m;
    assert n == q * m + r;
    assert q * m == (q * a) * b;
    DivModOfSum(q * a + r / b, b, r % b);
    assert r == (r / b) * b + r % b;
    assert n == (q * a + r / b) * b + r % b;
  }

  /** Distinct in-bounds triples have distinct offsets: no other in-bounds
      triple shares the offset of `(i, j, k)`. */
  lemma OffsetInjective(e: Extents, i: nat, j: nat, k: nat)
    requires e.Valid() && e.InBounds(i, j, k)
    ensures forall i': nat, j': nat, k': nat ::
              e.InBounds(i', j', k') && (i', j', k') != (i, j, k) ==>
                e.Offset(i', j', k') != e.Offset(i, j, k)
  {
    CoordsOfOffset(e, i, j, k);
    forall i': nat, j': nat, k': nat | e.InBounds(i', j', k')
      ensures e.Coords(e.Offset(i', j', k')) == (i', j', k')
    {
      CoordsOfOffset(e, i', j', k');
    }
  }

  /** The last triple `(D1-1, D2-1, D3-1)` is the last flat position. */
  lemma LastOffset(e: Extents)
    requires e.Valid()
    ensures e.Offset(e.d1 - 1, e.d2 - 1, e.d3 - 1) == e.Size() - 1
  {
    var p := e.PlaneSize();
    assert (e.d1 - 1) * p == e.d1 * p - p;
    assert (e.d2 - 1) * e.d3 == p - e.d3;
  }
}
