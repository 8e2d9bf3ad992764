/** A worked instance: a `2 x 2 x 2` container of integers filled with 0,
    then `at(1, 1, 1) = 7`; afterwards `data()[7]` is 7, `front()` is 0,
    `back()` is 7, `size()` is 8, and `at(2, 0, 0)` throws.
 */
module Examples {
  import opened Extents
  import opened Array3D

  /** The write through `at(1, 1, 1)` succeeds and lands on `data()[7]`. */
  lemma FillThenWriteLast(a: Array3<int>)
    requires a.Valid() && a.dims == Extents(2, 2, 2)
    ensures AtAssign(Fill(a, 0), 1, 1, 1, 7) == (Update(Fill(a, 0), 1, 1, 1, 7), Pass)
    ensures Elements(Update(Fill(a, 0), 1, 1, 1, 7))[7] == 7
  {
  }

  /** After the write the first element is still 0 and the last is 7. */
  lemma FrontAndBackAfterWrite(a: Array3<int>)
    requires a.Valid() && a.dims == Extents(2, 2, 2)
    ensures Front(Update(Fill(a, 0), 1, 1, 1, 7)) == 0
    ensures Back(Update(Fill(a, 0), 1, 1, 1, 7)) == 7
  {
  }

  /** Valid first indices are 0 and 1, so `at(2, 0, 0)` throws. */
  lemma FirstIndexOutOfRange(b: Array3<int>)
    requires b.Valid() && b.dims == Extents(2, 2, 2)
    ensures Size(b) == 8
    ensures At(b, 2, 0, 0) == Err(OutOfRange(OutOfRangeMessage))
  {
  }
}
