# fsma::array_3d in Dafny

A model of `fsma::array_3d<T, D1, D2, D3>` from the FSMA library: a
fixed-size, STL-like container whose storage is a built-in three
dimensional array `T elems[D1][D2][D3]` held inline, with value semantics.

The container is a datatype `Array3<T>` holding its extents (the template
parameters `D1`, `D2`, `D3`) and its storage as the flat row-major
sequence of `D1*D2*D3` elements that `begin()` and `data()` expose.
`Valid()` says every extent is at least 1 and the storage has exactly
`D1*D2*D3` elements; two containers of one instantiation are `SameShape`.
Every operation is a pure function: a mutator returns the new container
(for `swap`, the new pair).

- `extents.dfy` (module `Extents`): the extents, the row-major offset
  `i*D2*D3 + j*D3 + k` and its inverse `Coords`, with the proof that the
  two form a bijection between in-bounds triples and storage positions.
- `ranges.dfy` (module `Ranges`): the standard algorithms the container
  forwards to (`std::fill_n`, `std::swap_ranges`, `std::copy`,
  `std::equal`, reverse iteration) and the layout of nested blocks.
- `lexicographic.dfy` (module `Lexicographic`):
  `std::lexicographical_compare`, its first-difference characterisation,
  and irreflexivity, trichotomy and transitivity for strict total orders.
- `array3d.dfy` (module `Array3D`): the container: capacity, nested
  subscripting `elems[i][j][k]` (`operator()`), `at`, writes through the
  returned references, `front`/`back`, forward and reverse iteration,
  `fill`/`assign`, `swap` and the converting assignment.
- `comparisons.dfy` (module `Comparisons`): the free `==`, `!=`, `<`, `>`,
  `<=`, `>=`.
- `aggregate.dfy` (module `Aggregate`): the nested view of the built-in
  array and aggregate initialisation from a fully braced initialiser.
- `inplace.dfy` (module `InPlace`): `fill` and `swap` as in-place loops
  over a storage block, shown equal to the functional definitions.
- `examples.dfy` (module `Examples`): a `2 x 2 x 2` worked instance.

`operator()` is modelled as the built-in array's own subscripting: the
plane `elems[i]` is the block of `D2*D3` elements starting at `i*D2*D3`,
the row `elems[i][j]` is the block of `D3` elements starting at `j*D3`
inside it. That element `(i, j, k)` is flat element `i*D2*D3 + j*D3 + k`
is therefore proved (`Array3D.Get`, `Array3D.IndexMap`), not assumed.

The element type's `operator<` is a parameter `less`; the promises that
need it to be a strict total order say so with `StrictTotalOrder(less)`.

## Model

| member | source | states |
|---|---|---|
| Extents.Offset | array_3d.hpp:35 | the row-major offset of an in-bounds `(i, j, k)` of `T[D1][D2][D3]` lies below `D1*D2*D3` |
| Extents.Coords | array_3d.hpp:39-45 | every storage position below `size()` is the offset of an in-bounds triple, the one that the iteration from `begin()` visits there |
| Extents.OffsetBelowSize | array_3d.hpp:80-81 | the row of an in-bounds `(i, j, k)` lies inside its plane |
| Extents.CoordsOfOffset | array_3d.hpp:35 | decoding the offset of an in-bounds triple gives the triple back |
| Extents.OffsetInjective | array_3d.hpp:35 | no other in-bounds triple shares the offset of an in-bounds `(i, j, k)` |
| Extents.LastOffset | array_3d.hpp:62 | `(D1-1, D2-1, D3-1)` sits at offset `size()-1` |
| Ranges.FillN | array_3d.hpp:117 | `fill_n` sets the first `count` positions to the value and keeps the rest |
| Ranges.SwapRanges | array_3d.hpp:103 | `swap_ranges` exchanges the first range with the prefix of the second and keeps the rest of the second |
| Ranges.CopyConvert | array_3d.hpp:109 | `copy` writes the converted source elements over the destination prefix and keeps the rest |
| Ranges.RangeEqual | array_3d.hpp:124 | `equal` holds exactly when the two ranges agree at every position of the first |
| Ranges.Reverse | array_3d.hpp:48-54 | reverse iteration visits position `n` of the result at position `size-1-n` of the forward range |
| Ranges.ReverseReverse | array_3d.hpp:48-54 | reversing twice gives the forward order back |
| Ranges.ConcatIndex | array_3d.hpp:35 | laying out `m` blocks of `w` elements gives `m*w` elements with element `r` of block `q` at `q*w + r` |
| Lexicographic.LexLess | array_3d.hpp:129 | `lexicographical_compare` never finds a range less than an empty one, and finds the empty range less than every non-empty one |
| Lexicographic.LexLessIff | array_3d.hpp:129 | `lexicographical_compare` holds exactly when, after an equivalent common prefix, the first range has the smaller element or ends first |
| Lexicographic.LexLessIrreflexive | array_3d.hpp:127-130 | for an irreflexive element order no range is less than itself |
| Lexicographic.LexTrichotomy | array_3d.hpp:127-150 | for a strict total element order exactly one of `xs < ys`, `xs == ys`, `ys < xs` holds |
| Lexicographic.LexTransitive | array_3d.hpp:127-130 | for a strict total element order the lexicographic order is transitive |
| Array3D.Size1D | array_3d.hpp:66-67 | `size_1d()` is at least 1 and is the number of first indices `at` accepts |
| Array3D.Size2D | array_3d.hpp:68-69 | `size_2d()` is at least 1 and is the number of second indices `at` accepts |
| Array3D.Size3D | array_3d.hpp:70-71 | `size_3d()` is at least 1 and is the number of third indices `at` accepts |
| Array3D.Size | array_3d.hpp:73-74 | `size()` is the product of the three extents, is the storage length, and is at least 1 |
| Array3D.MaxSize | array_3d.hpp:75-76 | `max_size()` equals `size()` |
| Array3D.Empty | array_3d.hpp:77 | `empty()` is false, and that is exactly whether the storage has no elements |
| Array3D.Plane | array_3d.hpp:35 | the plane `elems[i]` has `D2*D3` elements |
| Array3D.Row | array_3d.hpp:35 | the row `elems[i][j]` has `D3` elements |
| Array3D.Get | array_3d.hpp:80-81 | `operator()(i, j, k)` on in-bounds indices reaches the storage element at offset `i*D2*D3 + j*D3 + k` |
| Array3D.IndexMap | array_3d.hpp:80-81 | every in-bounds triple's offset lies in the storage and holds that triple's element |
| Array3D.At | array_3d.hpp:83-95 | `at` throws `out_of_range` with the source's message exactly when `D1 <= i`, `D2 <= j` or `D3 <= k`, and otherwise returns the `operator()` element |
| Array3D.Update | array_3d.hpp:80 | writing through `operator()(i, j, k)` sets that element and keeps every other in-bounds element and the extents |
| Array3D.AtAssign | array_3d.hpp:83-88 | writing through `at` fails exactly on out-of-range indices, leaving the container as it was, and otherwise equals the unchecked write |
| Array3D.Front | array_3d.hpp:58-59 | `front()` is the first storage element |
| Array3D.Back | array_3d.hpp:62-63 | `back()` is the last storage element |
| Array3D.StorageOrder | array_3d.hpp:39 | storage position `n` holds the element at `Coords(n)` |
| Array3D.ExtensionalEquality | array_3d.hpp:35 | two containers of one instantiation that agree at every in-bounds triple are equal |
| Array3D.Elements | array_3d.hpp:39-45 | `[begin(), end())` (and `data()`) has `size()` elements, holds `(i, j, k)` at its row-major offset and visits positions in row-major order |
| Array3D.ReverseElements | array_3d.hpp:48-54 | `[rbegin(), rend())` has `size()` elements, is the forward range back to front, starts at `back()` and ends at `front()` |
| Array3D.ReverseOfReverse | array_3d.hpp:48-54 | reversing the reverse range gives the forward range |
| Array3D.Fill | array_3d.hpp:115-118 | after `fill(v)` every element is `v` and the extents are unchanged |
| Array3D.Assign | array_3d.hpp:114 | `assign(v)` has the same effect as `fill(v)`: every element is `v` |
| Array3D.FillOverwritesAll | array_3d.hpp:115-118 | the result of `fill` does not depend on the old contents, and filling twice with one value is filling once |
| Array3D.Swap | array_3d.hpp:102-104 | after `a.swap(b)` `a` holds `b`'s old elements and `b` holds `a`'s at every position, extents unchanged |
| Array3D.SwapTwice | array_3d.hpp:102-104 | swapping twice restores both containers |
| Array3D.ConvertAssign | array_3d.hpp:107-111 | after the converting assignment each element is the converted source element at the same position and at the same triple |
| Array3D.ConvertAssignOverwrites | array_3d.hpp:107-111 | the converting assignment's result does not depend on the target's old contents |
| Array3D.ConvertIdentityCopies | array_3d.hpp:107-111 | with the identity conversion the assignment makes the target equal to the source |
| Comparisons.Equal | array_3d.hpp:122-125 | `x == y` holds exactly when the storages agree at every position, exactly when the containers are equal, exactly when they agree at every in-bounds triple |
| Comparisons.NotEqual | array_3d.hpp:132-135 | `x != y` holds exactly when the containers differ |
| Comparisons.Less | array_3d.hpp:127-130 | `x < y` holds exactly when some position decides it lexicographically |
| Comparisons.Greater | array_3d.hpp:137-140 | for a strict total element order `x > y` holds exactly when `x` is neither less than nor equal to `y` |
| Comparisons.LessEq | array_3d.hpp:142-145 | for a strict total element order `x <= y` holds exactly when `x < y` or `x == y` |
| Comparisons.GreaterEq | array_3d.hpp:147-150 | for a strict total element order `x >= y` holds exactly when `x > y` or `x == y` |
| Comparisons.LessIrreflexive | array_3d.hpp:127-130 | for an irreflexive element order no container is less than itself |
| Comparisons.Trichotomy | array_3d.hpp:127-150 | for a strict total element order exactly one of `x < y`, `x == y`, `x > y` holds |
| Comparisons.LessTransitive | array_3d.hpp:127-130 | for a strict total element order `<` on containers is transitive |
| Aggregate.ToNested | array_3d.hpp:35 | the nested view has `D1` planes of `D2` rows of `D3` elements and holds the `operator()` element at every triple |
| Aggregate.Flatten | array_3d.hpp:35 | a fully braced initialiser laid out flat has `D1*D2*D3` elements with `n[i][j][k]` at the row-major offset of `(i, j, k)` |
| Aggregate.FromNested | array_3d.hpp:35 | aggregate initialisation from a fully braced initialiser gives a container holding `n[i][j][k]` at every triple |
| Aggregate.FromToNested | array_3d.hpp:35 | initialising from a container's nested view gives the container back |
| Aggregate.ToFromNested | array_3d.hpp:35 | the nested view of a container initialised from `n` is `n` |
| InPlace.FillInPlace | array_3d.hpp:115-118 | the in-place `fill_n` loop leaves the block equal to the functional `fill_n` of its old contents |
| InPlace.SwapInPlace | array_3d.hpp:102-104 | the in-place `swap_ranges` loop leaves the two blocks equal to the functional swap of their old contents |
| Examples.FillThenWriteLast | array_3d.hpp:83-88 | in a `2 x 2 x 2` container filled with 0, `at(1, 1, 1) = 7` succeeds and makes `data()[7]` equal 7 |
| Examples.FrontAndBackAfterWrite | array_3d.hpp:58-63 | after that write `front()` is 0 and `back()` is 7 |
| Examples.FirstIndexOutOfRange | array_3d.hpp:83-86 | a `2 x 2 x 2` container has `size()` 8 and `at(2, 0, 0)` throws `out_of_range` |

## Left out

- Iterators as pointers: `begin`/`end`/`rbegin`/`rend`/`data` are modelled as the sequences they delimit, not as pointer arithmetic; `end() - begin() == size()` is the length of `Elements`.
- The `const`, non-`const` and `c`-prefixed overloads are one function each; references are modelled by value, and a write through a returned reference is `Update` or `AtAssign`.
- Out-of-range `operator()` is undefined behaviour in the source; `Get` and `Update` require in-bounds indices instead.
- Zero extents are not modelled: every extent is required to be at least 1.
- `std::size_t` overflow of `D1*D2*D3` is not modelled; sizes are mathematical naturals.
- Default construction leaves elements indeterminate; the model represents that as a valid container with arbitrary contents, and gives no operation for it.
- Aggregate initialisation with brace elision or with fewer initialisers than elements (the rest value-initialised) is not modelled; `Aggregate.FromNested` and `Aggregate.Flatten` take a fully braced, fully specified initialiser.
- Lexicographic.LexLess: its own contract states only the empty-range cases; the full first-difference characterisation of `lexicographical_compare` is `Lexicographic.LexLessIff`.
- Comparisons.Equal: the element type's `operator==` is taken to be equality of values, so a user type whose `operator==` is not equality is not covered.
- Comparisons.Greater: its promise is stated only for a strict total element order `less`; for other orders only its definition as `y < x` is modelled.
- Comparisons.LessEq: its promise is stated only for a strict total element order `less`; for other orders only its definition as `!(y < x)` is modelled.
- Comparisons.GreaterEq: its promise is stated only for a strict total element order `less`; for other orders only its definition as `!(x < y)` is modelled.
- The converting assignment's element conversion is a function parameter `S -> T`; the compile-time check that a conversion exists is the type of that parameter. Its return of `*this` is the returned container.
- Self-swap: `std::swap_ranges` on overlapping ranges is undefined; the functional `Swap(a, a)` returns `(a, a)`, and `InPlace.SwapInPlace` requires distinct blocks.
- The `array_2d` variant is not part of this model.
