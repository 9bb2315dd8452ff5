/**
 The two loops that move the terrain's height grid around: the copy of the
 row-major grid into the physics engine's float heap, and the write of each
 height into the y slot of the render mesh's vertex array.

 Both loops run over JavaScript typed arrays (`Float32Array`), whose
 semantics the model keeps: a read past the end yields `undefined`, stored as
 NaN (the `nan` parameter), and a write outside the array is dropped.
 */
module Terrain {

  /* `a[i]` as JavaScript reads it. */
  function Read<T>(a: seq<T>, i: int, nan: T): (v: T)
    ensures 0 <= i < |a| ==> v == a[i]
    ensures !(0 <= i < |a|) ==> v == nan
  {
    if 0 <= i < |a| then a[i] else nan
  }

  /* `a[i] = v` on a typed array. */
  function Store<T>(a: seq<T>, i: int, v: T): (a': seq<T>)
    ensures |a'| == |a|
    ensures forall k :: 0 <= k < |a| ==> a'[k] == if k == i then v else a[k]
  {
    if 0 <= i < |a| then a[i := v] else a
  }

  /* ECMAScript's ToInt32: wrap to a signed 32-bit value. */
  function Int32(x: int): (r: int)
    ensures -0x8000_0000 <= r < 0x8000_0000
    ensures (r - x) % 0x1_0000_0000 == 0
  {
    var m := x % 0x1_0000_0000;
    if m >= 0x8000_0000 then m - 0x1_0000_0000 else m
  }

  /* The float slot `(base + byteOffset) >> 2` a byte address selects. */
  function HeapSlot(base: int, byteOffset: int): (slot: int)
    ensures 0 <= base + byteOffset < 0x8000_0000 ==> slot * 4 <= base + byteOffset < slot * 4 + 4
  {
    Int32(base + byteOffset) / 4
  }

  /* The float heap is below 2 GiB and the `4 * cells` bytes allocated at
     `base` lie inside it, as the allocator guarantees. */
  predicate InHeap(base: nat, cells: nat, heapLength: nat)
  {
    base + 4 * cells <= 4 * heapLength && 4 * heapLength <= 0x8000_0000
  }

  /* One iteration of the copy: grid row and column, cell index and byte
     offset. */
  datatype Visit = Visit(row: nat, col: nat, cell: nat, byteOffset: nat)

  /* The `k`-th visit of a row-major walk over a grid `width` cells wide. */
  predicate RowMajor(v: Visit, k: nat, width: nat)
  {
    v.cell == k && v.byteOffset == 4 * k && v.col < width && v.row * width + v.col == k
  }

  /* The heap after the copy: the allocated block holds the grid in
     row-major order, every other slot is as before. */
  function HeightBuffer<T>(heap: seq<T>, base: nat, heights: seq<T>, width: nat, depth: nat, nan: T): (r: seq<T>)
    ensures |r| == |heap|
  {
    seq(|heap|, k requires 0 <= k < |heap| =>
      if base / 4 <= k < base / 4 + width * depth then Read(heights, k - base / 4, nan) else heap[k])
  }

  lemma CellBound(j: nat, i: nat, width: nat, depth: nat)
    requires j < depth && i < width
    ensures j * width + i < width * depth
  {
    assert (j + 1) * width <= depth * width by {
      assert j + 1 <= depth;
    }
  }

  /* The first `p` cells of the grid have been copied into the heap. */
  ghost predicate Filled<T>(heap': seq<T>, heap: seq<T>, base: nat, heights: seq<T>, nan: T, p: nat)
  {
    |heap'| == |heap| &&
    forall k :: 0 <= k < |heap'| ==>
      heap'[k] == if base / 4 <= k < base / 4 + p then Read(heights, k - base / 4, nan) else heap[k]
  }

  /* The first `|visits|` visits of a row-major walk. */
  predicate Walked(visits: seq<Visit>, width: nat, rows: nat)
  {
    forall k :: 0 <= k < |visits| ==> RowMajor(visits[k], k, width) && visits[k].row < rows
  }

  /* One iteration of the copy extends the copied prefix by one cell. */
  lemma FillStep<T>(h: seq<T>, heap: seq<T>, base: nat, heights: seq<T>, nan: T, p: nat)
    requires Filled(h, heap, base, heights, nan, p)
    requires base / 4 + p < |heap| && 4 * |heap| <= 0x8000_0000
    ensures Filled(Store(h, HeapSlot(base, 4 * p), Read(heights, p, nan)), heap, base, heights, nan, p + 1)
  {
    assert HeapSlot(base, 4 * p) == base / 4 + p;
  }

  /* Once every cell is copied the heap is the expected buffer. */
  lemma FilledIsBuffer<T>(h: seq<T>, heap: seq<T>, base: nat, heights: seq<T>, width: nat, depth: nat, nan: T)
    requires Filled(h, heap, base, heights, nan, width * depth)
    ensures h == HeightBuffer(heap, base, heights, width, depth, nan)
  {
  }

  /* One iteration of the copy extends the walk by cell `(j, i)`. */
  lemma WalkStep(visits: seq<Visit>, width: nat, j: nat, i: nat)
    requires Walked(visits, width, j + 1)
    requires |visits| == j * width + i && i < width
    ensures Walked(visits + [Visit(j, i, |visits|, 4 * |visits|)], width, j + 1)
  {
  }

  /* The inner loop of the copy: the cells of row `j`, which start at cell
     index and byte offset `p` and `p2`. */
  method CopyRow<T>(h: seq<T>, visits: seq<Visit>, p: nat, p2: nat, j: nat,
                    ghost heap: seq<T>, base: nat, heights: seq<T>, width: nat, depth: nat, nan: T, ghost fits: bool)
    returns (h': seq<T>, visits': seq<Visit>, q: nat, q2: nat)
    requires j < depth && p == j * width && p2 == 4 * p
    requires |h| == |heap| && |visits| == p
    requires Walked(visits, width, j)
    requires fits ==> base / 4 + width * depth <= |heap| && 4 * |heap| <= 0x8000_0000
    requires fits ==> Filled(h, heap, base, heights, nan, p)
    ensures q == p + width && q2 == 4 * q
    ensures |h'| == |heap| && |visits'| == q
    ensures Walked(visits', width, j + 1)
    ensures fits ==> Filled(h', heap, base, heights, nan, q)
  {
    h', visits', q, q2 := h, visits, p, p2;
    var i: nat := 0;
    while i < width
      invariant i <= width
      invariant q == p + i && q2 == 4 * q
      invariant |h'| == |heap| && |visits'| == q
      invariant Walked(visits', width, j + 1)
      invariant fits ==> Filled(h', heap, base, heights, nan, q)
    {
      CellBound(j, i, width, depth);
      if fits {
        FillStep(h', heap, base, heights, nan, q);
      }
      WalkStep(visits', width, j, i);
      h' := Store(h', HeapSlot(base, q2), Read(heights, q, nan));
      visits' := visits' + [Visit(j, i, q, q2)];
      q := q + 1;
      q2 := q2 + 4;
      i := i + 1;
    }
  }

  /* The copy of the height grid into the physics heap, walking rows
     `j < depth` and columns `i < width` with the cell index `p` and the byte
     offset `p2`. Returns the heap and the visits in the order made. */
  method CopyHeights<T>(heap: seq<T>, base: nat, heights: seq<T>, width: nat, depth: nat, nan: T)
    returns (heap': seq<T>, visits: seq<Visit>)
    ensures |heap'| == |heap|
    ensures |visits| == width * depth
    ensures forall k :: 0 <= k < |visits| ==> RowMajor(visits[k], k, width) && visits[k].row < depth
    ensures InHeap(base, width * depth, |heap|) ==> heap' == HeightBuffer(heap, base, heights, width, depth, nan)
  {
    var cells := width * depth;
    ghost var fits := InHeap(base, cells, |heap|);
    if fits {
      assert base / 4 + cells <= |heap|;
    }
    heap' := heap;
    visits := [];
    var p: nat := 0;
    var p2: nat := 0;
    var j: nat := 0;
    while j < depth
      invariant j <= depth && p == j * width && p2 == 4 * p
      invariant |heap'| == |heap| && |visits| == p
      invariant Walked(visits, width, j)
      invariant fits ==> Filled(heap', heap, base, heights, nan, p)
    {
      heap', visits, p, p2 := CopyRow(heap', visits, p, p2, j, heap, base, heights, width, depth, nan, fits);
      assert p == (j + 1) * width by {
        assert j * width + width == (j + 1) * width;
      }
      j := j + 1;
    }
    assert p == cells;
    if fits {
      FilledIsBuffer(heap', heap, base, heights, width, depth, nan);
    }
  }

  /* Grid cell `(row, col)` of an in-heap copy sits at float slot
     `base / 4 + row * width + col` and holds height `row * width + col`. */
  lemma {:induction false} CopiedCell<T>(heap: seq<T>, base: nat, heights: seq<T>, width: nat, depth: nat, nan: T, row: nat, col: nat)
    requires InHeap(base, width * depth, |heap|)
    requires row < depth && col < width
    requires |heights| == width * depth
    ensures row * width + col < width * depth
    ensures base / 4 + row * width + col < |heap|
    ensures HeightBuffer(heap, base, heights, width, depth, nan)[base / 4 + row * width + col] == heights[row * width + col]
  {
    var c := row * width + col;
    var cells := width * depth;
    CellBound(row, col, width, depth);
    assert c < cells;
    assert base / 4 + cells <= |heap| by {
      assert (base / 4) * 4 <= base;
      assert 4 * (base / 4 + cells) <= 4 * |heap|;
    }
    var k := base / 4 + c;
    assert k < |heap|;
    assert base / 4 <= k < base / 4 + cells && k - base / 4 == c;
    assert HeightBuffer(heap, base, heights, width, depth, nan)[k] == Read(heights, c, nan);
  }

  /* The mesh vertices after the height write: the y slot (index `3 * i + 1`)
     of vertex `i` holds height `i`, the x and z slots are as before. */
  function VertexHeights<T>(vertices: seq<T>, heights: seq<T>, nan: T): (r: seq<T>)
    ensures |r| == |vertices|
  {
    seq(|vertices|, k requires 0 <= k < |vertices| =>
      if k % 3 == 1 then Read(heights, k / 3, nan) else vertices[k])
  }

  /* The vertex loop as written: `i` runs up to the length of the flat
     position array, not the vertex count, with `j = 3 * i`; the extra
     iterations write past the end and are dropped. */
  method WriteVertexHeights<T>(vertices: seq<T>, heights: seq<T>, nan: T) returns (out: seq<T>)
    ensures out == VertexHeights(vertices, heights, nan)
  {
    out := vertices;
    var i := 0;
    var j := 0;
    var l := |vertices|;
    while i < l
      invariant 0 <= i <= l && j == 3 * i
      invariant |out| == |vertices|
      invariant forall k :: 0 <= k < |out| ==>
        out[k] == if k % 3 == 1 && k / 3 < i then Read(heights, k / 3, nan) else vertices[k]
    {
      out := Store(out, j + 1, Read(heights, i, nan));
      i := i + 1;
      j := j + 3;
    }
  }

  /* For the plane mesh, which has one height per vertex, every vertex's y
     slot receives its own height (no NaN is written) and x and z are
     untouched. */
  lemma PlaneVertexHeights<T>(vertices: seq<T>, heights: seq<T>, nan: T, i: nat)
    requires |vertices| == 3 * |heights|
    requires i < |heights|
    ensures VertexHeights(vertices, heights, nan)[3 * i + 1] == heights[i]
    ensures VertexHeights(vertices, heights, nan)[3 * i] == vertices[3 * i]
    ensures VertexHeights(vertices, heights, nan)[3 * i + 2] == vertices[3 * i + 2]
  {
    assert (3 * i + 1) / 3 == i;
  }
}
