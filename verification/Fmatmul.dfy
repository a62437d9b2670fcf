/** C = A * B by tiled, software-pipelined vector kernels (`fmatmul.c`). The fused
  * multiply-add is any function: the results are equal bit for bit, not approximately. */
module Fmatmul {
  import opened Arith
  import opened VectorUnit
  import Dotproduct

  /** The operands: A has rows of N elements, B rows of P. */
  datatype Product<!T> = Product(fma: (T, T, T) -> T, zero: T, a: seq<T>, b: seq<T>, N: nat, P: nat)

  ghost function At<T>(s: seq<T>, i: int, default: T): T {
    if 0 <= i < |s| then s[i] else default
  }

  /** The left fold of `fma` over the first `n` terms of a row of A (from index `ia`) and a
    * column of B (from index `jb`): the inner loop of the naive product. */
  ghost function Dot<T>(m: Product<T>, ia: nat, jb: nat, n: nat): T {
    if n == 0 then m.zero
    else m.fma(At(m.a, ia + (n - 1), m.zero), At(m.b, jb + (n - 1) * m.P, m.zero), Dot(m, ia, jb, n - 1))
  }

  /** Partial sums for `vl` neighbouring columns. */
  ghost function Acc<T>(m: Product<T>, ia: nat, pb: nat, n: nat, vl: nat): (s: seq<T>)
    ensures |s| == vl
  {
    seq(vl, j requires 0 <= j => Dot(m, ia, pb + j, n))
  }

  /** A slice of row `n` of B. */
  ghost function RowOf<T>(m: Product<T>, pb: nat, n: nat, vl: nat): (s: seq<T>)
    ensures |s| == vl
  {
    seq(vl, j requires 0 <= j => At(m.b, pb + j + n * m.P, m.zero))
  }

  /** What a kernel keeps for one row of its block: the accumulator register `v` and the
    * scalar `t`, fetched ahead. */
  datatype Row<T> = Row(v: seq<T>, t: T)

  /** The row has summed its first `n` terms and fetched its next element of A. */
  ghost predicate InStep<T>(m: Product<T>, r: Row<T>, ia: nat, pb: nat, n: nat, vl: nat) {
    r.v == Acc(m, ia, pb, n, vl) && ia + n < |m.a| && r.t == m.a[ia + n]
  }

  /** One `vfmacc.vf` adds one term to every partial sum of a row. */
  lemma AccStep<T>(m: Product<T>, ia: nat, pb: nat, n: nat, vl: nat)
    requires ia + n < |m.a|
    ensures Vfmacc(m.fma, Acc(m, ia, pb, n, vl), m.a[ia + n], RowOf(m, pb, n, vl)) == Acc(m, ia, pb, n + 1, vl)
    ensures forall j | 0 <= j < vl && 0 <= pb + j + n * m.P < |m.b| ::
              Acc(m, ia, pb, n + 1, vl)[j] == m.fma(m.a[ia + n], m.b[pb + j + n * m.P], Acc(m, ia, pb, n, vl)[j])
  {
    var l, r := Vfmacc(m.fma, Acc(m, ia, pb, n, vl), m.a[ia + n], RowOf(m, pb, n, vl)), Acc(m, ia, pb, n + 1, vl);
    forall j | 0 <= j < vl
      ensures l[j] == r[j]
      ensures 0 <= pb + j + n * m.P < |m.b| ==>
                r[j] == m.fma(m.a[ia + n], m.b[pb + j + n * m.P], Acc(m, ia, pb, n, vl)[j])
    {
      assert r[j] == Dot(m, ia, pb + j, n + 1);
      assert Acc(m, ia, pb, n, vl)[j] == Dot(m, ia, pb + j, n);
    }
  }

  lemma Cleared<T>(m: Product<T>, ia: nat, pb: nat, vl: nat)
    ensures Vmv(m.zero, vl) == Acc(m, ia, pb, 0, vl)
  {
    var v, acc := Vmv(m.zero, vl), Acc(m, ia, pb, 0, vl);
    forall j | 0 <= j < vl ensures v[j] == acc[j] {
      assert acc[j] == Dot(m, ia, pb + j, 0);
    }
  }

  /** Where row `r` of a block starts. */
  function RowAt(base: nat, r: nat, stride: nat): nat {
    base + r * stride
  }

  /** All rows of the block are at step `n`. */
  ghost predicate AllInStep<T>(m: Product<T>, rows: seq<Row<T>>, pa: nat, pb: nat, n: nat, vl: nat) {
    forall r | 0 <= r < |rows| :: InStep(m, rows[r], RowAt(pa, r, m.N), pb, n, vl)
  }

  /** The rows of a block lie in A. */
  predicate HoldsRows<T>(m: Product<T>, pa: nat, rows: nat) {
    RowAt(pa, rows, m.N) <= |m.a|
  }

  lemma RowInA<T>(m: Product<T>, pa: nat, rows: nat, r: nat)
    requires r < rows && HoldsRows(m, pa, rows)
    ensures RowAt(pa, r, m.N) + m.N <= |m.a|
  {
    MulMono(r + 1, rows, m.N);
    assert (r + 1) * m.N == r * m.N + m.N;
  }

  lemma FetchOne<T>(m: Product<T>, pa: nat, pb: nat, vl: nat, count: nat, r: nat)
    requires HoldsRows(m, pa, count) && 0 < m.N && r < count
    ensures RowAt(pa, r, m.N) < |m.a|
    ensures InStep(m, Row(Vmv(m.zero, vl), m.a[RowAt(pa, r, m.N)]), RowAt(pa, r, m.N), pb, 0, vl)
  {
    RowInA(m, pa, count, r);
    Cleared(m, RowAt(pa, r, m.N), pb, vl);
  }

  /** `slice_init`, and the prefetch of one scalar for each row: `t = *a, a += N`. */
  method FetchAll<T>(m: Product<T>, pa: nat, ghost pb: nat, vl: nat, count: nat) returns (rows: seq<Row<T>>)
    requires HoldsRows(m, pa, count) && 0 < m.N
    ensures |rows| == count && AllInStep(m, rows, pa, pb, 0, vl)
  {
    hide InStep;
    hide RowAt;
    forall r: nat | r < count
      ensures RowAt(pa, r, m.N) < |m.a|
      ensures InStep(m, Row(Vmv(m.zero, vl), m.a[RowAt(pa, r, m.N)]), RowAt(pa, r, m.N), pb, 0, vl)
    {
      FetchOne(m, pa, pb, vl, count, r);
    }
    rows := seq(count, r requires 0 <= r < count => Row(Vmv(m.zero, vl), m.a[RowAt(pa, r, m.N)]));
  }

  lemma StepOne<T>(m: Product<T>, row: Row<T>, vb: seq<T>, pa: nat, pa0: nat, pb: nat, n: nat, vl: nat, count: nat,
                   r: nat)
    requires r < count && InStep(m, row, RowAt(pa0, r, m.N), pb, n, vl) && vb == RowOf(m, pb, n, vl)
    requires HoldsRows(m, pa0, count) && pa == pa0 + (n + 1) && n + 1 < m.N
    ensures RowAt(pa, r, m.N) < |m.a| && |vb| == |row.v|
    ensures InStep(m, Row(Vfmacc(m.fma, row.v, row.t, vb), m.a[RowAt(pa, r, m.N)]), RowAt(pa0, r, m.N), pb, n + 1, vl)
  {
    RowInA(m, pa0, count, r);
    AccStep(m, RowAt(pa0, r, m.N), pb, n, vl);
  }

  /** For each row `vfmacc.vf v, t, vb` and then `t = *a, a += N`. */
  method StepAll<T>(m: Product<T>, rows: seq<Row<T>>, vb: seq<T>, pa: nat, ghost pa0: nat, ghost pb: nat, ghost n: nat,
                    ghost vl: nat)
    returns (rows': seq<Row<T>>)
    requires AllInStep(m, rows, pa0, pb, n, vl) && vb == RowOf(m, pb, n, vl)
    requires HoldsRows(m, pa0, |rows|) && pa == pa0 + (n + 1) && n + 1 < m.N
    ensures |rows'| == |rows| && AllInStep(m, rows', pa0, pb, n + 1, vl)
  {
    hide InStep;
    hide RowAt;
    hide Vfmacc;
    hide RowOf;
    forall r: nat | r < |rows|
      ensures RowAt(pa, r, m.N) < |m.a| && |vb| == |rows[r].v|
      ensures InStep(m, Row(Vfmacc(m.fma, rows[r].v, rows[r].t, vb), m.a[RowAt(pa, r, m.N)]), RowAt(pa0, r, m.N), pb,
                     n + 1, vl)
    {
      StepOne(m, rows[r], vb, pa, pa0, pb, n, vl, |rows|, r);
    }
    rows' := seq(|rows|,
                 r requires 0 <= r < |rows| => Row(Vfmacc(m.fma, rows[r].v, rows[r].t, vb), m.a[RowAt(pa, r, m.N)]));
  }

  /** The finished rows of a block of C. */
  ghost function Block<T>(m: Product<T>, pa: nat, pb: nat, vl: nat, rows: nat): seq<seq<T>> {
    seq(rows, r requires 0 <= r => Acc(m, RowAt(pa, r, m.N), pb, m.N, vl))
  }

  ghost function StoredRows<T>(c: seq<T>, at: nat, P: nat, rows: seq<seq<T>>): seq<T> {
    if rows == [] then c
    else
      var n := |rows| - 1;
      var before := StoredRows(c, at, P, rows[..n]);
      if at + n * P + |rows[n]| <= |before| then Stored(before, at + n * P, rows[n]) else before
  }

  /** How many of the first `rows` row slices of a block hold index `x`. */
  ghost function RowsHit(x: nat, at: nat, P: nat, vl: nat, rows: nat): nat {
    if rows == 0 then 0
    else RowsHit(x, at, P, vl, rows - 1) + if InSpan(at + (rows - 1) * P, vl, x) then 1 else 0
  }

  /** What a kernel needs: an even number of terms, operands that hold the block's rows and
    * the slice's columns, and room for the block in C. */
  predicate Runs<T>(m: Product<T>, cLength: nat, pc: nat, pa: nat, pb: nat, vl: nat, rows: nat) {
    && 2 <= m.N && m.N % 2 == 0
    && HoldsRows(m, pa, rows) && HoldsSlice(m, pb, vl)
    && 0 < rows && pc + (rows - 1) * m.P + vl <= cLength
  }

  /** Every row of B has the slice. */
  predicate HoldsSlice<T>(m: Product<T>, pb: nat, vl: nat) {
    pb + (m.N - 1) * m.P + vl <= |m.b|
  }

  /** The pointer `pb` is at row `n` of the slice that starts at `pb0`. */
  ghost predicate AtRow<T>(m: Product<T>, pb0: nat, n: nat, pb: nat) {
    pb == pb0 + n * m.P
  }

  /** Loading row `n` of the slice stays inside B, and moves the pointer to the next row. */
  lemma LoadRow<T>(m: Product<T>, pb0: nat, n: nat, pb: nat, vl: nat)
    requires n < m.N && HoldsSlice(m, pb0, vl) && AtRow(m, pb0, n, pb)
    ensures pb + vl <= |m.b|
    ensures Vle(m.b, pb, vl) == RowOf(m, pb0, n, vl)
    ensures AtRow(m, pb0, n + 1, pb + m.P)
  {
    MulMono(n, m.N - 1, m.P);
    assert n * m.P + m.P == (n + 1) * m.P;
    SliceIsRow(m, pb0, n, vl);
  }

  lemma SliceIsRow<T>(m: Product<T>, pb: nat, n: nat, vl: nat)
    requires 0 <= n * m.P && pb + n * m.P + vl <= |m.b|
    ensures m.b[pb + n * m.P..pb + n * m.P + vl] == RowOf(m, pb, n, vl)
  {
    var l, r := m.b[pb + n * m.P..pb + n * m.P + vl], RowOf(m, pb, n, vl);
    forall j | 0 <= j < vl ensures l[j] == r[j] {
      assert r[j] == At(m.b, pb + j + n * m.P, m.zero);
    }
  }

  /** The first `r` rows of the block are in C, each index written once more. */
  ghost predicate Partly<T>(m: Product<T>, c0: seq<T>, c: seq<T>, pc: nat, pa: nat, pb: nat, vl: nat, r: nat,
                            hits0: multiset<nat>, hits: multiset<nat>) {
    && c == StoredRows(c0, pc, m.P, Block(m, pa, pb, vl, r))
    && forall x :: hits[x] == hits0[x] + RowsHit(x, pc, m.P, vl, r)
  }

  lemma NoneStored<T>(m: Product<T>, c: seq<T>, pc: nat, pa: nat, pb: nat, vl: nat, hits: multiset<nat>)
    ensures Partly(m, c, c, pc, pa, pb, vl, 0, hits, hits)
  {
  }

  /** For each row the last `vfmacc.vf`, and the `vse64.v` that stores it in C. */
  method FinishAll<T>(m: Product<T>, c: array<T>, pc0: nat, rows: seq<Row<T>>, vb: seq<T>, ghost pa: nat,
                      ghost pb: nat, ghost vl: nat,
                      ghost hits: multiset<nat>) returns (ghost hits': multiset<nat>)
    requires 0 < m.N && AllInStep(m, rows, pa, pb, m.N - 1, vl) && vb == RowOf(m, pb, m.N - 1, vl)
    requires 0 < |rows| && pc0 + (|rows| - 1) * m.P + vl <= c.Length
    modifies c
    ensures Partly(m, old(c[..]), c[..], pc0, pa, pb, vl, |rows|, hits, hits')
  {
    hide Partly;
    hide AllInStep;
    var pc := pc0;
    hits' := hits;
    NoneStored(m, c[..], pc0, pa, pb, vl, hits);
    for r := 0 to |rows|
      invariant pc == pc0 + r * m.P
      invariant Partly(m, old(c[..]), c[..], pc0, pa, pb, vl, r, hits, hits')
    {
      hits' := FinishRow(m, c, pc, rows, vb, old(c[..]), pc0, pa, pb, vl, r, hits, hits');
      pc := pc + m.P;
    }
  }

  method FinishRow<T>(m: Product<T>, c: array<T>, pc: nat, rows: seq<Row<T>>, vb: seq<T>, ghost c0: seq<T>,
                      ghost pc0: nat, ghost pa: nat,
                      ghost pb: nat, ghost vl: nat, r: nat, ghost hits0: multiset<nat>, ghost hits: multiset<nat>)
    returns (ghost hits': multiset<nat>)
    requires 0 < m.N && AllInStep(m, rows, pa, pb, m.N - 1, vl) && vb == RowOf(m, pb, m.N - 1, vl)
    requires r < |rows| && pc == pc0 + r * m.P && pc0 + (|rows| - 1) * m.P + vl <= c.Length
    requires Partly(m, c0, c[..], pc0, pa, pb, vl, r, hits0, hits)
    modifies c
    ensures Partly(m, c0, c[..], pc0, pa, pb, vl, r + 1, hits0, hits')
  {
    MulMono(r, |rows| - 1, m.P);
    assert InStep(m, rows[r], RowAt(pa, r, m.N), pb, m.N - 1, vl);
    AccStep(m, RowAt(pa, r, m.N), pb, m.N - 1, vl);
    var v := Vfmacc(m.fma, rows[r].v, rows[r].t, vb);
    ghost var next := Block(m, pa, pb, vl, r + 1);
    assert next[..r] == Block(m, pa, pb, vl, r);
    assert next[r] == v;
    hits' := Vse(c, pc, v, hits);
  }

  /** The kernels `fmatmul_vec_4x4`, `_8x8` and `_16x16`: the same double-buffered pipeline,
    * unrolled there over 4, 8 or 16 rows. */
  method FmatmulVec<T>(m: Product<T>, c: array<T>, pc: nat, pa: nat, pb: nat, vl: nat, count: nat,
                       ghost hits: multiset<nat>)
    returns (ghost hits': multiset<nat>)
    requires Runs(m, c.Length, pc, pa, pb, vl, count)
    modifies c
    ensures Partly(m, old(c[..]), c[..], pc, pa, pb, vl, count, hits, hits')
  {
    var rows, vb := Pipeline(m, pa, pb, vl, count);
    hits' := FinishAll(m, c, pc, rows, vb, pa, pb, vl, hits);
  }

  /** The pipelined loop: while the rows take a step with one slice of B, the next slice and
    * the next scalars are fetched. All but the last term of every sum is added here; the
    * last slice is left in `vbNext`. */
  method Pipeline<T>(m: Product<T>, pa0: nat, pb0: nat, vl: nat, count: nat) returns (rows: seq<Row<T>>, vbNext: seq<T>)
    requires 2 <= m.N && m.N % 2 == 0 && HoldsRows(m, pa0, count) && HoldsSlice(m, pb0, vl)
    ensures |rows| == count && AllInStep(m, rows, pa0, pb0, m.N - 1, vl)
    ensures vbNext == RowOf(m, pb0, m.N - 1, vl)
  {
    hide InPipeline;
    hide HoldsRows;
    hide HoldsSlice;
    var vb, pb;
    rows, vb, pb := Prologue(m, pa0, pb0, vl, count);
    vbNext := vb;  // loaded before it is read
    var n := 0;
    while n != m.N
      invariant n % 2 == 0 && n < m.N
      invariant InPipeline(m, rows, vb, pa0, pb0, pb, n, vl, count)
      decreases m.N - n
    {
      n := n + 1;
      rows, vbNext, pb := HalfIteration(m, rows, vb, pa0, pb0, pb, n, vl, count);
      n := n + 1;
      if n == m.N {
        break;
      }
      rows, vb, pb := HalfIteration(m, rows, vbNext, pa0, pb0, pb, n, vl, count);
    }
    PipelineEnd(m, rows, vbNext, pa0, pb0, pb, vl, count);
  }

  lemma PipelineEnd<T>(m: Product<T>, rows: seq<Row<T>>, vb: seq<T>, pa: nat, pb0: nat, pb: nat, vl: nat, count: nat)
    requires 0 < m.N && InPipeline(m, rows, vb, pa, pb0, pb, m.N - 1, vl, count)
    ensures |rows| == count && AllInStep(m, rows, pa, pb0, m.N - 1, vl) && vb == RowOf(m, pb0, m.N - 1, vl)
  {
  }

  /** The prefetches before the loop. */
  method Prologue<T>(m: Product<T>, pa: nat, pb: nat, vl: nat, count: nat)
    returns (rows: seq<Row<T>>, vb: seq<T>, pb': nat)
    requires 0 < m.N && HoldsRows(m, pa, count) && HoldsSlice(m, pb, vl)
    ensures InPipeline(m, rows, vb, pa, pb, pb', 0, vl, count)
  {
    assert AtRow(m, pb, 0, pb);
    LoadRow(m, pb, 0, pb, vl);
    vb := Vle(m.b, pb, vl);
    pb' := pb + m.P;
    rows := FetchAll(m, pa, pb, vl, count);
  }

  /** With `n` terms summed, slice `n` is in `vb` and the pointer is at slice n + 1. */
  ghost predicate InPipeline<T>(m: Product<T>, rows: seq<Row<T>>, vb: seq<T>, pa: nat, pb0: nat, pb: nat, n: nat,
                                vl: nat, count: nat) {
    |rows| == count && AllInStep(m, rows, pa, pb0, n, vl) && vb == RowOf(m, pb0, n, vl) && AtRow(m, pb0, n + 1, pb)
  }

  /** Half of an iteration: a step with one slice while the next one is loaded. */
  method HalfIteration<T>(m: Product<T>, rows: seq<Row<T>>, vb: seq<T>, pa0: nat, ghost pb0: nat, pb: nat, n: nat,
                          vl: nat, ghost count: nat)
    returns (rows': seq<Row<T>>, vb': seq<T>, pb': nat)
    requires 0 < n < m.N && HoldsRows(m, pa0, count) && HoldsSlice(m, pb0, vl)
    requires InPipeline(m, rows, vb, pa0, pb0, pb, n - 1, vl, count)
    ensures InPipeline(m, rows', vb', pa0, pb0, pb', n, vl, count)
  {
    LoadRow(m, pb0, n, pb, vl);
    rows' := StepAll(m, rows, vb, pa0 + n, pa0, pb0, n - 1, vl);
    vb' := Vle(m.b, pb, vl);
    pb' := pb + m.P;
  }

  // ----- Tiling ----------------------------------------------------------------------

  /** Cell (i, j) is done when its column slice is, or is being done and its row is. */
  predicate Done(i: nat, j: nat, p: nat, width: nat, rows: nat) {
    j < p || (j < p + width && i < rows)
  }

  /** Index `x` of C after columns below `p`, and columns [p, p + width) of the first `rows`
    * rows, are done: the naive product and written once, or untouched. */
  ghost predicate CellOk<T>(m: Product<T>, M: nat, c0: seq<T>, c: seq<T>, x: nat, p: nat, width: nat, rows: nat,
                            hits: multiset<nat>)
    requires |c| == |c0|
  {
    if 0 < m.P && x < |c| && x / m.P < M && Done(x / m.P, x % m.P, p, width, rows)
    then c[x] == Dot(m, x / m.P * m.N, x % m.P, m.N) && hits[x] == 1
    else (x < |c| ==> c[x] == c0[x]) && hits[x] == 0
  }

  ghost predicate Progress<T>(m: Product<T>, M: nat, c0: seq<T>, c: seq<T>, p: nat, width: nat, rows: nat,
                              hits: multiset<nat>) {
    |c| == |c0| && forall x: nat :: CellOk(m, M, c0, c, x, p, width, rows, hits)
  }

  /** A row slice, in terms of the row and column of an index. */
  lemma SpanCell(x: nat, i: nat, p: nat, vl: nat, P: nat)
    requires 0 < P && p + vl <= P
    ensures InSpan(i * P + p, vl, x) <==> x / P == i && p <= x % P < p + vl
    ensures x / P == i ==> x == i * P + x % P
  {
    if InSpan(i * P + p, vl, x) {
      DivUnique(x, P, i, x - i * P);
    }
  }

  lemma AccAt<T>(m: Product<T>, ia: nat, pb: nat, n: nat, vl: nat, j: nat)
    requires j < vl
    ensures Acc(m, ia, pb, n, vl)[j] == Dot(m, ia, pb + j, n)
  {
    hide Dot;
  }

  /** Storing one finished row slice. */
  lemma RowCell<T>(m: Product<T>, before: seq<T>, i: nat, p: nat, vl: nat, x: nat)
    requires 0 < m.P && p + vl <= m.P && i * m.P + p + vl <= |before|
    ensures var after := Stored(before, i * m.P + p, Acc(m, i * m.N, p, m.N, vl));
            && |after| == |before|
            && (x < |before| ==>
                  after[x] == if x / m.P == i && p <= x % m.P < p + vl then Dot(m, x / m.P * m.N, x % m.P, m.N)
                              else before[x])
  {
    hide Stored;
    hide Dot;
    hide Acc;
    SpanCell(x, i, p, vl, m.P);
    var row := Acc(m, i * m.N, p, m.N, vl);
    if x < |before| {
      StoredAt(before, i * m.P + p, row, x);
      if x / m.P == i && p <= x % m.P < p + vl {
        AccAt(m, i * m.N, p, m.N, vl, x % m.P - p);
      }
    }
  }

  /** Storing a block changes exactly its cells, to the naive product, each once. */
  lemma {:induction false} BlockCell<T>(m: Product<T>, c: seq<T>, i0: nat, p: nat, vl: nat, count: nat, x: nat)
    requires 0 < m.P && p + vl <= m.P && (i0 + count) * m.P <= |c|
    ensures var inside := i0 <= x / m.P < i0 + count && p <= x % m.P < p + vl;
            var after := StoredRows(c, i0 * m.P + p, m.P, Block(m, i0 * m.N, p, vl, count));
            && |after| == |c|
            && (x < |c| ==> after[x] == if inside then Dot(m, x / m.P * m.N, x % m.P, m.N) else c[x])
            && RowsHit(x, i0 * m.P + p, m.P, vl, count) == if inside then 1 else 0
    decreases count
  {
    if count > 0 {
      var k := count - 1;
      MulMono(i0 + k, i0 + count, m.P);
      BlockCell(m, c, i0, p, vl, k, x);
      BlockRow(m, c, i0, p, vl, k, x);
    }
  }

  /** One more row of a block. */
  lemma BlockRow<T>(m: Product<T>, c: seq<T>, i0: nat, p: nat, vl: nat, k: nat, x: nat)
    requires 0 < m.P && p + vl <= m.P && (i0 + (k + 1)) * m.P <= |c|
    requires |StoredRows(c, i0 * m.P + p, m.P, Block(m, i0 * m.N, p, vl, k))| == |c|
    ensures var inside := x / m.P == i0 + k && p <= x % m.P < p + vl;
            var before := StoredRows(c, i0 * m.P + p, m.P, Block(m, i0 * m.N, p, vl, k));
            var after := StoredRows(c, i0 * m.P + p, m.P, Block(m, i0 * m.N, p, vl, k + 1));
            && |after| == |c|
            && (x < |c| ==> after[x] == if inside then Dot(m, x / m.P * m.N, x % m.P, m.N) else before[x])
            && RowsHit(x, i0 * m.P + p, m.P, vl, k + 1)
              == RowsHit(x, i0 * m.P + p, m.P, vl, k) + if inside then 1 else 0
  {
    hide StoredRows;
    hide RowsHit;
    hide Block;
    hide Dot;
    hide Acc;
    hide Stored;
    Distribute(i0 + k, 1, m.P);
    BlockRowStored(m, c, i0, p, vl, k);
    BlockRowHits(m, i0, p, vl, k, x);
    SpanCell(x, i0 + k, p, vl, m.P);
    RowCell(m, StoredRows(c, i0 * m.P + p, m.P, Block(m, i0 * m.N, p, vl, k)), i0 + k, p, vl, x);
  }

  lemma BlockRowStored<T>(m: Product<T>, c: seq<T>, i0: nat, p: nat, vl: nat, k: nat)
    requires |StoredRows(c, i0 * m.P + p, m.P, Block(m, i0 * m.N, p, vl, k))| == |c|
    requires (i0 + k) * m.P + p + vl <= |c|
    ensures StoredRows(c, i0 * m.P + p, m.P, Block(m, i0 * m.N, p, vl, k + 1))
         == Stored(StoredRows(c, i0 * m.P + p, m.P, Block(m, i0 * m.N, p, vl, k)), (i0 + k) * m.P + p,
                   Acc(m, (i0 + k) * m.N, p, m.N, vl))
  {
    hide StoredRows;
    hide Block;
    hide Acc;
    hide Stored;
    Distribute(i0, k, m.P);
    BlockSnoc(m, i0, p, vl, k);
    StoredSnoc(c, i0 * m.P + p, m.P, Block(m, i0 * m.N, p, vl, k), Acc(m, (i0 + k) * m.N, p, m.N, vl));
  }

  lemma BlockRowHits<T>(m: Product<T>, i0: nat, p: nat, vl: nat, k: nat, x: nat)
    ensures RowsHit(x, i0 * m.P + p, m.P, vl, k + 1)
         == RowsHit(x, i0 * m.P + p, m.P, vl, k) + if InSpan((i0 + k) * m.P + p, vl, x) then 1 else 0
  {
    Distribute(i0, k, m.P);
    RowsHitSnoc(x, i0 * m.P + p, m.P, vl, k);
  }

  lemma BlockSnoc<T>(m: Product<T>, i0: nat, p: nat, vl: nat, k: nat)
    ensures |Block(m, i0 * m.N, p, vl, k)| == k
    ensures Block(m, i0 * m.N, p, vl, k + 1) == Block(m, i0 * m.N, p, vl, k) + [Acc(m, (i0 + k) * m.N, p, m.N, vl)]
  {
    hide Acc;
    Distribute(i0, k, m.N);
  }

  lemma StoredSnoc<T>(c: seq<T>, at: nat, P: nat, rows: seq<seq<T>>, row: seq<T>)
    ensures var before := StoredRows(c, at, P, rows);
            StoredRows(c, at, P, rows + [row])
            == if at + |rows| * P + |row| <= |before| then Stored(before, at + |rows| * P, row) else before
  {
    hide Stored;
    assert (rows + [row])[..|rows|] == rows;
  }

  lemma RowsHitSnoc(x: nat, at: nat, P: nat, vl: nat, rows: nat)
    ensures RowsHit(x, at, P, vl, rows + 1)
            == RowsHit(x, at, P, vl, rows) + if InSpan(at + rows * P, vl, x) then 1 else 0
  {
  }

  lemma Distribute(i: nat, k: nat, d: nat)
    ensures (i + k) * d == i * d + k * d
  {
  }

  /** A block of `count` rows brings the cells of its rows and columns from untouched to done. */
  lemma BlockProgress<T>(m: Product<T>, M: nat, c0: seq<T>, c: seq<T>, c': seq<T>, p: nat, vl: nat, rows: nat,
                         count: nat,
                         hits: multiset<nat>, hits': multiset<nat>)
    requires 0 < m.P && p + vl <= m.P && rows + count <= M && M * m.P <= |c|
    requires Progress(m, M, c0, c, p, vl, rows, hits)
    requires Partly(m, c, c', rows * m.P + p, rows * m.N, p, vl, count, hits, hits')
    ensures Progress(m, M, c0, c', p, vl, rows + count, hits')
  {
    var rows' := rows + count;
    MulMono(rows', M, m.P);
    BlockCell(m, c, rows, p, vl, count, 0);
    forall x: nat ensures CellOk(m, M, c0, c', x, p, vl, rows', hits') {
      assert CellOk(m, M, c0, c, x, p, vl, rows, hits);
      CellProgress(m, M, c0, c, c', p, vl, rows, count, hits, hits', x);
    }
  }

  lemma CellProgress<T>(m: Product<T>, M: nat, c0: seq<T>, c: seq<T>, c': seq<T>, p: nat, vl: nat, rows: nat,
                        count: nat,
                        hits: multiset<nat>, hits': multiset<nat>, x: nat)
    requires 0 < m.P && p + vl <= m.P && rows + count <= M && (rows + count) * m.P <= |c| && |c| == |c'| == |c0|
    requires CellOk(m, M, c0, c, x, p, vl, rows, hits) && M * m.P <= |c|
    requires Partly(m, c, c', rows * m.P + p, rows * m.N, p, vl, count, hits, hits')
    ensures CellOk(m, M, c0, c', x, p, vl, rows + count, hits')
  {
    hide StoredRows;
    hide Block;
    hide RowsHit;
    hide Dot;
    BlockCell(m, c, rows, p, vl, count, x);
    InsideC(x, M, m.P, |c|);
  }

  /** Indices of C beyond its last row have no row. */
  lemma InsideC(x: nat, M: nat, P: nat, length: nat)
    requires 0 < P && M * P <= length
    ensures x / P < M ==> x < length
  {
    if x / P < M {
      MulMono(x / P + 1, M, P);
      Distribute(x / P, 1, P);
    }
  }

  /** Finishing a slice, for all rows, moves on to the next. */
  lemma SliceProgress<T>(m: Product<T>, M: nat, c0: seq<T>, c: seq<T>, p: nat, p': nat, width: nat, hits: multiset<nat>)
    requires 0 < m.P && (p' == p + width || (m.P <= p' && m.P <= p + width)) && Progress(m, M, c0, c, p, width, M, hits)
    ensures Progress(m, M, c0, c, p', 0, 0, hits)
  {
    forall x: nat ensures CellOk(m, M, c0, c, x, p', 0, 0, hits) {
      assert CellOk(m, M, c0, c, x, p, width, M, hits);
    }
  }

  lemma StartSlice<T>(m: Product<T>, M: nat, c0: seq<T>, c: seq<T>, p: nat, width: nat, hits: multiset<nat>)
    requires Progress(m, M, c0, c, p, 0, 0, hits)
    ensures Progress(m, M, c0, c, p, width, 0, hits)
  {
    hide CellOk;
    forall x: nat ensures CellOk(m, M, c0, c, x, p, width, 0, hits) {
      assert CellOk(m, M, c0, c, x, p, 0, 0, hits);
      CellStarts(m, M, c0, c, x, p, width, hits);
    }
  }

  lemma CellStarts<T>(m: Product<T>, M: nat, c0: seq<T>, c: seq<T>, x: nat, p: nat, width: nat, hits: multiset<nat>)
    requires |c| == |c0| && CellOk(m, M, c0, c, x, p, 0, 0, hits)
    ensures CellOk(m, M, c0, c, x, p, width, 0, hits)
  {
    hide Dot;
    if 0 < m.P {
      assert Done(x / m.P, x % m.P, p, width, 0) == Done(x / m.P, x % m.P, p, 0, 0);
    }
  }

  /** The matrices have their rows, the terms come in pairs, and blocks divide the rows. */
  ghost predicate Shaped<T>(m: Product<T>, M: nat, cLength: nat, blockSize: nat) {
    && 2 <= m.N && m.N % 2 == 0
    && M * m.N <= |m.a| && m.N * m.P <= |m.b| && M * m.P <= cLength
    && 0 < blockSize && M % blockSize == 0
  }

  /** Blocks tile the rows. */
  lemma NextBlock(M: nat, blockSize: nat, rows: nat)
    requires 0 < blockSize && M % blockSize == 0 && rows % blockSize == 0 && rows < M
    ensures rows + blockSize <= M && (rows + blockSize) % blockSize == 0
  {
    var q, k := M / blockSize, rows / blockSize;
    assert M == q * blockSize && rows == k * blockSize;
    if q <= k {
      MulMono(q, k, blockSize);
      assert false;
    }
    MulMono(k + 1, q, blockSize);
    Distribute(k, 1, blockSize);
    DivUnique(rows + blockSize, blockSize, k + 1, 0);
  }

  /** A block of A, B and C inside the matrices. */
  lemma BlockRuns<T>(m: Product<T>, M: nat, cLength: nat, blockSize: nat, p: nat, vl: nat, rows: nat)
    requires Shaped(m, M, cLength, blockSize) && p + vl <= m.P && rows + blockSize <= M
    ensures Runs(m, cLength, rows * m.P + p, rows * m.N, p, vl, blockSize)
  {
    BlockRows(rows, blockSize, M, m.N);
    BlockRows(rows, blockSize, M, m.P);
    Distribute(m.N - 1, 1, m.P);
  }

  lemma BlockRows(rows: nat, blockSize: nat, M: nat, stride: nat)
    requires rows + blockSize <= M && 0 < blockSize
    ensures rows * stride + blockSize * stride <= M * stride
    ensures rows * stride + (blockSize - 1) * stride + stride <= M * stride
  {
    MulMono(rows + blockSize, M, stride);
    Distribute(rows, blockSize, stride);
    Distribute(blockSize - 1, 1, stride);
  }

  lemma NoProgress<T>(m: Product<T>, M: nat, c: seq<T>)
    ensures Progress(m, M, c, c, 0, 0, 0, multiset{})
  {
    hide Dot;
    forall x: nat ensures CellOk(m, M, c, c, x, 0, 0, 0, multiset{}) {
    }
  }

  /** `fmatmul_4x4`, `_8x8` and `_16x16`: column slices as wide as the vector unit allows,
    * and in each slice one block of rows after another. */
  method Tiled<T>(m: Product<T>, c: array<T>, M: nat, blockSize: nat, vlmax: nat) returns (ghost hits: multiset<nat>)
    requires Shaped(m, M, c.Length, blockSize) && 0 < vlmax
    modifies c
    ensures m.P > 0 ==> Progress(m, M, old(c[..]), c[..], m.P, 0, 0, hits)
    ensures m.P == 0 ==> c[..] == old(c[..]) && hits == multiset{}
  {
    hide Progress;
    hide Shaped;
    var P := m.P;
    hits := multiset{};
    var blockSizeP := Vsetvli(P, vlmax);
    if P == 0 {
      return;
    }
    ghost var c0 := c[..];
    NoProgress(m, M, c0);
    var p := 0;
    while p < P
      invariant Progress(m, M, c0, c[..], p, 0, 0, hits)
    {
      var p_ := if P - p < blockSizeP then P - p else blockSizeP;
      var vl := Vsetvli(p_, vlmax);
      StartSlice(m, M, c0, c[..], p, vl, hits);
      hits := Slice(m, c, M, blockSize, p, vl, c0, hits);
      SliceProgress(m, M, c0, c[..], p, p + blockSizeP, vl, hits);
      p := p + blockSizeP;
    }
    Clip(m, M, c0, c[..], p, hits);
  }

  lemma Clip<T>(m: Product<T>, M: nat, c0: seq<T>, c: seq<T>, p: nat, hits: multiset<nat>)
    requires 0 < m.P <= p && Progress(m, M, c0, c, p, 0, 0, hits)
    ensures Progress(m, M, c0, c, m.P, 0, 0, hits)
  {
    forall x: nat ensures CellOk(m, M, c0, c, x, m.P, 0, 0, hits) {
      assert CellOk(m, M, c0, c, x, p, 0, 0, hits);
    }
  }

  lemma Shapes<T>(m: Product<T>, M: nat, cLength: nat, blockSize: nat)
    requires Shaped(m, M, cLength, blockSize)
    ensures M * m.P <= cLength && 0 < blockSize && M % blockSize == 0
  {
  }

  /** The loop over the blocks of rows of one column slice. */
  method Slice<T>(m: Product<T>, c: array<T>, M: nat, blockSize: nat, p: nat, vl: nat, ghost c0: seq<T>,
                  ghost hits0: multiset<nat>)
    returns (ghost hits: multiset<nat>)
    requires Shaped(m, M, c.Length, blockSize) && 0 < m.P && p + vl <= m.P
    requires Progress(m, M, c0, c[..], p, vl, 0, hits0)
    modifies c
    ensures Progress(m, M, c0, c[..], p, vl, M, hits)
  {
    hide Progress;
    hide Partly;
    hide Runs;
    hide Shaped;
    hits := hits0;
    Shapes(m, M, c.Length, blockSize);
    var rows := 0;
    while rows < M
      invariant rows % blockSize == 0 && rows <= M
      invariant Progress(m, M, c0, c[..], p, vl, rows, hits)
    {
      NextBlock(M, blockSize, rows);
      BlockRuns(m, M, c.Length, blockSize, p, vl, rows);
      ghost var before, hitsBefore := c[..], hits;
      hits := FmatmulVec(m, c, p + rows * m.P, rows * m.N, p, vl, blockSize, hits);
      BlockProgress(m, M, c0, before, c[..], p, vl, rows, blockSize, hitsBefore, hits);
      rows := rows + blockSize;
    }
  }

  /** The block size chosen for a matrix of M rows. */
  function BlockSize(M: nat): nat {
    if M <= 4 then 4 else if M <= 8 then 8 else if M <= 64 then 16 else if M <= 128 then 8 else 4
  }

  /** `fmatmul`: whichever kernel is chosen, and however long the vectors are, every element
    * of C is the naive sum of products in order, is written exactly once, and nothing else
    * is written. `vlen64` is the length of a vector register in doubles. */
  method Matmul<T(!new)>(m: Product<T>, c: array<T>, M: nat, vlen64: nat) returns (ghost hits: multiset<nat>)
    requires Shaped(m, M, c.Length, BlockSize(M)) && 0 < vlen64
    modifies c
    ensures forall i, j | 0 <= i < M && 0 <= j < m.P ::
              && 0 <= Cell(i, j, m.P) < c.Length
              && c[Cell(i, j, m.P)] == Dot(m, i * m.N, j, m.N) && hits[Cell(i, j, m.P)] == 1
    ensures forall x: nat | M * m.P <= x :: (x < c.Length ==> c[x] == old(c[x])) && hits[x] == 0
    ensures forall i: nat, j: nat | i < M && j < m.P :: Element(m, c[..], i, j)
  {
    if M <= 4 {
      hits := Tiled(m, c, M, 4, 4 * vlen64);
    } else if M <= 8 {
      hits := Tiled(m, c, M, 8, 2 * vlen64);
    } else if M <= 64 {
      hits := Tiled(m, c, M, 16, 1 * vlen64);
    } else if M <= 128 {
      hits := Tiled(m, c, M, 8, 2 * vlen64);
    } else {
      hits := Tiled(m, c, M, 4, 4 * vlen64);
    }
    Finished(m, M, old(c[..]), c[..], hits);
    forall i: nat, j: nat | i < M && j < m.P ensures Element(m, c[..], i, j) {
      assert c[..][Cell(i, j, m.P)] == c[Cell(i, j, m.P)] == Dot(m, i * m.N, j, m.N);
      DotElement(m, M, c[..], i, j);
    }
  }

  // ----- What an element is, in the matrices alone -----------------------------------

  /** The next partial sum takes in the `k`-th elements of row `i` of A and column `j` of B. */
  ghost predicate TakesIn<T>(m: Product<T>, i: nat, j: nat, p: seq<T>, k: nat)
    requires k + 1 < |p|
  {
    && 0 <= i * m.N + k < |m.a| && 0 <= k * m.P + j < |m.b|
    && p[k + 1] == m.fma(m.a[i * m.N + k], m.b[k * m.P + j], p[k])
  }

  /** `p` holds the partial sums for row `i` of A and column `j` of B, from zero. */
  ghost predicate PartialSums<T>(m: Product<T>, i: nat, j: nat, p: seq<T>) {
    |p| == m.N + 1 && p[0] == m.zero && forall k: nat | k < m.N :: TakesIn(m, i, j, p, k)
  }

  /** Element (i, j) of C is the last of the partial sums. */
  ghost predicate Element<T(!new)>(m: Product<T>, c: seq<T>, i: nat, j: nat) {
    0 <= i * m.P + j < |c| && exists p :: PartialSums(m, i, j, p) && p[m.N] == c[i * m.P + j]
  }

  lemma DotElement<T(!new)>(m: Product<T>, M: nat, c: seq<T>, i: nat, j: nat)
    requires i < M && j < m.P && M * m.N <= |m.a| && m.N * m.P <= |m.b|
    requires 0 <= Cell(i, j, m.P) < |c| && c[Cell(i, j, m.P)] == Dot(m, i * m.N, j, m.N)
    ensures Element(m, c, i, j)
  {
    var p := seq(m.N + 1, k requires 0 <= k => Dot(m, i * m.N, j, k));
    forall k: nat | k < m.N ensures TakesIn(m, i, j, p, k) {
      RowBelow(i, M, k, m.N);
      RowBelow(k, m.N, j, m.P);
      DotTerm(m, i * m.N, j, k);
    }
    assert PartialSums(m, i, j, p);
  }

  lemma DotTerm<T>(m: Product<T>, ia: nat, jb: nat, k: nat)
    requires 0 <= ia + k < |m.a| && 0 <= k * m.P + jb < |m.b|
    ensures Dot(m, ia, jb, k + 1) == m.fma(m.a[ia + k], m.b[k * m.P + jb], Dot(m, ia, jb, k))
  {
  }

  lemma RowBelow(i: nat, rows: nat, k: nat, stride: nat)
    requires i < rows && k < stride
    ensures 0 <= i * stride + k < rows * stride
  {
    MulMono(i + 1, rows, stride);
    Distribute(i, 1, stride);
  }

  /** Where multiply-add is exact, as on integers, an element is the sum of the products along its row and column. */
  lemma ElementIsSum(m: Product<int>, c: seq<int>, i: nat, j: nat)
    requires Element(m, c, i, j) && m.N > 0 && m.zero == 0 && forall x, y, z :: m.fma(x, y, z) == x * y + z
    ensures 0 <= i * m.N && i * m.N + m.N <= |m.a| && forall k: nat | k < m.N :: 0 <= BIndex(m, j, k) < |m.b|
    ensures var row, column := m.a[i * m.N..i * m.N + m.N], seq(m.N, k requires 0 <= k < m.N => m.b[BIndex(m, j, k)]);
            c[i * m.P + j] == Dotproduct.Sum(row, column, 0, m.N)
  {
    var p :| PartialSums(m, i, j, p) && p[m.N] == c[i * m.P + j];
    assert TakesIn(m, i, j, p, m.N - 1) && TakesIn(m, i, j, p, 0);
    forall k: nat | k < m.N ensures 0 <= BIndex(m, j, k) < |m.b| {
      assert TakesIn(m, i, j, p, k);
    }
    SumsUpTo(m, i, j, p, m.N);
  }

  function BIndex(m: Product<int>, j: nat, k: nat): int { k * m.P + j }

  lemma {:induction false} SumsUpTo(m: Product<int>, i: nat, j: nat, p: seq<int>, n: nat)
    requires PartialSums(m, i, j, p) && m.zero == 0 && forall x, y, z :: m.fma(x, y, z) == x * y + z
    requires n <= m.N && 0 <= i * m.N && i * m.N + m.N <= |m.a|
    requires forall k: nat | k < m.N :: 0 <= BIndex(m, j, k) < |m.b|
    ensures var row, column := m.a[i * m.N..i * m.N + m.N], seq(m.N, k requires 0 <= k < m.N => m.b[BIndex(m, j, k)]);
            p[n] == Dotproduct.Sum(row, column, 0, n)
  {
    var row, column := m.a[i * m.N..i * m.N + m.N], seq(m.N, k requires 0 <= k < m.N => m.b[BIndex(m, j, k)]);
    if n == 0 {
      Dotproduct.SumNothing(row, column, 0);
    } else {
      SumsUpTo(m, i, j, p, n - 1);
      Dotproduct.SumStep(row, column, 0, n);
      assert TakesIn(m, i, j, p, n - 1);
      assert column[n - 1] == m.b[BIndex(m, j, n - 1)];
      assert row[n - 1] == m.a[i * m.N + (n - 1)];
    }
  }

  /** The index of element (i, j) of C. */
  function Cell(i: int, j: int, P: int): int { i * P + j }

  lemma Finished<T>(m: Product<T>, M: nat, c0: seq<T>, c: seq<T>, hits: multiset<nat>)
    requires M * m.P <= |c| && |c0| == |c|
    requires if m.P > 0 then Progress(m, M, c0, c, m.P, 0, 0, hits) else c == c0 && hits == multiset{}
    ensures forall i, j | 0 <= i < M && 0 <= j < m.P ::
              && 0 <= Cell(i, j, m.P) < |c|
              && c[Cell(i, j, m.P)] == Dot(m, i * m.N, j, m.N) && hits[Cell(i, j, m.P)] == 1
    ensures forall x: nat | M * m.P <= x :: (x < |c| ==> c[x] == c0[x]) && hits[x] == 0
  {
    forall i, j | 0 <= i < M && 0 <= j < m.P
      ensures 0 <= Cell(i, j, m.P) < |c|
      ensures c[Cell(i, j, m.P)] == Dot(m, i * m.N, j, m.N) && hits[Cell(i, j, m.P)] == 1
    {
      MulMono(0, i, m.P);
      MulMono(i + 1, M, m.P);
      Distribute(i, 1, m.P);
      DivUnique(i * m.P + j, m.P, i, j);
      assert CellOk(m, M, c0, c, i * m.P + j, m.P, 0, 0, hits);
    }
    forall x: nat | M * m.P <= x && m.P > 0 ensures (x < |c| ==> c[x] == c0[x]) && hits[x] == 0 {
      BeyondC(x, M, m.P);
      assert CellOk(m, M, c0, c, x, m.P, 0, 0, hits);
    }
  }

  lemma BeyondC(x: nat, M: nat, P: nat)
    requires 0 < P && M * P <= x
    ensures M <= x / P
  {
    if x / P < M {
      MulMono(x / P + 1, M, P);
      Distribute(x / P, 1, P);
      assert false;
    }
  }
}
