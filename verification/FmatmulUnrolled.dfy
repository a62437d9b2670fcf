/** The kernel `fmatmul_vec_4x4` as it is written, register by register: loads and multiply-adds interleaved, two
  * registers taking turns for the slices of B. It meets the contract of the kernel over any number of rows. */
module FmatmulUnrolled {
  import opened Fmatmul
  import opened VectorUnit

  /** The four rows as the general kernel sees them. */
  function Rows<T>(v0: seq<T>, v4: seq<T>, v8: seq<T>, v12: seq<T>, t0: T, t1: T, t2: T, t3: T): (rows: seq<Row<T>>)
    ensures |rows| == 4
  {
    [Row(v0, t0), Row(v4, t1), Row(v8, t2), Row(v12, t3)]
  }

  /** The pointers that step through the rows of a block. */
  lemma Pointers(pa: nat, N: nat)
    ensures RowAt(pa, 0, N) == pa && RowAt(pa, 1, N) == pa + N
    ensures RowAt(pa, 2, N) == pa + N + N && RowAt(pa, 3, N) == pa + N + N + N
  {
  }

  lemma RowsInStep<T>(m: Product<T>, rows: seq<Row<T>>, pa: nat, pb: nat, n: nat, vl: nat)
    requires |rows| == 4 && InStep(m, rows[0], RowAt(pa, 0, m.N), pb, n, vl)
             && InStep(m, rows[1], RowAt(pa, 1, m.N), pb, n, vl)
    requires InStep(m, rows[2], RowAt(pa, 2, m.N), pb, n, vl) && InStep(m, rows[3], RowAt(pa, 3, m.N), pb, n, vl)
    ensures AllInStep(m, rows, pa, pb, n, vl)
  {
    hide InStep;
    hide RowAt;
  }

  /** Before the loop: a slice of B, then one scalar for each row. */
  method Prefetch<T>(m: Product<T>, pa: nat, pb: nat, vl: nat)
    returns (v0: seq<T>, v4: seq<T>, v8: seq<T>, v12: seq<T>, t0: T, t1: T, t2: T, t3: T, v16: seq<T>, b: nat)
    requires 0 < m.N && HoldsRows(m, pa, 4) && HoldsSlice(m, pb, vl)
    ensures InPipeline(m, Rows(v0, v4, v8, v12, t0, t1, t2, t3), v16, pa, pb, b, 0, vl, 4)
  {
    hide InStep;
    hide RowAt;
    hide HoldsRows;
    hide HoldsSlice;
    hide RowOf;
    Pointers(pa, m.N);
    assert AtRow(m, pb, 0, pb);
    LoadRow(m, pb, 0, pb, vl);
    FetchOne(m, pa, pb, vl, 4, 0);
    FetchOne(m, pa, pb, vl, 4, 1);
    FetchOne(m, pa, pb, vl, 4, 2);
    FetchOne(m, pa, pb, vl, 4, 3);
    v0, v4, v8, v12 := Vmv(m.zero, vl), Vmv(m.zero, vl), Vmv(m.zero, vl), Vmv(m.zero, vl);
    v16 := Vle(m.b, pb, vl);
    b := pb + m.P;
    var a := pa;
    t0 := m.a[a];
    a := a + m.N;
    t1 := m.a[a];
    a := a + m.N;
    t2 := m.a[a];
    a := a + m.N;
    t3 := m.a[a];
    RowsInStep(m, Rows(v0, v4, v8, v12, t0, t1, t2, t3), pa, pb, 0, vl);
  }

  /** Half of the loop body: from the slice in `vb` to the slice in `vbNext`. */
  method Half<T>(m: Product<T>, v0: seq<T>, v4: seq<T>, v8: seq<T>, v12: seq<T>, t0: T, t1: T, t2: T, t3: T, vb: seq<T>,
                 a_: nat, ghost pb: nat, b: nat, n: nat, vl: nat)
    returns (v0': seq<T>, v4': seq<T>, v8': seq<T>, v12': seq<T>, t0': T, t1': T, t2': T, t3': T, vbNext: seq<T>,
             b': nat)
    requires 0 < n < m.N && HoldsRows(m, a_, 4) && HoldsSlice(m, pb, vl)
    requires InPipeline(m, Rows(v0, v4, v8, v12, t0, t1, t2, t3), vb, a_, pb, b, n - 1, vl, 4)
    ensures InPipeline(m, Rows(v0', v4', v8', v12', t0', t1', t2', t3'), vbNext, a_, pb, b', n, vl, 4)
  {
    hide InStep;
    hide RowAt;
    hide HoldsRows;
    hide HoldsSlice;
    hide RowOf;
    hide Vfmacc;
    var a := a_ + n;
    Pointers(a, m.N);
    LoadRow(m, pb, n, b, vl);
    StepOne(m, Row(v0, t0), vb, a, a_, pb, n - 1, vl, 4, 0);
    StepOne(m, Row(v4, t1), vb, a, a_, pb, n - 1, vl, 4, 1);
    StepOne(m, Row(v8, t2), vb, a, a_, pb, n - 1, vl, 4, 2);
    StepOne(m, Row(v12, t3), vb, a, a_, pb, n - 1, vl, 4, 3);
    v0' := Vfmacc(m.fma, v0, t0, vb);
    t0' := m.a[a];
    a := a + m.N;
    vbNext := Vle(m.b, b, vl);
    b' := b + m.P;
    v4' := Vfmacc(m.fma, v4, t1, vb);
    t1' := m.a[a];
    a := a + m.N;
    v8' := Vfmacc(m.fma, v8, t2, vb);
    t2' := m.a[a];
    a := a + m.N;
    v12' := Vfmacc(m.fma, v12, t3, vb);
    t3' := m.a[a];
    RowsInStep(m, Rows(v0', v4', v8', v12', t0', t1', t2', t3'), a_, pb, n, vl);
  }

  /** `fmatmul_vec_4x4`, with the clearing of its accumulators. */
  method FmatmulVec4x4<T>(m: Product<T>, c: array<T>, pc: nat, pa: nat, pb: nat, vl: nat, ghost hits: multiset<nat>)
    returns (ghost hits': multiset<nat>)
    requires Runs(m, c.Length, pc, pa, pb, vl, 4)
    modifies c
    ensures Partly(m, old(c[..]), c[..], pc, pa, pb, vl, 4, hits, hits')
  {
    hide InPipeline;
    hide HoldsRows;
    hide HoldsSlice;
    hide Partly;
    hide Rows;
    hide AllInStep;
    var v0, v4, v8, v12, t0, t1, t2, t3, v16, b := Prefetch(m, pa, pb, vl);
    var v20 := v16;  // loaded before it is read
    var n := 0;
    while n != m.N
      invariant n % 2 == 0 && n < m.N && c[..] == old(c[..])
      invariant InPipeline(m, Rows(v0, v4, v8, v12, t0, t1, t2, t3), v16, pa, pb, b, n, vl, 4)
      decreases m.N - n
    {
      n := n + 1;
      v0, v4, v8, v12, t0, t1, t2, t3, v20, b := Half(m, v0, v4, v8, v12, t0, t1, t2, t3, v16, pa, pb, b, n, vl);
      n := n + 1;
      if n == m.N {
        break;
      }
      v0, v4, v8, v12, t0, t1, t2, t3, v16, b := Half(m, v0, v4, v8, v12, t0, t1, t2, t3, v20, pa, pb, b, n, vl);
    }
    PipelineEnd(m, Rows(v0, v4, v8, v12, t0, t1, t2, t3), v20, pa, pb, b, vl, 4);
    assert c[..] == old(c[..]);
    hits' := FinishAll(m, c, pc, Rows(v0, v4, v8, v12, t0, t1, t2, t3), v20, pa, pb, vl, hits);
  }
}
