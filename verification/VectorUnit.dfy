/** The part of the RISC-V "V" vector extension 1.0 that the kernels use. A register group
  * is the sequence of its first `vl` elements: the kernels run with the tail-agnostic
  * policy and never rely on an element past `vl`. */
module VectorUnit {

  /** Section 6.3: what `vsetvli` may answer for a requested length `avl`. */
  predicate LegalVl(avl: nat, vl: nat, vlmax: nat) {
    if avl <= vlmax then vl == avl
    else if avl < 2 * vlmax then (avl + 1) / 2 <= vl <= vlmax
    else vl == vlmax
  }

  /** Any legal answer. */
  method Vsetvli(avl: nat, vlmax: nat) returns (vl: nat)
    requires 0 < vlmax
    ensures LegalVl(avl, vl, vlmax)
  {
    assert LegalVl(avl, if avl <= vlmax then avl else vlmax, vlmax);
    vl :| LegalVl(avl, vl, vlmax);
  }

  /** `vmv.v.i`, with the element 0 given. */
  function Vmv<T>(x: T, vl: nat): seq<T> {
    seq(vl, _ => x)
  }

  /** `vle64.v` */
  function Vle<T>(mem: seq<T>, at: nat, vl: nat): seq<T>
    requires at + vl <= |mem|
  {
    mem[at..at + vl]
  }

  /** `vfmacc.vf`, the fused multiply-add being `fma(scalar, element, accumulator)`. */
  function Vfmacc<T>(fma: (T, T, T) -> T, vd: seq<T>, s: T, vs: seq<T>): seq<T>
    requires |vs| == |vd|
  {
    seq(|vd|, j requires 0 <= j < |vd| => fma(s, vs[j], vd[j]))
  }

  /** `mem` with `v` stored from index `at`. */
  ghost function Stored<T>(mem: seq<T>, at: nat, v: seq<T>): (s: seq<T>)
    requires at + |v| <= |mem|
    ensures |s| == |mem|
  {
    mem[..at] + v + mem[at + |v|..]
  }

  lemma StoredNothing<T>(mem: seq<T>, at: nat)
    requires at <= |mem|
    ensures Stored(mem, at, []) == mem
  {
  }

  lemma StoredStep<T>(mem: seq<T>, at: nat, v: seq<T>, j: nat)
    requires at + |v| <= |mem| && j < |v|
    ensures |Stored(mem, at, v[..j])| == |mem|
    ensures Stored(mem, at, v[..j + 1]) == Stored(mem, at, v[..j])[at + j := v[j]]
  {
    var l, r := Stored(mem, at, v[..j + 1]), Stored(mem, at, v[..j])[at + j := v[j]];
    forall x | 0 <= x < |mem| ensures l[x] == r[x] {
      StoredAt(mem, at, v[..j + 1], x);
      StoredAt(mem, at, v[..j], x);
    }
  }

  lemma StoredAt<T>(mem: seq<T>, at: nat, v: seq<T>, x: nat)
    requires at + |v| <= |mem| && x < |mem|
    ensures Stored(mem, at, v)[x] == if at <= x < at + |v| then v[x - at] else mem[x]
  {
  }

  ghost predicate InSpan(at: nat, n: nat, x: nat) { at <= x < at + n }

  ghost function Span(at: nat, n: nat): set<nat> {
    set x: nat | at <= x < at + n && InSpan(at, n, x)
  }

  /** `vse64.v`. The bag `hits` counts how often each index has been written. */
  method Vse<T>(c: array<T>, at: nat, v: seq<T>, ghost hits: multiset<nat>) returns (ghost hits': multiset<nat>)
    requires at + |v| <= c.Length
    modifies c
    ensures c[..] == Stored(old(c[..]), at, v)
    ensures hits' == hits + multiset(Span(at, |v|))
  {
    hide Stored;
    StoredNothing(c[..], at);
    assert v[..0] == [];
    for j := 0 to |v|
      invariant c[..] == Stored(old(c[..]), at, v[..j])
    {
      StoredStep(old(c[..]), at, v, j);
      c[at + j] := v[j];
    }
    assert v[..|v|] == v;
    hits' := hits + multiset(Span(at, |v|));
  }
}
