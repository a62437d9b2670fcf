/** Integer dot products, strip-mined and with eight accumulators (`dotproduct.c`). Elements
  * have w bits; `m` stands for 2^w and arithmetic wraps in two's complement. */
module Dotproduct {
  import opened Arith
  import opened VectorUnit

  /** Two's complement value of `x` in a word with `m` values. */
  function Wrap(x: int, m: nat): int
    requires 0 < m
  {
    (x + m / 2) % m - m / 2
  }

  ghost predicate Congruent(x: int, y: int, m: nat)
    requires 0 < m
  {
    x % m == y % m
  }

  lemma ModSum(x: int, y: int, m: nat)
    requires 0 < m
    ensures (x % m + y) % m == (x + y) % m
  {
    ModAddMultiple(x % m + y, x / m, m);
    assert x == x / m * m + x % m;
  }

  lemma CongruentAdd(x: int, x': int, y: int, y': int, m: nat)
    requires 0 < m && Congruent(x, x', m) && Congruent(y, y', m)
    ensures Congruent(x + y, x' + y', m)
  {
    ModSum(x, y, m);
    ModSum(x', y, m);
    ModSum(y, x', m);
    ModSum(y', x', m);
  }

  lemma CongruentTrans(x: int, y: int, z: int, m: nat)
    requires 0 < m && Congruent(x, y, m) && Congruent(y, z, m)
    ensures Congruent(x, z, m)
  {
  }

  lemma WrapCongruent(x: int, m: nat)
    requires 0 < m
    ensures Congruent(Wrap(x, m), x, m)
  {
    ModSum(x + m / 2, -(m / 2), m);
  }

  /** The signed word congruent to `x`, which is `x` itself if that is one. */
  lemma WrapIs(x: int, m: nat)
    requires 0 < m
    ensures -(m / 2) <= Wrap(x, m) < m - m / 2 && Wrap(x, m) % m == x % m
    ensures -(m / 2) <= x < m - m / 2 ==> Wrap(x, m) == x
  {
    WrapCongruent(x, m);
    if -(m / 2) <= x < m - m / 2 {
      ModSmall(x + m / 2, m);
    }
  }

  /** Words are equal exactly when the values are congruent. */
  lemma WrapEqual(x: int, y: int, m: nat)
    requires 0 < m
    ensures Wrap(x, m) == Wrap(y, m) <==> Congruent(x, y, m)
  {
    WrapCongruent(x, m);
    WrapCongruent(y, m);
    if Congruent(x, y, m) {
      CongruentAdd(x, y, m / 2, m / 2, m);
    }
  }

  lemma WrapAdd(x: int, y: int, m: nat)
    requires 0 < m
    ensures Wrap(Wrap(x, m) + y, m) == Wrap(x + y, m)
    ensures Wrap(Wrap(x, m) + Wrap(y, m), m) == Wrap(x + y, m)
  {
    WrapCongruent(x, m);
    WrapCongruent(y, m);
    CongruentAdd(Wrap(x, m), x, y, y, m);
    WrapEqual(Wrap(x, m) + y, x + y, m);
    CongruentAdd(Wrap(x, m), x, Wrap(y, m), y, m);
    WrapEqual(Wrap(x, m) + Wrap(y, m), x + y, m);
  }

  function Prod(a: seq<int>, b: seq<int>, i: nat): int
    requires i < |a| && i < |b|
  {
    a[i] * b[i]
  }

  /** The sum of a[i] * b[i] for lo <= i < hi. */
  ghost function Sum(a: seq<int>, b: seq<int>, lo: nat, hi: nat): int
    requires lo <= hi <= |a| && hi <= |b|
  {
    if lo == hi then 0 else Sum(a, b, lo, hi - 1) + Prod(a, b, hi - 1)
  }

  /** What `Sum` is: nothing for no terms, and one product more for each. */
  lemma SumNothing(a: seq<int>, b: seq<int>, lo: nat)
    requires lo <= |a| && lo <= |b|
    ensures Sum(a, b, lo, lo) == 0
  {
  }

  lemma SumStep(a: seq<int>, b: seq<int>, lo: nat, hi: nat)
    requires lo < hi <= |a| && hi <= |b|
    ensures Sum(a, b, lo, hi) == Sum(a, b, lo, hi - 1) + a[hi - 1] * b[hi - 1]
    ensures Prod(a, b, hi - 1) == a[hi - 1] * b[hi - 1]
  {
  }

  lemma {:induction false} SumSplit(a: seq<int>, b: seq<int>, lo: nat, mid: nat, hi: nat)
    requires lo <= mid <= hi <= |a| && hi <= |b|
    ensures Sum(a, b, lo, hi) == Sum(a, b, lo, mid) + Sum(a, b, mid, hi)
  {
    if mid < hi {
      SumSplit(a, b, lo, mid, hi - 1);
    }
  }

  // ----- Scalar ----------------------------------------------------------------------

  function RoundUp8(n: nat): nat { (n + 7) / 8 * 8 }

  /** Every eighth product, from lane `k`. */
  ghost function Lane(a: seq<int>, b: seq<int>, k: nat, i: nat): int
    requires k < 8 && i % 8 == 0 && i <= |a| && i <= |b|
  {
    if i == 0 then 0 else Lane(a, b, k, i - 8) + Prod(a, b, i - 8 + k)
  }

  ghost function LaneTotal(a: seq<int>, b: seq<int>, i: nat): int
    requires i % 8 == 0 && i <= |a| && i <= |b|
  {
    ((Lane(a, b, 0, i) + Lane(a, b, 1, i)) + (Lane(a, b, 2, i) + Lane(a, b, 3, i)))
    + ((Lane(a, b, 4, i) + Lane(a, b, 5, i)) + (Lane(a, b, 6, i) + Lane(a, b, 7, i)))
  }

  lemma {:induction false} LanesSum(a: seq<int>, b: seq<int>, i: nat)
    requires i % 8 == 0 && i <= |a| && i <= |b|
    ensures LaneTotal(a, b, i) == Sum(a, b, 0, i)
  {
    if i > 0 {
      LanesSum(a, b, i - 8);
      assert Sum(a, b, 0, i) == Sum(a, b, 0, i - 1) + Prod(a, b, i - 1);
      assert Sum(a, b, 0, i - 1) == Sum(a, b, 0, i - 2) + Prod(a, b, i - 2);
      assert Sum(a, b, 0, i - 2) == Sum(a, b, 0, i - 3) + Prod(a, b, i - 3);
      assert Sum(a, b, 0, i - 3) == Sum(a, b, 0, i - 4) + Prod(a, b, i - 4);
      assert Sum(a, b, 0, i - 4) == Sum(a, b, 0, i - 5) + Prod(a, b, i - 5);
      assert Sum(a, b, 0, i - 5) == Sum(a, b, 0, i - 6) + Prod(a, b, i - 6);
      assert Sum(a, b, 0, i - 6) == Sum(a, b, 0, i - 7) + Prod(a, b, i - 7);
    }
  }

  lemma LaneStep(a: seq<int>, b: seq<int>, k: nat, i: nat, m: nat)
    requires 0 < m && k < 8 && i % 8 == 0 && i + 8 <= |a| && i + 8 <= |b|
    ensures Wrap(Wrap(Lane(a, b, k, i), m) + Prod(a, b, i + k), m) == Wrap(Lane(a, b, k, i + 8), m)
  {
    WrapAdd(Lane(a, b, k, i), Prod(a, b, i + k), m);
  }

  /** `dotp_s64b` and its siblings. All products up to the next multiple of eight are summed. */
  method DotpS(a: seq<int>, b: seq<int>, avl: nat, m: nat) returns (r: int)
    requires 0 < m && RoundUp8(avl) <= |a| && RoundUp8(avl) <= |b|
    ensures r == Wrap(Sum(a, b, 0, RoundUp8(avl)), m)
    ensures -(m / 2) <= r < m - m / 2 && r % m == Sum(a, b, 0, (avl + 7) / 8 * 8) % m
    ensures avl % 8 == 0 ==> r % m == Sum(a, b, 0, avl) % m
    ensures avl % 8 == 0 && -(m / 2) <= Sum(a, b, 0, avl) < m - m / 2 ==> r == Sum(a, b, 0, avl)
  {
    hide Prod;
    hide LanesHeld;
    hide AddTree;
    hide Wrap;
    hide Sum;
    LanesStart(a, b, m);
    var acc0, acc1, acc2, acc3, acc4, acc5, acc6, acc7 := 0, 0, 0, 0, 0, 0, 0, 0;
    var i := 0;
    while i < avl
      invariant i % 8 == 0 && i <= RoundUp8(avl)
      invariant LanesHeld(a, b, i, m, acc0, acc1, acc2, acc3, acc4, acc5, acc6, acc7)
    {
      LanesStep(a, b, i, m, acc0, acc1, acc2, acc3, acc4, acc5, acc6, acc7);
      acc0 := Wrap(acc0 + Prod(a, b, i + 0), m);
      acc1 := Wrap(acc1 + Prod(a, b, i + 1), m);
      acc2 := Wrap(acc2 + Prod(a, b, i + 2), m);
      acc3 := Wrap(acc3 + Prod(a, b, i + 3), m);
      acc4 := Wrap(acc4 + Prod(a, b, i + 4), m);
      acc5 := Wrap(acc5 + Prod(a, b, i + 5), m);
      acc6 := Wrap(acc6 + Prod(a, b, i + 6), m);
      acc7 := Wrap(acc7 + Prod(a, b, i + 7), m);
      i := i + 8;
    }
    r := AddTree(acc0, acc1, acc2, acc3, acc4, acc5, acc6, acc7, m);
    LanesEnd(a, b, i, m, acc0, acc1, acc2, acc3, acc4, acc5, acc6, acc7);
    WrapIs(Sum(a, b, 0, i), m);
  }

  /** Each accumulator holds its lane, wrapped. */
  ghost predicate LanesHeld(a: seq<int>, b: seq<int>, i: nat, m: nat,
                            acc0: int, acc1: int, acc2: int, acc3: int, acc4: int, acc5: int, acc6: int, acc7: int)
    requires 0 < m && i % 8 == 0 && i <= |a| && i <= |b|
  {
    && acc0 == Wrap(Lane(a, b, 0, i), m) && acc1 == Wrap(Lane(a, b, 1, i), m)
    && acc2 == Wrap(Lane(a, b, 2, i), m) && acc3 == Wrap(Lane(a, b, 3, i), m)
    && acc4 == Wrap(Lane(a, b, 4, i), m) && acc5 == Wrap(Lane(a, b, 5, i), m)
    && acc6 == Wrap(Lane(a, b, 6, i), m) && acc7 == Wrap(Lane(a, b, 7, i), m)
  }

  lemma LanesStart(a: seq<int>, b: seq<int>, m: nat)
    requires 0 < m
    ensures LanesHeld(a, b, 0, m, 0, 0, 0, 0, 0, 0, 0, 0)
  {
    DivUnique(0 + m / 2, m, 0, m / 2);
  }

  lemma LanesStep(a: seq<int>, b: seq<int>, i: nat, m: nat,
                  acc0: int, acc1: int, acc2: int, acc3: int, acc4: int, acc5: int, acc6: int, acc7: int)
    requires 0 < m && i % 8 == 0 && i + 8 <= |a| && i + 8 <= |b|
    requires LanesHeld(a, b, i, m, acc0, acc1, acc2, acc3, acc4, acc5, acc6, acc7)
    ensures LanesHeld(a, b, i + 8, m,
                      Wrap(acc0 + Prod(a, b, i + 0), m), Wrap(acc1 + Prod(a, b, i + 1), m),
                      Wrap(acc2 + Prod(a, b, i + 2), m), Wrap(acc3 + Prod(a, b, i + 3), m),
                      Wrap(acc4 + Prod(a, b, i + 4), m), Wrap(acc5 + Prod(a, b, i + 5), m),
                      Wrap(acc6 + Prod(a, b, i + 6), m), Wrap(acc7 + Prod(a, b, i + 7), m))
  {
    hide Wrap;
    hide Prod;
    hide Lane;
    LaneStep(a, b, 0, i, m);
    LaneStep(a, b, 1, i, m);
    LaneStep(a, b, 2, i, m);
    LaneStep(a, b, 3, i, m);
    LaneStep(a, b, 4, i, m);
    LaneStep(a, b, 5, i, m);
    LaneStep(a, b, 6, i, m);
    LaneStep(a, b, 7, i, m);
  }

  lemma LanesEnd(a: seq<int>, b: seq<int>, i: nat, m: nat,
                 acc0: int, acc1: int, acc2: int, acc3: int, acc4: int, acc5: int, acc6: int, acc7: int)
    requires 0 < m && i % 8 == 0 && i <= |a| && i <= |b|
    requires LanesHeld(a, b, i, m, acc0, acc1, acc2, acc3, acc4, acc5, acc6, acc7)
    ensures AddTree(acc0, acc1, acc2, acc3, acc4, acc5, acc6, acc7, m) == Wrap(Sum(a, b, 0, i), m)
  {
    hide Wrap;
    hide AddTree;
    TreeSum(Lane(a, b, 0, i), Lane(a, b, 1, i), Lane(a, b, 2, i), Lane(a, b, 3, i),
            Lane(a, b, 4, i), Lane(a, b, 5, i), Lane(a, b, 6, i), Lane(a, b, 7, i), m);
    LanesSum(a, b, i);
  }

  /** The additions after the loop. */
  function AddTree(acc0: int, acc1: int, acc2: int, acc3: int, acc4: int, acc5: int, acc6: int, acc7: int, m: nat): int
    requires 0 < m
  {
    Wrap(Wrap(Wrap(acc0 + acc1, m) + Wrap(acc2 + acc3, m), m) + Wrap(Wrap(acc4 + acc5, m) + Wrap(acc6 + acc7, m), m), m)
  }

  lemma TreeSum(x0: int, x1: int, x2: int, x3: int, x4: int, x5: int, x6: int, x7: int, m: nat)
    requires 0 < m
    ensures AddTree(Wrap(x0, m), Wrap(x1, m), Wrap(x2, m), Wrap(x3, m), Wrap(x4, m), Wrap(x5, m), Wrap(x6, m),
                    Wrap(x7, m), m)
         == Wrap(((x0 + x1) + (x2 + x3)) + ((x4 + x5) + (x6 + x7)), m)
  {
    hide Wrap;
    WrapAdd(x0, x1, m);
    WrapAdd(x2, x3, m);
    WrapAdd(x4, x5, m);
    WrapAdd(x6, x7, m);
    WrapAdd(x0 + x1, x2 + x3, m);
    WrapAdd(x4 + x5, x6 + x7, m);
    WrapAdd((x0 + x1) + (x2 + x3), (x4 + x5) + (x6 + x7), m);
  }

  // ----- Vector ----------------------------------------------------------------------

  /** `vsetvli` of one implementation: the same answer for the same request. */
  ghost predicate Implements(vset: nat -> nat, vlmax: nat) {
    0 < vlmax && forall n: nat :: LegalVl(n, vset(n), vlmax)
  }

  /** The length of the last strip. */
  ghost function LastVl(vset: nat -> nat, vlmax: nat, avl: nat): nat
    requires Implements(vset, vlmax) && 0 < avl
  {
    assert LegalVl(avl, vset(avl), vlmax);
    if avl == vset(avl) then avl else LastVl(vset, vlmax, avl - vset(avl))
  }

  /** The products of the first `k` lanes of every strip. */
  ghost function Kept(a: seq<int>, b: seq<int>, vset: nat -> nat, vlmax: nat, off: nat, avl: nat, k: nat): int
    requires Implements(vset, vlmax) && off + avl <= |a| && off + avl <= |b|
    decreases avl
  {
    if avl == 0 then 0
    else
      assert LegalVl(avl, vset(avl), vlmax);
      var vl := vset(avl);
      Sum(a, b, off, off + if k < vl then k else vl) + Kept(a, b, vset, vlmax, off + vl, avl - vl, k)
  }

  /** Strips never get longer. */
  lemma {:induction false} LastVlLeast(vset: nat -> nat, vlmax: nat, avl: nat)
    requires Implements(vset, vlmax) && 0 < avl
    ensures 0 < LastVl(vset, vlmax, avl) <= vset(avl) <= vlmax
    decreases avl
  {
    assert LegalVl(avl, vset(avl), vlmax);
    if avl != vset(avl) {
      assert LegalVl(avl - vset(avl), vset(avl - vset(avl)), vlmax);
      LastVlLeast(vset, vlmax, avl - vset(avl));
    }
  }

  function Total(v: seq<int>): int {
    if v == [] then 0 else Total(v[..|v| - 1]) + v[|v| - 1]
  }

  /** `vmul.vv` */
  function Vmul(x: seq<int>, y: seq<int>, m: nat): seq<int>
    requires |x| == |y| && 0 < m
  {
    seq(|x|, j requires 0 <= j < |x| => Wrap(x[j] * y[j], m))
  }

  /** `vmacc.vv` on as many lanes as the operands have; later lanes are not kept. */
  function Vmacc(acc: seq<int>, x: seq<int>, y: seq<int>, m: nat): (r: seq<int>)
    requires |x| == |y| <= |acc| && 0 < m
    ensures |r| == |x|
  {
    seq(|x|, j requires 0 <= j < |x| => Wrap(acc[j] + x[j] * y[j], m))
  }

  /** What a strip adds to the first `k` lanes of the accumulator. */
  lemma {:induction false} StripTotal(acc: seq<int>, a: seq<int>, b: seq<int>, off: nat, vl: nat, k: nat, m: nat)
    requires 0 < m && off + vl <= |a| && off + vl <= |b| && vl <= |acc| && k <= vl
    ensures Congruent(Total(Vmacc(acc, a[off..off + vl], b[off..off + vl], m)[..k]),
                      Total(acc[..k]) + Sum(a, b, off, off + k), m)
  {
    hide Vmacc;
    hide Total;
    hide Sum;
    hide Wrap;
    hide Congruent;
    var x, y := a[off..off + vl], b[off..off + vl];
    var after := Vmacc(acc, x, y, m);
    if k == 0 {
      NoLanes(after, acc, a, b, off, m);
    } else {
      StripTotal(acc, a, b, off, vl, k - 1, m);
      TotalStep(after, k);
      TotalStep(acc, k);
      SumStep(a, b, off, off + k);
      VmaccAt(acc, x, y, m, k - 1);
      var term := Prod(a, b, off + (k - 1));
      WrapCongruent(acc[k - 1] + term, m);
      CongruentAdd(Total(after[..k - 1]), Total(acc[..k - 1]) + Sum(a, b, off, off + (k - 1)),
                   Wrap(acc[k - 1] + term, m), acc[k - 1] + term, m);
    }
  }

  lemma NoLanes(v: seq<int>, w: seq<int>, a: seq<int>, b: seq<int>, off: nat, m: nat)
    requires 0 < m && off <= |a| && off <= |b|
    ensures Congruent(Total(v[..0]), Total(w[..0]) + Sum(a, b, off, off + 0), m)
  {
  }

  lemma TotalStep(v: seq<int>, k: nat)
    requires 0 < k <= |v|
    ensures Total(v[..k]) == Total(v[..k - 1]) + v[k - 1]
  {
    assert v[..k][..k - 1] == v[..k - 1];
  }

  lemma VmaccAt(acc: seq<int>, x: seq<int>, y: seq<int>, m: nat, j: nat)
    requires |x| == |y| <= |acc| && 0 < m && j < |x|
    ensures Vmacc(acc, x, y, m)[j] == Wrap(acc[j] + x[j] * y[j], m)
  {
    hide Wrap;
  }

  lemma {:induction false} ZeroTotal(k: nat)
    ensures Total(seq(k, _ => 0)) == 0
  {
    if k > 0 {
      assert seq(k, _ => 0)[..k - 1] == seq(k - 1, _ => 0);
      ZeroTotal(k - 1);
    }
  }

  /** The first strip multiplies into a fresh register, as if it had held zeros. */
  lemma FirstStrip(x: seq<int>, y: seq<int>, m: nat)
    requires |x| == |y| && 0 < m
    ensures Vmul(x, y, m) == Vmacc(seq(|x|, _ => 0), x, y, m)
  {
  }

  /** `dotp_v64b` and its siblings: the final reduction reads only as many lanes as the last
    * strip has. */
  method DotpV(a: seq<int>, b: seq<int>, origAvl: nat, vset: nat -> nat, ghost vlmax: nat, m: nat) returns (red: int)
    requires 0 < m && 0 < origAvl <= |a| && origAvl <= |b| && Implements(vset, vlmax)
    ensures red == Wrap(Kept(a, b, vset, vlmax, 0, origAvl, LastVl(vset, vlmax, origAvl)), m)
    ensures -(m / 2) <= red < m - m / 2
    ensures origAvl <= vlmax || origAvl % vlmax == 0 ==>
              && red % m == Sum(a, b, 0, origAvl) % m
              && (-(m / 2) <= Sum(a, b, 0, origAvl) < m - m / 2 ==> red == Sum(a, b, 0, origAvl))
  {
    hide Sum;
    hide Multiple;
    hide Wrap;
    hide Vmul;
    hide Vmacc;
    hide Strips;
    hide Total;
    hide Kept;
    hide LastVl;
    var avl: nat, off: nat := origAvl, 0;
    var vl := vset(avl);
    var acc: seq<int> := seq(vl, _ => 0);
    ghost var last := LastVl(vset, vlmax, origAvl);
    ghost var total := Kept(a, b, vset, vlmax, 0, origAvl, last);
    LastVlLeast(vset, vlmax, origAvl);
    StripsStart(a, b, vset, vlmax, origAvl, vl, m);
    while avl > 0
      invariant off + avl == origAvl
      invariant avl == origAvl ==> acc == seq(vset(avl), _ => 0)
      invariant Strips(a, b, vset, vlmax, off, avl, acc, vl, last, total, m)
      decreases avl
    {
      StripsStep(a, b, vset, vlmax, off, avl, acc, vl, last, total, m);
      vl := vset(avl);
      var bufA, bufB := a[off..off + vl], b[off..off + vl];
      FirstStrip(bufA, bufB, m);
      if avl == origAvl {
        acc := Vmul(bufA, bufB, m);
      } else {
        acc := Vmacc(acc, bufA, bufB, m);
      }
      off := off + vl;
      avl := avl - vl;
    }
    StripsEnd(a, b, vset, vlmax, off, acc, vl, last, total, m);
    red := Wrap(Total(acc[..vl]) + 0, m);
    WrapIs(total, m);
    if origAvl <= vlmax || origAvl % vlmax == 0 {
      WholeStrips(vset, vlmax, origAvl);
      KeptAll(a, b, vset, vlmax, 0, origAvl, last);
    }
  }

  /** Between strips: what the first `last` lanes have summed, with what they have still to
    * sum, is the whole. */
  ghost predicate Strips(a: seq<int>, b: seq<int>, vset: nat -> nat, vlmax: nat, off: nat, avl: nat, acc: seq<int>,
                         vl: nat,
                         last: nat, total: int, m: nat)
    requires 0 < m && Implements(vset, vlmax) && off + avl <= |a| && off + avl <= |b|
  {
    && last <= vl == |acc|
    && (if avl > 0 then LastVl(vset, vlmax, avl) == last && 0 < vset(avl) <= avl && vset(avl) <= |acc| else vl == last)
    && Congruent(Total(acc[..last]) + Kept(a, b, vset, vlmax, off, avl, last), total, m)
  }

  lemma StripsStart(a: seq<int>, b: seq<int>, vset: nat -> nat, vlmax: nat, avl: nat, vl: nat, m: nat)
    requires 0 < m && 0 < avl <= |a| && avl <= |b| && Implements(vset, vlmax) && vl == vset(avl)
    ensures var last := LastVl(vset, vlmax, avl);
            Strips(a, b, vset, vlmax, 0, avl, seq(vl, _ => 0), vl, last, Kept(a, b, vset, vlmax, 0, avl, last), m)
  {
    var last := LastVl(vset, vlmax, avl);
    LastVlLeast(vset, vlmax, avl);
    assert LegalVl(avl, vset(avl), vlmax);
    ZeroTotal(last);
    assert seq(vl, _ => 0)[..last] == seq(last, _ => 0);
  }

  /** How long this strip and the next are. */
  lemma StripLengths(vset: nat -> nat, vlmax: nat, avl: nat)
    requires Implements(vset, vlmax) && 0 < avl
    ensures var v, last := vset(avl), LastVl(vset, vlmax, avl);
            && last <= v && 0 < v <= avl
            && if avl > v
               then LastVl(vset, vlmax, avl - v) == last && 0 < vset(avl - v) <= avl - v && vset(avl - v) <= v
               else last == v
  {
    LastVlLeast(vset, vlmax, avl);
    assert LegalVl(avl, vset(avl), vlmax);
    if avl > vset(avl) {
      LastVlLeast(vset, vlmax, avl - vset(avl));
      assert LegalVl(avl - vset(avl), vset(avl - vset(avl)), vlmax);
    }
  }

  lemma StripsStep(a: seq<int>, b: seq<int>, vset: nat -> nat, vlmax: nat, off: nat, avl: nat, acc: seq<int>, vl: nat,
                   last: nat, total: int, m: nat)
    requires 0 < m && 0 < avl && Implements(vset, vlmax) && off + avl <= |a| && off + avl <= |b|
    requires Strips(a, b, vset, vlmax, off, avl, acc, vl, last, total, m)
    ensures 0 < vset(avl) <= avl && vset(avl) <= |acc|
    ensures var v := vset(avl);
            Strips(a, b, vset, vlmax, off + v, avl - v, Vmacc(acc, a[off..off + v], b[off..off + v], m), v, last,
                   total, m)
  {
    hide Wrap;
    hide Prod;
    hide Sum;
    hide Congruent;
    hide Vmacc;
    hide Total;
    hide Kept;
    hide LastVl;
    hide Implements;
    hide LegalVl;
    var v := vset(avl);
    StripLengths(vset, vlmax, avl);
    KeptStep(a, b, vset, vlmax, off, avl, last);
    StripTotal(acc, a, b, off, v, last, m);
    var rest := Kept(a, b, vset, vlmax, off + v, avl - v, last);
    var here, after := Sum(a, b, off, off + last), Total(Vmacc(acc, a[off..off + v], b[off..off + v], m)[..last]);
    assert Kept(a, b, vset, vlmax, off, avl, last) == here + rest;
    CongruentAdd(after, Total(acc[..last]) + here, rest, rest, m);
    CongruentTrans(after + rest, (Total(acc[..last]) + here) + rest, total, m);
  }

  lemma StripsEnd(a: seq<int>, b: seq<int>, vset: nat -> nat, vlmax: nat, off: nat, acc: seq<int>, vl: nat, last: nat,
                  total: int, m: nat)
    requires 0 < m && Implements(vset, vlmax) && off <= |a| && off <= |b|
    requires Strips(a, b, vset, vlmax, off, 0, acc, vl, last, total, m)
    ensures vl == |acc| && Wrap(Total(acc[..vl]) + 0, m) == Wrap(total, m)
  {
    WrapEqual(Total(acc[..last]), total, m);
  }

  // ----- When the vector form is right -----------------------------------------------

  /** Words of w bits. */
  ghost predicate Words(s: seq<int>, m: nat) {
    forall i | 0 <= i < |s| :: -(m / 2) <= s[i] < m - m / 2
  }

  /** On all data the vector form gives the dot product. */
  ghost predicate AlwaysRight(vset: nat -> nat, vlmax: nat, avl: nat, m: nat)
    requires 0 < m && 0 < avl && Implements(vset, vlmax)
  {
    forall a: seq<int>, b: seq<int> | |a| == |b| == avl && Words(a, m) && Words(b, m) ::
      Wrap(Kept(a, b, vset, vlmax, 0, avl, LastVl(vset, vlmax, avl)), m) == Wrap(Sum(a, b, 0, avl), m)
  }

  /** Lanes that every strip has are all that is summed when no strip is longer. */
  lemma {:induction false} KeptAll(a: seq<int>, b: seq<int>, vset: nat -> nat, vlmax: nat, off: nat, avl: nat, k: nat)
    requires Implements(vset, vlmax) && off + avl <= |a| && off + avl <= |b| && (avl > 0 ==> vset(avl) <= k)
    ensures Kept(a, b, vset, vlmax, off, avl, k) == Sum(a, b, off, off + avl)
    decreases avl
  {
    hide Sum;
    hide Kept;
    KeptStep(a, b, vset, vlmax, off, avl, k);
    if avl > 0 {
      var vl := vset(avl);
      assert LegalVl(avl, vl, vlmax);
      if avl > vl {
        assert LegalVl(avl - vl, vset(avl - vl), vlmax);
      }
      KeptAll(a, b, vset, vlmax, off + vl, avl - vl, k);
      SumSplit(a, b, off, off + vl, off + avl);
    } else {
      SumNothing(a, b, off);
    }
  }

  /** The vector form is right on all data exactly when the last strip is as long as the first. */
  lemma RightIffUniform(vset: nat -> nat, vlmax: nat, avl: nat, m: nat)
    requires 4 <= m && 0 < avl && Implements(vset, vlmax)
    ensures AlwaysRight(vset, vlmax, avl, m) <==> LastVl(vset, vlmax, avl) == vset(avl)
  {
    hide Wrap;
    hide Sum;
    hide Kept;
    hide Words;
    var last := LastVl(vset, vlmax, avl);
    LastVlLeast(vset, vlmax, avl);
    if last == vset(avl) {
      forall a: seq<int>, b: seq<int> | |a| == |b| == avl && Words(a, m) && Words(b, m)
        ensures Wrap(Kept(a, b, vset, vlmax, 0, avl, last), m) == Wrap(Sum(a, b, 0, avl), m)
      {
        KeptAll(a, b, vset, vlmax, 0, avl, last);
      }
    } else {
      assert LegalVl(avl, vset(avl), vlmax);
      var u := Unit(avl, last);
      UnitSums(avl, last, vset, vlmax, 0, avl, last);
      WrapSmall(m);
      UnitWords(avl, last, m);
    }
  }

  /** All zeros but for a one at index `at`. */
  ghost function Unit(n: nat, at: nat): (s: seq<int>)
    ensures |s| == n
  {
    seq(n, i => if i == at then 1 else 0)
  }

  /** With a single one, in a lane beyond the last strip's, nothing is kept of a sum of one. */
  lemma {:induction false} UnitSums(n: nat, at: nat, vset: nat -> nat, vlmax: nat, off: nat, avl: nat, k: nat)
    requires Implements(vset, vlmax) && off + avl == n && at < n
    requires off == 0 || at < off
    requires off == 0 && avl > 0 ==> k <= at < vset(avl)
    ensures Kept(Unit(n, at), Unit(n, at), vset, vlmax, off, avl, k) == 0
    ensures Sum(Unit(n, at), Unit(n, at), off, n) == if off <= at then 1 else 0
    decreases avl
  {
    hide Unit;
    hide Sum;
    hide Kept;
    UnitSum(n, at, off, n);
    KeptStep(Unit(n, at), Unit(n, at), vset, vlmax, off, avl, k);
    if avl > 0 {
      var vl := vset(avl);
      assert LegalVl(avl, vl, vlmax);
      UnitSum(n, at, off, off + if k < vl then k else vl);
      UnitSums(n, at, vset, vlmax, off + vl, avl - vl, k);
    }
  }

  lemma KeptStep(a: seq<int>, b: seq<int>, vset: nat -> nat, vlmax: nat, off: nat, avl: nat, k: nat)
    requires Implements(vset, vlmax) && off + avl <= |a| && off + avl <= |b|
    ensures avl == 0 ==> Kept(a, b, vset, vlmax, off, avl, k) == 0
    ensures avl > 0 ==>
              var vl := vset(avl);
              0 < vl <= avl
              && Kept(a, b, vset, vlmax, off, avl, k)
              == Sum(a, b, off, off + if k < vl then k else vl) + Kept(a, b, vset, vlmax, off + vl, avl - vl, k)
  {
    hide Sum;
    if avl > 0 {
      assert LegalVl(avl, vset(avl), vlmax);
    }
  }

  lemma {:induction false} UnitSum(n: nat, at: nat, lo: nat, hi: nat)
    requires lo <= hi <= n
    ensures Sum(Unit(n, at), Unit(n, at), lo, hi) == if lo <= at < hi then 1 else 0
  {
    if lo < hi {
      UnitSum(n, at, lo, hi - 1);
    }
  }

  /** The caller's condition: the vector form is right whatever legal lengths `vsetvli`
    * gives exactly when the data fits one strip or the longest strip divides it. */
  lemma RightForEveryVsetvli(vlmax: nat, avl: nat, m: nat)
    requires 4 <= m && 0 < avl && 0 < vlmax
    ensures (forall vset: nat -> nat | Implements(vset, vlmax) :: AlwaysRight(vset, vlmax, avl, m))
       <==> avl <= vlmax || avl % vlmax == 0
  {
    hide AlwaysRight;
    hide Multiple;
    hide LastVl;
    if avl <= vlmax || avl % vlmax == 0 {
      forall vset: nat -> nat | Implements(vset, vlmax) ensures AlwaysRight(vset, vlmax, avl, m) {
        RightIffUniform(vset, vlmax, avl, m);
        WholeStrips(vset, vlmax, avl);
      }
    } else {
      var longest := (n: nat) => if n <= vlmax then n else vlmax;
      assert Implements(longest, vlmax);
      RightIffUniform(longest, vlmax, avl, m);
      LongestLast(longest, vlmax, avl);
      assert !AlwaysRight(longest, vlmax, avl, m);
    }
  }

  /** Under the caller's condition the last strip is as long as the first. */
  lemma WholeStrips(vset: nat -> nat, vlmax: nat, avl: nat)
    requires Implements(vset, vlmax) && 0 < avl && (avl <= vlmax || avl % vlmax == 0)
    ensures LastVl(vset, vlmax, avl) == vset(avl)
  {
    hide LastVl;
    hide Multiple;
    if avl > vlmax {
      ZeroRemainder(avl, vlmax);
      Uniform(vset, vlmax, avl);
    } else {
      OneStrip(vset, vlmax, avl);
    }
  }

  lemma OneStrip(vset: nat -> nat, vlmax: nat, avl: nat)
    requires Implements(vset, vlmax) && 0 < avl <= vlmax
    ensures LastVl(vset, vlmax, avl) == vset(avl)
  {
    assert LegalVl(avl, vset(avl), vlmax);
  }

  ghost predicate Multiple(n: nat, d: nat) {
    n == 0 || (0 < d <= n && Multiple(n - d, d))
  }

  lemma {:induction false} ZeroRemainder(n: nat, d: nat)
    requires 0 < d && n % d == 0
    ensures Multiple(n, d)
  {
    if n > 0 {
      if n < d {
        DivUnique(n, d, 0, n);
        assert false;
      }
      ModAddMultiple(n - d, 1, d);
      ZeroRemainder(n - d, d);
    }
  }

  /** A request for whole strips is answered with a whole strip. */
  lemma WholeStrip(n: nat, vl: nat, vlmax: nat)
    requires 0 < n && Multiple(n, vlmax) && LegalVl(n, vl, vlmax)
    ensures vl == vlmax <= n
  {
    assert Multiple(n - vlmax, vlmax);
  }

  lemma {:induction false} Uniform(vset: nat -> nat, vlmax: nat, avl: nat)
    requires Implements(vset, vlmax) && 0 < avl && Multiple(avl, vlmax)
    ensures LastVl(vset, vlmax, avl) == vset(avl) == vlmax
    decreases avl
  {
    assert LegalVl(avl, vset(avl), vlmax);
    WholeStrip(avl, vset(avl), vlmax);
    if avl > vlmax {
      assert Multiple(avl - vlmax, vlmax);
      Uniform(vset, vlmax, avl - vlmax);
    }
  }

  /** Taking the longest strip each time leaves the remainder for the last. */
  lemma {:induction false} LongestLast(vset: nat -> nat, vlmax: nat, avl: nat)
    requires Implements(vset, vlmax) && (forall n: nat :: vset(n) == if n <= vlmax then n else vlmax)
    requires 0 < avl && avl % vlmax != 0
    ensures LastVl(vset, vlmax, avl) == avl % vlmax
    decreases avl
  {
    assert LegalVl(avl, vset(avl), vlmax);
    if avl > vlmax {
      ModAddMultiple(avl - vlmax, 1, vlmax);
      LongestLast(vset, vlmax, avl - vlmax);
    } else if avl < vlmax {
      DivUnique(avl, vlmax, 0, avl);
    } else {
      DivUnique(avl, vlmax, 1, 0);
    }
  }

  /** The scalar form sums to the next multiple of eight: it is right on all data exactly
    * when eight divides the length. */
  lemma ScalarRightIff(avl: nat, m: nat)
    requires 4 <= m
    ensures (forall a: seq<int>, b: seq<int> | |a| == |b| == RoundUp8(avl) && Words(a, m) && Words(b, m) ::
               Wrap(Sum(a, b, 0, RoundUp8(avl)), m) == Wrap(Sum(a, b, 0, avl), m))
       <==> avl % 8 == 0
  {
    hide Wrap;
    hide Sum;
    if avl % 8 != 0 {
      var u := Unit(RoundUp8(avl), avl);
      UnitSum(RoundUp8(avl), avl, 0, avl);
      UnitSum(RoundUp8(avl), avl, 0, RoundUp8(avl));
      WrapSmall(m);
      UnitWords(RoundUp8(avl), avl, m);
    }
  }

  /** Where both forms are right they give the same word, whatever the data and `vsetvli`. */
  lemma FormsAgree(a: seq<int>, b: seq<int>, avl: nat, vset: nat -> nat, vlmax: nat, m: nat)
    requires 4 <= m && 0 < avl && Implements(vset, vlmax) && |a| == |b| == avl && Words(a, m) && Words(b, m)
    requires avl % 8 == 0 && (avl <= vlmax || avl % vlmax == 0)
    ensures Wrap(Kept(a, b, vset, vlmax, 0, avl, LastVl(vset, vlmax, avl)), m) == Wrap(Sum(a, b, 0, RoundUp8(avl)), m)
  {
    hide Wrap;
    hide Sum;
    hide Kept;
    hide LastVl;
    hide Words;
    RightForEveryVsetvli(vlmax, avl, m);
    ScalarRightIff(avl, m);
    assert RoundUp8(avl) == avl;
  }

  lemma WrapSmall(m: nat)
    requires 4 <= m
    ensures Wrap(0, m) == 0 && Wrap(1, m) == 1
  {
    DivUnique(0 + m / 2, m, 0, m / 2);
    DivUnique(1 + m / 2, m, 0, 1 + m / 2);
  }

  lemma UnitWords(n: nat, at: nat, m: nat)
    requires 4 <= m
    ensures Words(Unit(n, at), m)
  {
  }
}
