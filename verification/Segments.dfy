/** Byte segments staged at address ranges, and what they mean as a map from address to
  * byte (`MergeSegments` and `StagedMem` of `dpi_memutil.cc`). */
module Segments {
  import opened Common
  import opened RangedMaps

  type ByteMap = map<int, byte>

  /** The segment has one byte for every address of its range. */
  ghost predicate Exact(r: Range, seg: seq<byte>) {
    r.lo <= r.hi && |seg| == r.hi - r.lo + 1
  }

  /** The bytes of `seg` placed from address `at` upwards. */
  ghost function Placed(at: int, seg: seq<byte>): ByteMap {
    map a | at <= a < at + |seg| :: ByteAt(at, seg, a)
  }

  ghost function ByteAt(at: int, seg: seq<byte>, a: int): byte
    requires at <= a < at + |seg|
  {
    seg[a - at]
  }

  /** Last writer wins. */
  ghost function Overlay(m: ByteMap, at: int, seg: seq<byte>): ByteMap {
    m + Placed(at, seg)
  }

  ghost function Bytes(es: seq<Entry<seq<byte>>>): ByteMap {
    if es == [] then map[] else Placed(es[0].rng.lo, es[0].val) + Bytes(es[1..])
  }

  // `std::vector::resize`
  function Resize(s: seq<byte>, n: nat): (r: seq<byte>)
    ensures |r| == n
  {
    if n <= |s| then s[..n] else s + seq(n - |s|, _ => 0)
  }

  function Memcpy(dst: seq<byte>, at: nat, src: seq<byte>, from: nat, n: nat): (r: seq<byte>)
    requires at + n <= |dst| && from + n <= |src|
    ensures |r| == |dst|
  {
    dst[..at] + src[from..from + n] + dst[at + n..]
  }

  /** Joins two overlapping segments, the bytes of `seg1` hiding those of `seg0`. The
    * asserts are the ones the original makes. */
  function MergeSegments(rng0: Range, seg0: seq<byte>, rng1: Range, seg1: seq<byte>): (ret: seq<byte>)
    requires Exact(rng0, seg0) && Exact(rng1, seg1) && rng0.Overlaps(rng1)
    ensures Exact(rng0.Hull(rng1), ret)
  {
    if rng1.lo <= rng0.lo && rng0.hi <= rng1.hi then
      seg1
    else
      var newBot := if rng0.lo < rng1.lo then rng0.lo else rng1.lo;
      var newTop := if rng0.hi > rng1.hi then rng0.hi else rng1.hi;
      assert newBot <= newTop;
      var newLen := 1 + (newTop - newBot);
      assert |seg0| <= newLen && |seg1| <= newLen;
      if rng1.lo <= rng0.lo then
        assert rng1.hi < rng0.hi;
        assert newLen == |seg1| + (rng0.hi - rng1.hi);
        assert rng0.lo <= rng1.hi;
        var srcOff := 1 + (rng1.hi - rng0.lo);
        assert |seg0| == srcOff + (rng0.hi - rng1.hi);
        Memcpy(Resize(seg1, newLen), |seg1|, seg0, srcOff, rng0.hi - rng1.hi)
      else
        var off := rng1.lo - rng0.lo;
        Memcpy(Resize(seg0, newLen), off, seg1, 0, |seg1|)
  }

  ghost predicate MergedAs(rng0: Range, seg0: seq<byte>, rng1: Range, seg1: seq<byte>, ret: seq<byte>, a: int)
    requires Exact(rng0, seg0) && Exact(rng1, seg1) && Exact(rng0.Hull(rng1), ret)
    requires rng0.Hull(rng1).Contains(a)
  {
    if rng1.Contains(a) then ret[a - rng0.Hull(rng1).lo] == seg1[a - rng1.lo]
    else rng0.Contains(a) && ret[a - rng0.Hull(rng1).lo] == seg0[a - rng0.lo]
  }

  /** Each byte of the merged segment comes from the newer segment where it reaches, and
    * from the older elsewhere. */
  lemma MergedByte(rng0: Range, seg0: seq<byte>, rng1: Range, seg1: seq<byte>, a: int)
    requires Exact(rng0, seg0) && Exact(rng1, seg1) && rng0.Overlaps(rng1)
    requires rng0.Hull(rng1).Contains(a)
    ensures MergedAs(rng0, seg0, rng1, seg1, MergeSegments(rng0, seg0, rng1, seg1), a)
  {
  }

  /** The merged segment, placed at the hull, is the newer segment laid over the older. */
  lemma MergeSegmentsBytes(rng0: Range, seg0: seq<byte>, rng1: Range, seg1: seq<byte>)
    requires Exact(rng0, seg0) && Exact(rng1, seg1) && rng0.Overlaps(rng1)
    ensures Placed(rng0.Hull(rng1).lo, MergeSegments(rng0, seg0, rng1, seg1))
         == Placed(rng0.lo, seg0) + Placed(rng1.lo, seg1)
  {
    var ret := MergeSegments(rng0, seg0, rng1, seg1);
    forall a | rng0.Hull(rng1).Contains(a)
      ensures MergedAs(rng0, seg0, rng1, seg1, ret, a)
    {
      MergedByte(rng0, seg0, rng1, seg1, a);
    }
    PlacedHull(rng0, seg0, rng1, seg1, ret);
  }

  lemma PlacedHull(rng0: Range, seg0: seq<byte>, rng1: Range, seg1: seq<byte>, ret: seq<byte>)
    requires Exact(rng0, seg0) && Exact(rng1, seg1) && Exact(rng0.Hull(rng1), ret)
    requires forall a | rng0.Hull(rng1).Contains(a) :: MergedAs(rng0, seg0, rng1, seg1, ret, a)
    ensures Placed(rng0.Hull(rng1).lo, ret) == Placed(rng0.lo, seg0) + Placed(rng1.lo, seg1)
  {
    var hull := rng0.Hull(rng1);
    var l, m := Placed(hull.lo, ret), Placed(rng0.lo, seg0) + Placed(rng1.lo, seg1);
    forall a | a in l || a in m
      ensures a in l && a in m && l[a] == m[a]
    {
      assert hull.Contains(a);
      assert MergedAs(rng0, seg0, rng1, seg1, ret, a);
    }
  }

  lemma MergeSegmentsMerges()
    ensures Merges(MergeSegments, Exact)
  {
    forall r0, v0, r1, v1 | Exact(r0, v0) && Exact(r1, v1) && r0.Overlaps(r1)
      ensures MergeSegments.requires(r0, v0, r1, v1) && Exact(r0.Hull(r1), MergeSegments(r0, v0, r1, v1))
    {
    }
  }

  /** Inserting into disjoint ranges with `MergeSegments` is an overlay of the new
    * segment over what was there, however many old ranges it hits. */
  lemma {:induction false} EmplacedBytes(es: seq<Entry<seq<byte>>>, r: Range, seg: seq<byte>)
    requires Merges(MergeSegments, Exact) && AllOk(es, Exact) && Exact(r, seg) && Disjoint(es)
    ensures Bytes(Emplaced(es, r, seg, MergeSegments, Exact)) == Overlay(Bytes(es), r.lo, seg)
    decreases |es|
  {
    if es == [] {
    } else if es[0].rng.hi < r.lo {
      EmplacedBytes(es[1..], r, seg);
      Associate(Placed(es[0].rng.lo, es[0].val), Bytes(es[1..]), Placed(r.lo, seg));
    } else if r.hi < es[0].rng.lo {
      BytesAbove(es, r.hi);
      DisjointCommute(Placed(r.lo, seg), Bytes(es));
    } else {
      var old0, rest := Placed(es[0].rng.lo, es[0].val), Bytes(es[1..]);
      MergeStep(es, r, seg, MergeSegments, Exact);
      MergeSegmentsBytes(es[0].rng, es[0].val, r, seg);
      EmplacedBytes(es[1..], es[0].rng.Hull(r), MergeSegments(es[0].rng, es[0].val, r, seg));
      BytesAbove(es[1..], es[0].rng.hi);
      DisjointCommute(old0, rest);
      Associate(rest, old0, Placed(r.lo, seg));
    }
  }

  lemma Associate(l: ByteMap, m: ByteMap, n: ByteMap)
    ensures (l + m) + n == l + (m + n)
  {
  }

  lemma DisjointCommute(m: ByteMap, n: ByteMap)
    requires m.Keys !! n.Keys
    ensures m + n == n + m
  {
  }

  /** Every staged byte lies at or above the lowest range. */
  lemma {:induction false} BytesAbove(es: seq<Entry<seq<byte>>>, bound: int)
    requires AllOk(es, Exact) && Disjoint(es) && (es != [] ==> bound < es[0].rng.lo)
    ensures forall a | a in Bytes(es) :: bound < a
  {
    if es != [] {
      BytesAbove(es[1..], es[0].rng.hi);
    }
  }

  lemma {:induction false} BytesAppend(es: seq<Entry<seq<byte>>>, fs: seq<Entry<seq<byte>>>)
    ensures Bytes(es + fs) == Bytes(es) + Bytes(fs)
  {
    if es == [] {
      assert es + fs == fs;
    } else {
      assert (es + fs)[1..] == es[1..] + fs;
      BytesAppend(es[1..], fs);
      Associate(Placed(es[0].rng.lo, es[0].val), Bytes(es[1..]), Bytes(fs));
    }
  }

  lemma BytesSnoc(es: seq<Entry<seq<byte>>>, i: nat)
    requires i < |es|
    ensures Bytes(es[..i + 1]) == Overlay(Bytes(es[..i]), es[i].rng.lo, es[i].val)
  {
    hide Bytes;
    hide Placed;
    assert es[..i + 1] == es[..i] + [es[i]];
    BytesAppend(es[..i], [es[i]]);
    BytesOne(es[i]);
  }

  lemma BytesOne(e: Entry<seq<byte>>)
    ensures Bytes([e]) == Placed(e.rng.lo, e.val)
  {
    hide Placed;
    assert [e][1..] == [];
    assert Placed(e.rng.lo, e.val) + map[] == Placed(e.rng.lo, e.val);
  }

  /** Disjoint entries: the byte map is the bytes of each, wherever it stands. */
  lemma {:induction false} BytesOf(es: seq<Entry<seq<byte>>>, k: nat, a: int)
    requires AllOk(es, Exact) && Disjoint(es) && k < |es| && es[k].rng.Contains(a)
    ensures a in Bytes(es) && Bytes(es)[a] == es[k].val[a - es[k].rng.lo]
  {
    if k == 0 {
      BytesAbove(es[1..], es[0].rng.hi);
    } else {
      BytesOf(es[1..], k - 1, a);
    }
  }

  /** ... and nothing else. */
  lemma {:induction false} BytesFrom(es: seq<Entry<seq<byte>>>, a: int) returns (k: nat)
    requires AllOk(es, Exact) && Disjoint(es) && a in Bytes(es)
    ensures k < |es| && es[k].rng.Contains(a)
  {
    if a in Placed(es[0].rng.lo, es[0].val) {
      k := 0;
    } else {
      k := BytesFrom(es[1..], a);
      k := k + 1;
    }
  }

  /** Entry `e` has byte `b` for address `a`. */
  ghost predicate Has(e: Entry<seq<byte>>, a: int, b: byte) {
    e.rng.lo <= a <= e.rng.hi && a - e.rng.lo < |e.val| && e.val[a - e.rng.lo] == b
  }

  /** The byte for an address is in an entry exactly if the map has it. */
  lemma BytesHas(es: seq<Entry<seq<byte>>>, a: int, b: byte)
    requires AllOk(es, Exact) && Disjoint(es)
    ensures (exists e | e in es :: Has(e, a, b)) <==> a in Bytes(es) && Bytes(es)[a] == b
  {
    hide Bytes;
    hide Disjoint;
    if e :| e in es && Has(e, a, b) {
      var k :| 0 <= k < |es| && es[k] == e;
      BytesOf(es, k, a);
    }
    if a in Bytes(es) {
      var k := BytesFrom(es, a);
      BytesOf(es, k, a);
      assert es[k] in es && Has(es[k], a, Bytes(es)[a]);
    }
  }

  /** The same in entries: after inserting, the entries have a byte for an address exactly if the new segment has it
    * there, or reaches not so far and an old entry has it. */
  lemma EmplacedHas(es: seq<Entry<seq<byte>>>, r: Range, seg: seq<byte>, a: int, b: byte)
    requires Merges(MergeSegments, Exact) && AllOk(es, Exact) && Disjoint(es)
    requires r.lo <= r.hi && |seg| == r.hi - r.lo + 1
    ensures (exists e | e in Emplaced(es, r, seg, MergeSegments, Exact) :: Has(e, a, b)) <==>
            if r.lo <= a <= r.hi then seg[a - r.lo] == b else exists e | e in es :: Has(e, a, b)
  {
    hide Emplaced;
    hide Bytes;
    hide Has;
    hide Disjoint;
    hide Merges;
    LowBound(es, r);
    EmplacedDisjoint(es, r, seg, 0, MergeSegments, Exact);
    EmplacedBytes(es, r, seg);
    BytesHas(Emplaced(es, r, seg, MergeSegments, Exact), a, b);
    BytesHas(es, a, b);
  }

  lemma LowBound(es: seq<Entry<seq<byte>>>, r: Range)
    ensures 0 <= r.lo && (es != [] ==> 0 <= es[0].rng.lo)
  {
  }
}
