/** Data staged for one memory (`StagedMem` in `dpi_memutil.h` / `.cc`). */
module StagedMems {
  import opened Common
  import opened RangedMaps
  import opened Segments

  /** The bytes of `m` from `lo` to `hi`, zero where nothing is staged. */
  ghost function Flat(m: ByteMap, lo: int, hi: int): (s: seq<byte>)
    requires lo <= hi + 1
    ensures |s| == hi - lo + 1
  {
    seq(hi - lo + 1, k requires 0 <= k => if lo + k in m then m[lo + k] else 0)
  }

  /** Segments are disjoint, start on a word and have one byte for each address; once
    * there is one, minAddr / maxAddr is the least / greatest staged address. */
  ghost predicate StagedOk(es: seq<Entry<seq<byte>>>, minAddr: Addr, maxAddr: Addr, width: nat) {
    && Disjoint(es) && AllOk(es, Exact)
    && 0 < width && Aligned(es, width)
    && (forall a | a in Bytes(es) :: minAddr <= a <= maxAddr)
    && (if es == [] then minAddr == ADDRESS_SPACE - 1 && maxAddr == 0
        else minAddr in Bytes(es) && maxAddr in Bytes(es))
  }

  lemma StagedParts(es: seq<Entry<seq<byte>>>, minAddr: Addr, maxAddr: Addr, width: nat)
    requires StagedOk(es, minAddr, maxAddr, width)
    ensures 0 < width && AllOk(es, Exact)
  {
  }

  lemma OverlayNone(m: ByteMap, at: int)
    ensures Overlay(m, at, []) == m
  {
  }

  lemma StagedOkAdd(es: seq<Entry<seq<byte>>>, minAddr: Addr, maxAddr: Addr, width: nat, rng: Range, seg: seq<byte>)
    requires StagedOk(es, minAddr, maxAddr, width)
    requires Merges(MergeSegments, Exact) && Exact(rng, seg) && rng.lo % width == 0
    ensures var es' := Emplaced(es, rng, seg, MergeSegments, Exact);
            && Bytes(es') == Overlay(Bytes(es), rng.lo, seg)
            && StagedOk(es', if minAddr < rng.lo then minAddr else rng.lo,
                        if maxAddr > rng.hi then maxAddr else rng.hi, width)
  {
    EmplacedBytes(es, rng, seg);
    EmplacedAligned(es, rng, seg, width, MergeSegments, Exact);
    EmplacedDisjoint(es, rng, seg, 0, MergeSegments, Exact);
    assert rng.lo in Placed(rng.lo, seg) && rng.hi in Placed(rng.lo, seg);
  }

  class StagedMem {
    var minAddr: Addr
    var maxAddr: Addr
    const segs: RangedMap<seq<byte>>
    ghost const width: nat  // word width, in bytes, of the memory the data is for

    ghost predicate Valid()
      reads this, segs
    {
      segs.Valid() && StagedOk(segs.entries, minAddr, maxAddr, width)
    }

    ghost function Staged(): ByteMap
      reads this, segs
    {
      Bytes(segs.entries)
    }

    /** A valid object for words of `width` bytes, holding exactly `bytes`. */
    ghost predicate Holds(width: nat, bytes: ByteMap)
      reads this, segs
    {
      Valid() && this.width == width && Staged() == bytes
    }

    constructor (ghost width: nat)
      requires 0 < width
      ensures Valid() && fresh(segs) && this.width == width
      ensures Staged() == map[] && Holds(width, map[])
    {
      this.width := width;
      minAddr, maxAddr := ADDRESS_SPACE - 1, 0;
      segs := new RangedMap();
    }

    /** `uint32_t seg_top = offset + seg.size() - 1` */
    static function SegTop(offset: Addr, size: nat): Addr {
      (offset + size - 1) % ADDRESS_SPACE
    }

    /** The original's check `seg_top >= offset` is not enough for a consistent range: the
      * top is right exactly when the segment ends inside the address space. */
    static lemma SegTopExact(offset: Addr, size: nat)
      requires 0 < size
      ensures SegTop(offset, size) - offset + 1 == size <==> offset + size <= ADDRESS_SPACE
      ensures SegTop(0, ADDRESS_SPACE + 4) >= 0 && SegTop(0, ADDRESS_SPACE + 4) + 1 == 4
    {
      if offset + size <= ADDRESS_SPACE {
        assert SegTop(offset, size) == offset + size - 1;
      } else if size < ADDRESS_SPACE + 1 {
        assert SegTop(offset, size) == offset + size - 1 - ADDRESS_SPACE;
      }
    }

    method AddSegment(offset: Addr, seg: seq<byte>)
      requires Valid() && offset + |seg| <= ADDRESS_SPACE && offset % width == 0
      modifies this, segs
      ensures Valid()
      ensures Staged() == Overlay(old(Staged()), offset, seg)
      ensures Holds(width, Overlay(old(Staged()), offset, seg))
    {
      hide Emplaced;
      hide Bytes;
      hide StagedOk;
      hide Overlay;
      if seg == [] {
        OverlayNone(Staged(), offset);
        return;
      }
      var segTop := SegTop(offset, |seg|);
      assert segTop == offset + |seg| - 1;
      var rng := Range(offset, segTop);
      MergeSegmentsMerges();
      StagedParts(segs.entries, minAddr, maxAddr, width);
      StagedOkAdd(segs.entries, minAddr, maxAddr, width, rng, seg);
      minAddr := if minAddr < offset then minAddr else offset;
      maxAddr := if maxAddr > segTop then maxAddr else segTop;
      segs.Emplace(rng, seg, MergeSegments, Exact);
    }

    /** The staged bytes as one array, gaps filled with zeros. With nothing staged the
      * wrapped subtraction gives two zero bytes. */
    method GetFlat() returns (ret: seq<byte>)
      requires Valid()
      ensures segs.entries == [] ==> ret == [0, 0]
      ensures segs.entries != [] ==> minAddr <= maxAddr && ret == Flat(Staged(), minAddr, maxAddr)
      ensures |ret| <= ADDRESS_SPACE
    {
      ret := CopySegments(segs.entries, minAddr, maxAddr, width);
      FlatWhole(segs.entries, minAddr, maxAddr, width);
    }
  }

  lemma FlatNone(es: seq<Entry<seq<byte>>>, lo: int, hi: int)
    requires lo <= hi + 1
    ensures Flat(Bytes(es[..0]), lo, hi) == seq(hi - lo + 1, _ => 0)
  {
  }

  /** The loop of `GetFlat`. */
  method CopySegments(es: seq<Entry<seq<byte>>>, minAddr: Addr, maxAddr: Addr, ghost width: nat)
    returns (ret: seq<byte>)
    requires StagedOk(es, minAddr, maxAddr, width)
    ensures ret == Flat(Bytes(es), minAddr, minAddr + FlatLength(minAddr, maxAddr) - 1)
  {
    hide Memcpy;
    hide Bytes;
    hide Flat;
    hide StagedOk;
    var len := FlatLength(minAddr, maxAddr);
    ghost var hi := minAddr + len - 1;
    ret := seq(len, _ => 0);
    FlatNone(es, minAddr, hi);
    for i := 0 to |es|
      invariant ret == Flat(Bytes(es[..i]), minAddr, hi)
    {
      var rng, seg := es[i].rng, es[i].val;
      FlatStep(es, minAddr, maxAddr, hi, width, i);
      assert |seg| == 1 + (rng.hi - rng.lo);
      assert minAddr <= rng.lo;
      var off := rng.lo - minAddr;
      assert off + |seg| <= |ret|;
      ret := Memcpy(ret, off, seg, 0, |seg|);
    }
    assert es[..|es|] == es;
  }

  /** `(size_t)1 + (max_addr_ - min_addr_)`, the subtraction in 32 bits. */
  function FlatLength(minAddr: Addr, maxAddr: Addr): (len: nat)
    ensures 0 < len <= ADDRESS_SPACE
    ensures minAddr <= maxAddr ==> len == maxAddr - minAddr + 1
  {
    1 + (maxAddr - minAddr) % ADDRESS_SPACE
  }

  lemma FlatWhole(es: seq<Entry<seq<byte>>>, minAddr: Addr, maxAddr: Addr, width: nat)
    requires StagedOk(es, minAddr, maxAddr, width)
    ensures es != [] ==> minAddr <= maxAddr
    ensures es == [] ==> Flat(Bytes(es), minAddr, minAddr + FlatLength(minAddr, maxAddr) - 1) == [0, 0]
  {
  }

  /** Each segment lies inside the bounds, and copying it in extends the flat array by it. */
  lemma FlatStep(es: seq<Entry<seq<byte>>>, minAddr: Addr, maxAddr: Addr, hi: int, width: nat, i: nat)
    requires StagedOk(es, minAddr, maxAddr, width) && i < |es| && (minAddr <= maxAddr ==> hi == maxAddr)
    ensures Exact(es[i].rng, es[i].val)
    ensures minAddr <= es[i].rng.lo <= es[i].rng.hi <= maxAddr
    ensures Flat(Bytes(es[..i + 1]), minAddr, hi)
         == Memcpy(Flat(Bytes(es[..i]), minAddr, hi), es[i].rng.lo - minAddr, es[i].val, 0, |es[i].val|)
  {
    BytesOf(es, i, es[i].rng.lo);
    BytesOf(es, i, es[i].rng.hi);
    BytesSnoc(es, i);
    FlatOverlay(Bytes(es[..i]), minAddr, hi, es[i].rng.lo, es[i].val);
  }

  lemma FlatOverlay(m: ByteMap, lo: int, hi: int, at: int, seg: seq<byte>)
    requires lo <= at && at + |seg| <= hi + 1
    ensures Flat(Overlay(m, at, seg), lo, hi) == Memcpy(Flat(m, lo, hi), at - lo, seg, 0, |seg|)
  {
  }
}
