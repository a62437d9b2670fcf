/** A map from disjoint, inclusive address ranges to values (`ranged_map.h`).
  * The ordered `std::map` is a sequence sorted by low address; an iterator is an
  * index into it. */
module RangedMaps {
  import opened Common

  const ADDRESS_SPACE := 0x1_0000_0000

  /** `uint32_t` */
  type Addr = a: int | 0 <= a < ADDRESS_SPACE

  /** An inclusive address range. */
  datatype Range = Range(lo: Addr, hi: Addr) {
    predicate Contains(a: int) { lo <= a <= hi }

    /** The ranges have an address in common. */
    predicate Overlaps(other: Range) { lo <= other.hi && other.lo <= hi }

    /** The smallest range holding both. */
    function Hull(other: Range): Range {
      Range(if lo < other.lo then lo else other.lo, if hi > other.hi then hi else other.hi)
    }
  }

  datatype Entry<+V> = Entry(rng: Range, val: V)

  /** Nonempty ranges in ascending order, no two sharing an address. */
  ghost predicate Disjoint<V>(es: seq<Entry<V>>) {
    && (forall i | 0 <= i < |es| :: es[i].rng.lo <= es[i].rng.hi)
    && (forall i, j | 0 <= i < j < |es| :: es[i].rng.hi < es[j].rng.lo)
  }

  /** `merge` accepts any two acceptable, overlapping entries (old, then new) and
    * produces an acceptable value for the hull of their ranges. */
  ghost predicate Merges<V(!new)>(merge: (Range, V, Range, V) --> V, ok: (Range, V) -> bool) {
    forall r0, v0, r1, v1 | ok(r0, v0) && ok(r1, v1) && r0.Overlaps(r1) ::
      merge.requires(r0, v0, r1, v1) && ok(r0.Hull(r1), merge(r0, v0, r1, v1))
  }

  ghost predicate AllOk<V>(es: seq<Entry<V>>, ok: (Range, V) -> bool) {
    forall i | 0 <= i < |es| :: ok(es[i].rng, es[i].val)
  }

  /** What inserting `v` at `r` means: walk the entries in order; skip those below,
    * absorb those that overlap (the newer value last), stop at the first one above. */
  ghost function Emplaced<V(!new)>(es: seq<Entry<V>>, r: Range, v: V,
                                   merge: (Range, V, Range, V) --> V, ok: (Range, V) -> bool): seq<Entry<V>>
    requires Merges(merge, ok) && AllOk(es, ok) && ok(r, v)
  {
    if es == [] then [Entry(r, v)]
    else if es[0].rng.hi < r.lo then [es[0]] + Emplaced(es[1..], r, v, merge, ok)
    else if r.hi < es[0].rng.lo then [Entry(r, v)] + es
    else Emplaced(es[1..], es[0].rng.Hull(r), merge(es[0].rng, es[0].val, r, v), merge, ok)
  }

  /** Entries wholly below the range are left where they are. */
  lemma {:induction false} EmplacedSkips<V(!new)>(es: seq<Entry<V>>, k: nat, r: Range, v: V,
                                                  merge: (Range, V, Range, V) --> V, ok: (Range, V) -> bool)
    requires Merges(merge, ok) && AllOk(es, ok) && ok(r, v)
    requires k <= |es| && forall i | 0 <= i < k :: es[i].rng.hi < r.lo
    ensures Emplaced(es, r, v, merge, ok) == es[..k] + Emplaced(es[k..], r, v, merge, ok)
  {
    hide Emplaced;
    hide Merges;
    if k == 0 {
      assert es[0..] == es;
    } else {
      EmplacedBelow(es, r, v, merge, ok);
      EmplacedSkips(es[1..], k - 1, r, v, merge, ok);
      assert es[1..][k - 1..] == es[k..];
      assert es[..k] == [es[0]] + es[1..][..k - 1];
    }
  }

  /** Inserting keeps the ranges sorted and disjoint, keeps every value acceptable, and
    * covers no address below a bound `b` that was below everything before. */
  lemma {:induction false} EmplacedDisjoint<V(!new)>(es: seq<Entry<V>>, r: Range, v: V, b: int,
                                                     merge: (Range, V, Range, V) --> V, ok: (Range, V) -> bool)
    requires Merges(merge, ok) && AllOk(es, ok) && ok(r, v)
    requires Disjoint(es) && r.lo <= r.hi
    requires b <= r.lo && (es != [] ==> b <= es[0].rng.lo)
    ensures Disjoint(Emplaced(es, r, v, merge, ok))
    ensures AllOk(Emplaced(es, r, v, merge, ok), ok)
    ensures forall i | 0 <= i < |Emplaced(es, r, v, merge, ok)| :: b <= Emplaced(es, r, v, merge, ok)[i].rng.lo
    decreases |es|
  {
    hide Emplaced;
    hide Merges;
    if es == [] {
      EmplacedStops(es, r, v, merge, ok);
    } else if es[0].rng.hi < r.lo {
      EmplacedDisjoint(es[1..], r, v, es[0].rng.hi + 1, merge, ok);
      EmplacedBelow(es, r, v, merge, ok);
    } else if r.hi < es[0].rng.lo {
      EmplacedStops(es, r, v, merge, ok);
    } else {
      MergeStep(es, r, v, merge, ok);
      EmplacedDisjoint(es[1..], es[0].rng.Hull(r), merge(es[0].rng, es[0].val, r, v), b, merge, ok);
    }
  }

  /** An entry below the range is passed by. */
  lemma EmplacedBelow<V(!new)>(es: seq<Entry<V>>, r: Range, v: V,
                               merge: (Range, V, Range, V) --> V, ok: (Range, V) -> bool)
    requires Merges(merge, ok) && AllOk(es, ok) && ok(r, v)
    requires es != [] && es[0].rng.hi < r.lo
    ensures AllOk(es[1..], ok) && Emplaced(es, r, v, merge, ok) == [es[0]] + Emplaced(es[1..], r, v, merge, ok)
  {
    hide Merges;
  }

  ghost predicate Aligned<V>(es: seq<Entry<V>>, width: nat)
    requires 0 < width
  {
    forall i | 0 <= i < |es| :: es[i].rng.lo % width == 0
  }

  /** Merging never invents a start address, so starts stay word-aligned. */
  lemma {:induction false} EmplacedAligned<V(!new)>(es: seq<Entry<V>>, r: Range, v: V, width: nat,
                                                    merge: (Range, V, Range, V) --> V, ok: (Range, V) -> bool)
    requires Merges(merge, ok) && AllOk(es, ok) && ok(r, v)
    requires 0 < width && Aligned(es, width) && r.lo % width == 0
    ensures Aligned(Emplaced(es, r, v, merge, ok), width)
    decreases |es|
  {
    if es == [] {
    } else if es[0].rng.hi < r.lo {
      EmplacedAligned(es[1..], r, v, width, merge, ok);
    } else if r.hi < es[0].rng.lo {
    } else {
      EmplacedAligned(es[1..], es[0].rng.Hull(r), merge(es[0].rng, es[0].val, r, v), width, merge, ok);
    }
  }

  lemma MergeStep<V(!new)>(es: seq<Entry<V>>, r: Range, v: V,
                           merge: (Range, V, Range, V) --> V, ok: (Range, V) -> bool)
    requires Merges(merge, ok) && AllOk(es, ok) && ok(r, v)
    requires es != [] && es[0].rng.Overlaps(r)
    ensures merge.requires(es[0].rng, es[0].val, r, v)
    ensures ok(es[0].rng.Hull(r), merge(es[0].rng, es[0].val, r, v))
    ensures Emplaced(es, r, v, merge, ok)
         == Emplaced(es[1..], es[0].rng.Hull(r), merge(es[0].rng, es[0].val, r, v), merge, ok)
  {
  }

  lemma EmplacedStops<V(!new)>(es: seq<Entry<V>>, r: Range, v: V,
                               merge: (Range, V, Range, V) --> V, ok: (Range, V) -> bool)
    requires Merges(merge, ok) && AllOk(es, ok) && ok(r, v)
    requires Disjoint(es) && r.lo <= r.hi && (es != [] ==> r.hi < es[0].rng.lo)
    ensures Emplaced(es, r, v, merge, ok) == [Entry(r, v)] + es
  {
  }

  lemma EmplacedSplice<V(!new)>(es: seq<Entry<V>>, lo: nat, hi: nat, r: Range, v: V, e: Entry<V>,
                                merge: (Range, V, Range, V) --> V, ok: (Range, V) -> bool)
    requires Merges(merge, ok) && AllOk(es, ok) && ok(r, v)
    requires lo <= hi <= |es| && forall i | 0 <= i < lo :: es[i].rng.hi < r.lo
    requires Emplaced(es[lo..], r, v, merge, ok) == [e] + es[hi..]
    ensures Emplaced(es, r, v, merge, ok) == es[..lo] + [e] + es[hi..]
  {
    EmplacedSkips(es, lo, r, v, merge, ok);
  }

  /** A neighbour of the place of insertion that reaches into the range overlaps it. */
  lemma Overlapping<V>(es: seq<Entry<V>>, i: nat, right: nat, rng: Range)
    requires Disjoint(es) && i < |es| && rng.lo <= rng.hi
    requires if i < right then es[i].rng.lo <= rng.lo <= es[i].rng.hi else rng.lo < es[i].rng.lo <= rng.hi
    ensures es[i] in es && es[i].rng.Overlaps(rng)
  {
  }

  /** If neither neighbour reaches into the range, no entry does, and the range can be inserted between them. */
  lemma Apart<V>(es: seq<Entry<V>>, right: nat, rng: Range, val: V)
    requires Disjoint(es) && right <= |es| && rng.lo <= rng.hi
    requires (right < |es| ==> rng.hi < es[right].rng.lo) && (right > 0 ==> es[right - 1].rng.hi < rng.lo)
    ensures forall e | e in es :: !e.rng.Overlaps(rng)
    ensures Disjoint(es[..right] + [Entry(rng, val)] + es[right..])
  {
    forall i | 0 <= i < |es| ensures if i < right then es[i].rng.hi < rng.lo else rng.hi < es[i].rng.lo {
    }
    var t := es[..right] + [Entry(rng, val)] + es[right..];
    forall i, j | 0 <= i < j < |t| ensures t[i].rng.hi < t[j].rng.lo {
      InsertedAt(es, right, Entry(rng, val), i);
      InsertedAt(es, right, Entry(rng, val), j);
    }
    forall i | 0 <= i < |t| ensures t[i].rng.lo <= t[i].rng.hi {
      InsertedAt(es, right, Entry(rng, val), i);
    }
  }

  lemma FromZero<V>(es: seq<Entry<V>>)
    ensures es != [] ==> 0 <= es[0].rng.lo
  {
  }

  /** The entries from the first hit on. */
  lemma Suffix<V>(es: seq<Entry<V>>, lo: nat, hi: nat, rng: Range, ok: (Range, V) -> bool)
    requires Disjoint(es) && AllOk(es, ok) && lo <= hi <= |es|
    requires (forall i | lo <= i < hi :: es[i].rng.Overlaps(rng)) && forall i | hi <= i < |es| :: rng.hi < es[i].rng.lo
    ensures Disjoint(es[lo..]) && AllOk(es[lo..], ok) && es[lo..][hi - lo..] == es[hi..]
    ensures forall i | 0 <= i < hi - lo :: es[lo..][i].rng.Overlaps(rng)
    ensures forall i | hi - lo <= i < |es[lo..]| :: rng.hi < es[lo..][i].rng.lo
  {
  }

  lemma InsertedAt<T>(s: seq<T>, k: nat, x: T, i: nat)
    requires k <= |s| && i <= |s|
    ensures (s[..k] + [x] + s[k..])[i] == if i < k then s[i] else if i == k then x else s[i - 1]
  {
  }

  lemma InsertedIn<T>(s: seq<T>, k: nat, x: T)
    requires k <= |s|
    ensures forall y :: y in s[..k] + [x] + s[k..] <==> y == x || y in s
  {
    assert s == s[..k] + s[k..];
  }

  class RangedMap<V(!new)> {
    var entries: seq<Entry<V>>

    ghost predicate Valid()
      reads this
    {
      Disjoint(entries)
    }

    constructor ()
      ensures Valid() && entries == []
    {
      entries := [];
    }

    /** `std::map::upper_bound`: the first entry that starts strictly above `addr`. */
    method UpperBound(addr: Addr) returns (k: nat)
      requires Valid()
      ensures k <= |entries|
      ensures forall i | 0 <= i < k :: entries[i].rng.lo <= addr
      ensures forall i | k <= i < |entries| :: addr < entries[i].rng.lo
    {
      k := 0;
      while k < |entries| && entries[k].rng.lo <= addr
        invariant k <= |entries|
        invariant forall i | 0 <= i < k :: entries[i].rng.lo <= addr
      {
        k := k + 1;
      }
    }

    /** The two iterator walks of `Emplace`: entries [hitLo, hitHi) are those that
      * touch the range. */
    method HitRange(rng: Range) returns (hitLo: nat, hitHi: nat)
      requires Valid() && rng.lo <= rng.hi
      ensures hitLo <= hitHi <= |entries|
      ensures forall i | 0 <= i < hitLo :: entries[i].rng.hi < rng.lo
      ensures forall i | hitLo <= i < hitHi :: entries[i].rng.Overlaps(rng)
      ensures forall i | hitHi <= i < |entries| :: rng.hi < entries[i].rng.lo
    {
      var right := UpperBound(rng.lo);
      hitHi := right;
      while hitHi < |entries| && entries[hitHi].rng.lo <= rng.hi
        invariant right <= hitHi <= |entries|
        invariant forall i | right <= i < hitHi :: entries[i].rng.lo <= rng.hi
      {
        hitHi := hitHi + 1;
      }
      hitLo := right;
      while hitLo != 0 && rng.lo <= entries[hitLo - 1].rng.hi
        invariant 0 <= hitLo <= right
        invariant forall i | hitLo <= i < right :: rng.lo <= entries[i].rng.hi
      {
        hitLo := hitLo - 1;
      }
    }

    /** The fold of `Emplace` over the entries hit, widening the range as it goes. */
    method MergeHits(es: seq<Entry<V>>, hits: nat, rng: Range, newVal: V,
                     merge: (Range, V, Range, V) --> V, ghost ok: (Range, V) -> bool)
      returns (cur: Range, acc: V)
      requires Merges(merge, ok) && AllOk(es, ok) && ok(rng, newVal)
      requires Disjoint(es) && rng.lo <= rng.hi && 0 < hits <= |es|
      requires forall i | 0 <= i < hits :: es[i].rng.Overlaps(rng)
      requires forall i | hits <= i < |es| :: rng.hi < es[i].rng.lo
      ensures [Entry(cur, acc)] + es[hits..] == Emplaced(es, rng, newVal, merge, ok)
    {
      acc := merge(es[0].rng, es[0].val, rng, newVal);
      cur := es[0].rng.Hull(rng);
      var it := 1;
      while it != hits
        invariant 0 < it <= hits
        invariant ok(cur, acc)
        invariant cur.lo <= rng.lo && rng.hi <= cur.hi
        invariant cur.hi == rng.hi || cur.hi == es[it - 1].rng.hi
        invariant Emplaced(es, rng, newVal, merge, ok) == Emplaced(es[it..], cur, acc, merge, ok)
      {
        MergeStep(es[it..], cur, acc, merge, ok);
        acc := merge(es[it].rng, es[it].val, cur, acc);
        cur := es[it].rng.Hull(cur);
        assert es[it..][1..] == es[it + 1..];
        it := it + 1;
      }
      EmplacedStops(es[hits..], cur, acc, merge, ok);
    }

    method Emplace(rng: Range, newVal: V,
                   merge: (Range, V, Range, V) --> V, ghost ok: (Range, V) -> bool)
      requires Valid() && rng.lo <= rng.hi
      requires Merges(merge, ok) && AllOk(entries, ok) && ok(rng, newVal)
      modifies this
      ensures Valid() && AllOk(entries, ok)
      ensures entries == Emplaced(old(entries), rng, newVal, merge, ok)
    {
      hide Disjoint;
      hide AllOk;
      hide Merges;
      hide Emplaced;
      var es := entries;
      FromZero(es);
      EmplacedDisjoint(es, rng, newVal, 0, merge, ok);
      var hitLo, hitHi := HitRange(rng);
      Suffix(es, hitLo, hitHi, rng, ok);
      if hitLo == hitHi {
        EmplacedStops(es[hitLo..], rng, newVal, merge, ok);
        EmplacedSplice(es, hitLo, hitHi, rng, newVal, Entry(rng, newVal), merge, ok);
        entries := es[..hitLo] + [Entry(rng, newVal)] + es[hitLo..];
        return;
      }
      var cur, acc := MergeHits(es[hitLo..], hitHi - hitLo, rng, newVal, merge, ok);
      EmplacedSplice(es, hitLo, hitHi, rng, newVal, Entry(cur, acc), merge, ok);
      entries := es[..hitLo] + [Entry(cur, acc)] + es[hitHi..];
    }

    /** Inserts only when nothing overlaps; otherwise the map is unchanged and the value
      * of an overlapping entry is returned. */
    method EmplaceDisjoint(rng: Range, val: V) returns (clash: Option<V>)
      requires Valid() && rng.lo <= rng.hi
      modifies this
      ensures Valid()
      ensures clash.None? <==> forall e | e in old(entries) :: !e.rng.Overlaps(rng)
      ensures clash.Some? ==>
                && entries == old(entries)
                && exists e :: e in entries && e.rng.Overlaps(rng) && e.val == clash.value
      ensures clash.None? ==> |entries| == |old(entries)| + 1
      ensures clash.None? ==> forall e :: e in entries <==> e == Entry(rng, val) || e in old(entries)
    {
      hide Disjoint;
      var right := UpperBound(rng.lo);
      if right < |entries| {
        if entries[right].rng.lo <= rng.hi {
          Overlapping(entries, right, right, rng);
          return Some(entries[right].val);
        }
      }
      if right != 0 {
        if rng.lo <= entries[right - 1].rng.hi {
          Overlapping(entries, right - 1, right, rng);
          return Some(entries[right - 1].val);
        }
      }
      Apart(entries, right, rng, val);
      InsertedIn(entries, right, Entry(rng, val));
      entries := entries[..right] + [Entry(rng, val)] + entries[right..];
      return None;
    }

    /** The entry whose range holds `addr`, if there is one. */
    method Find(addr: Addr) returns (r: Option<Entry<V>>)
      requires Valid()
      ensures r.Some? ==> r.value in entries && r.value.rng.Contains(addr)
      ensures r.Some? ==> forall e | e in entries && e.rng.Contains(addr) :: e == r.value
      ensures r.None? ==> forall e | e in entries :: !e.rng.Contains(addr)
    {
      var it := UpperBound(addr);
      if it == 0 {
        return None;
      }
      it := it - 1;
      assert forall i | 0 <= i < it :: entries[i].rng.hi < entries[it].rng.lo;
      if addr <= entries[it].rng.hi {
        return Some(entries[it]);
      } else {
        return None;
      }
    }
  }
}
