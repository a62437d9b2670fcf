/** Program headers, and flattening an ELF image into one array (`FlattenElfFile`). */
module Elf {
  import opened Common
  import opened RangedMaps
  import opened Segments
  import opened StagedMems

  /** The fields of `Elf64_Phdr` that are used; `load` is `p_type == PT_LOAD`. */
  datatype Phdr = Phdr(load: bool, paddr: nat, offset: nat, filesz: nat, memsz: nat) {
    predicate Fields64() {
      paddr < U64 && offset < U64 && filesz < U64 && memsz < U64
    }
  }

  datatype Result<+T> = Ok(value: T) | Err(error: Error)

  datatype Error =
    | Overflow(index: nat)
    | PastEndOfFile(index: nat)
    | NoRegion(index: nat)
    | TooLong(index: nat)
    | Misaligned(index: nat)
    | SetMemFailed

  /** The memory image of a segment: bytes from the file, then zeros. */
  function Contents(ph: Phdr, file: seq<byte>): (s: seq<byte>)
    requires ph.offset + Min(ph.filesz, ph.memsz) <= |file|
    ensures |s| == ph.memsz
  {
    var n := Min(ph.filesz, ph.memsz);
    Memcpy(seq(ph.memsz, _ => 0), 0, file, ph.offset, n)
  }

  lemma ContentsByte(ph: Phdr, file: seq<byte>, k: nat)
    requires ph.offset + Min(ph.filesz, ph.memsz) <= |file| && k < ph.memsz
    ensures Contents(ph, file)[k] == if k < ph.filesz then file[ph.offset + k] else 0
  {
  }

  /** Headers that contribute to the flattened image. */
  predicate Accepted(ph: Phdr) {
    ph.load && ph.memsz != 0 && ph.filesz != 0
  }

  predicate InFile(ph: Phdr, size: nat) {
    ph.offset + ph.filesz <= size
  }

  ghost predicate AllInFile(phdrs: seq<Phdr>, size: nat) {
    forall i | 0 <= i < |phdrs| && Accepted(phdrs[i]) :: InFile(phdrs[i], size)
  }

  predicate Covers(ph: Phdr, a: int) {
    ph.paddr <= a < ph.paddr + ph.memsz
  }

  /** An accepted segment whose bytes are all in the file. */
  predicate Usable(ph: Phdr, size: nat) {
    Accepted(ph) && InFile(ph, size)
  }

  /** The usable segments laid over one another in file order, addresses relative to `base`. */
  ghost function Image(phdrs: seq<Phdr>, file: seq<byte>, base: int): ByteMap {
    if phdrs == [] then map[]
    else
      var n := |phdrs| - 1;
      var rest := Image(phdrs[..n], file, base);
      if Usable(phdrs[n], |file|) then Overlay(rest, phdrs[n].paddr - base, Contents(phdrs[n], file)) else rest
  }

  /** The same segments as they are staged: offsets are kept in 32 bits. */
  ghost function StagedImage(phdrs: seq<Phdr>, file: seq<byte>, base: int): ByteMap {
    if phdrs == [] then map[]
    else
      var n := |phdrs| - 1;
      var rest := StagedImage(phdrs[..n], file, base);
      if Usable(phdrs[n], |file|) then Overlay(rest, Offset32(phdrs[n], base), Contents(phdrs[n], file)) else rest
  }

  function Offset32(ph: Phdr, base: int): Addr { (ph.paddr - base) % ADDRESS_SPACE }

  lemma StagedImageStep(phdrs: seq<Phdr>, file: seq<byte>, base: int, i: nat)
    requires i < |phdrs|
    ensures StagedImage(phdrs[..i + 1], file, base) ==
            if Usable(phdrs[i], |file|)
            then Overlay(StagedImage(phdrs[..i], file, base), Offset32(phdrs[i], base), Contents(phdrs[i], file))
            else StagedImage(phdrs[..i], file, base)
  {
    hide Overlay;
    hide Contents;
    hide Usable;
    assert phdrs[..i + 1][..i] == phdrs[..i];
  }

  /** Offsets below 2^32 are staged as they are. */
  lemma {:induction false} StagedExact(phdrs: seq<Phdr>, file: seq<byte>, base: int)
    requires forall i | 0 <= i < |phdrs| && Accepted(phdrs[i]) :: 0 <= phdrs[i].paddr - base < ADDRESS_SPACE
    ensures StagedImage(phdrs, file, base) == Image(phdrs, file, base)
  {
    hide Overlay;
    hide Contents;
    if phdrs != [] {
      StagedExact(phdrs[..|phdrs| - 1], file, base);
    }
  }

  /** A byte of the image comes from the last usable segment that covers its address:
    * from the file, or zero beyond the segment's file size. */
  lemma {:induction false} ImageLastWriter(phdrs: seq<Phdr>, file: seq<byte>, base: int, i: nat, a: int)
    requires i < |phdrs| && Usable(phdrs[i], |file|) && Covers(phdrs[i], base + a)
    requires forall j | i < j < |phdrs| :: !(Usable(phdrs[j], |file|) && Covers(phdrs[j], base + a))
    ensures var k := base + a - phdrs[i].paddr;
            && a in Image(phdrs, file, base)
            && Image(phdrs, file, base)[a] == if k < phdrs[i].filesz then file[phdrs[i].offset + k] else 0
  {
    var n := |phdrs| - 1;
    if i < n {
      ImageLastWriter(phdrs[..n], file, base, i, a);
    } else {
      ContentsByte(phdrs[i], file, base + a - phdrs[i].paddr);
    }
  }

  /** Exactly the addresses covered by a usable segment are in the image. */
  lemma {:induction false} ImageDomain(phdrs: seq<Phdr>, file: seq<byte>, base: int, a: int)
    ensures a in Image(phdrs, file, base) <==>
            exists i | 0 <= i < |phdrs| :: Usable(phdrs[i], |file|) && Covers(phdrs[i], base + a)
  {
    var n := |phdrs| - 1;
    if phdrs != [] {
      ImageDomain(phdrs[..n], file, base, a);
      if a in Image(phdrs[..n], file, base) {
        var i :| 0 <= i < n && Usable(phdrs[..n][i], |file|) && Covers(phdrs[..n][i], base + a);
        assert phdrs[i] == phdrs[..n][i];
      }
      if i :| 0 <= i < n && Usable(phdrs[i], |file|) && Covers(phdrs[i], base + a) {
        assert phdrs[i] == phdrs[..n][i];
      }
    }
  }

  /** The last address of a segment, in 64-bit arithmetic. */
  function SegTop64(ph: Phdr): nat
    requires 0 < ph.memsz
  {
    (ph.paddr + (ph.memsz - 1)) % U64
  }

  predicate Wraps(ph: Phdr)
    requires ph.Fields64()
  {
    ph.memsz != 0 && SegTop64(ph) < ph.paddr
  }

  lemma WrapsExact(ph: Phdr)
    requires ph.Fields64() && 0 < ph.memsz
    ensures Wraps(ph) <==> U64 < ph.paddr + ph.memsz
    ensures !Wraps(ph) ==> SegTop64(ph) == ph.paddr + ph.memsz - 1
  {
    if ph.paddr + ph.memsz - 1 < U64 {
      assert SegTop64(ph) == ph.paddr + ph.memsz - 1;
    } else {
      assert SegTop64(ph) == ph.paddr + ph.memsz - 1 - U64;
    }
  }

  ghost predicate Headers64(phdrs: seq<Phdr>) {
    forall i | 0 <= i < |phdrs| :: phdrs[i].Fields64() && phdrs[i].offset + phdrs[i].filesz < U64
  }

  /** `low` and `high` are the least and greatest address of the accepted headers. */
  ghost predicate Extent(phdrs: seq<Phdr>, low: int, high: int) {
    && (forall i | 0 <= i < |phdrs| && Accepted(phdrs[i]) ::
          low <= phdrs[i].paddr && phdrs[i].paddr + phdrs[i].memsz - 1 <= high)
    && (exists i | 0 <= i < |phdrs| :: Accepted(phdrs[i]) && phdrs[i].paddr == low)
    && (exists i | 0 <= i < |phdrs| :: Accepted(phdrs[i]) && phdrs[i].paddr + phdrs[i].memsz - 1 == high)
  }

  method FindExtent(phdrs: seq<Phdr>) returns (r: Result<bool>, low: nat, high: nat)
    requires Headers64(phdrs)
    ensures r.Err? <==> exists i | 0 <= i < |phdrs| :: Accepted(phdrs[i]) && Wraps(phdrs[i])
    ensures r.Err? ==> r.error.Overflow? && r.error.index < |phdrs| && Accepted(phdrs[r.error.index])
                       && Wraps(phdrs[r.error.index])
    ensures r.Ok? ==> (r.value <==> exists i | 0 <= i < |phdrs| :: Accepted(phdrs[i]))
    ensures r == Ok(true) ==> Extent(phdrs, low, high)
  {
    var any := false;
    low, high := 0, 0;
    for i := 0 to |phdrs|
      invariant forall j | 0 <= j < i :: !(Accepted(phdrs[j]) && Wraps(phdrs[j]))
      invariant any <==> exists j | 0 <= j < i :: Accepted(phdrs[j])
      invariant any ==> Extent(phdrs[..i], low, high)
    {
      var ph := phdrs[i];
      if !ph.load || ph.memsz == 0 || ph.filesz == 0 {
        continue;
      }
      if !any || ph.paddr < low {
        low := ph.paddr;
      }
      WrapsExact(ph);
      var segTop := SegTop64(ph);
      if segTop < ph.paddr {
        return Err(Overflow(i)), low, high;
      }
      if !any || segTop > high {
        high := segTop;
      }
      any := true;
    }
    assert phdrs[..|phdrs|] == phdrs;
    r := Ok(any);
  }

  /** No accepted segment ends 2^32 or more above the start of another: the offsets kept
    * in 32 bits are exact. */
  ghost predicate FitsStaging(phdrs: seq<Phdr>) {
    forall i, j | 0 <= i < |phdrs| && 0 <= j < |phdrs| && Accepted(phdrs[i]) && Accepted(phdrs[j]) ::
      phdrs[i].paddr + phdrs[i].memsz - phdrs[j].paddr <= ADDRESS_SPACE
  }

  /** `low` is the least address of the accepted headers. */
  ghost predicate Lowest(phdrs: seq<Phdr>, low: int) {
    && (forall i | 0 <= i < |phdrs| && Accepted(phdrs[i]) :: low <= phdrs[i].paddr)
    && (exists i | 0 <= i < |phdrs| :: Accepted(phdrs[i]) && phdrs[i].paddr == low)
  }

  /** What staging asserts of each segment, with the offset it gets. */
  ghost predicate Stageable(phdrs: seq<Phdr>) {
    forall i, low | 0 <= i < |phdrs| && Accepted(phdrs[i]) && Lowest(phdrs, low) ::
      Offset32(phdrs[i], low) + phdrs[i].memsz <= ADDRESS_SPACE
  }

  ghost predicate AnyAccepted(phdrs: seq<Phdr>) {
    exists i | 0 <= i < |phdrs| :: Accepted(phdrs[i])
  }

  ghost predicate AnyWraps(phdrs: seq<Phdr>)
    requires Headers64(phdrs)
  {
    exists i | 0 <= i < |phdrs| :: Accepted(phdrs[i]) && Wraps(phdrs[i])
  }

  /** The whole image, from its lowest to its highest address. */
  ghost predicate Flattened(phdrs: seq<Phdr>, file: seq<byte>, low: int, high: int, flat: seq<byte>)
    requires low <= high
  {
    |flat| == high - low + 1 && flat == Flat(Image(phdrs, file, low), 0, high - low)
  }

  // ----- The same in header fields alone ---------------------------------------------

  /** Header `ph` has byte `b` for address `a`. */
  ghost predicate Lays(ph: Phdr, file: seq<byte>, a: int, b: byte) {
    && ph.load && 0 < ph.filesz && ph.offset + ph.filesz <= |file|
    && ph.paddr <= a < ph.paddr + ph.memsz
    && b == if a - ph.paddr < ph.filesz then file[ph.offset + (a - ph.paddr)] else 0
  }

  /** ... and no later header has any byte for it. */
  ghost predicate LastLays(phdrs: seq<Phdr>, file: seq<byte>, i: nat, a: int, b: byte) {
    && i < |phdrs| && Lays(phdrs[i], file, a, b)
    && forall j, c | i < j < |phdrs| :: !Lays(phdrs[j], file, a, c)
  }

  /** No header has a byte for the address. */
  ghost predicate Gap(phdrs: seq<Phdr>, file: seq<byte>, a: int) {
    forall i, b | 0 <= i < |phdrs| :: !Lays(phdrs[i], file, a, b)
  }

  /** The array goes from the lowest to the highest address some header has a byte for; at each address it has the
    * byte of the last header that has one, and zero in the gaps. */
  ghost predicate FlatRight(phdrs: seq<Phdr>, file: seq<byte>, low: int, high: int, flat: seq<byte>) {
    && |flat| == high - low + 1
    && (exists i, b | 0 <= i < |phdrs| :: Lays(phdrs[i], file, low, b))
    && (exists i, b | 0 <= i < |phdrs| :: Lays(phdrs[i], file, high, b))
    && (forall i, a, b | 0 <= i < |phdrs| && Lays(phdrs[i], file, a, b) :: low <= a <= high)
    && (forall i: nat, a, b | LastLays(phdrs, file, i, a, b) && low <= a <= high :: flat[a - low] == b)
    && forall a | low <= a <= high && Gap(phdrs, file, a) :: flat[a - low] == 0
  }

  lemma LaysOf(ph: Phdr, file: seq<byte>, a: int) returns (b: byte)
    requires Usable(ph, |file|) && Covers(ph, a)
    ensures Lays(ph, file, a, b)
  {
    b := if a - ph.paddr < ph.filesz then file[ph.offset + (a - ph.paddr)] else 0;
  }

  lemma LaidInImage(phdrs: seq<Phdr>, file: seq<byte>, low: int, a: int)
    ensures a - low in Image(phdrs, file, low) <==> exists i, b | 0 <= i < |phdrs| :: Lays(phdrs[i], file, a, b)
    ensures forall i: nat, b | LastLays(phdrs, file, i, a, b) ::
              a - low in Image(phdrs, file, low) && Image(phdrs, file, low)[a - low] == b
  {
    hide Image;
    ImageDomain(phdrs, file, low, a - low);
    if a - low in Image(phdrs, file, low) {
      var i :| 0 <= i < |phdrs| && Usable(phdrs[i], |file|) && Covers(phdrs[i], low + (a - low));
      var b := LaysOf(phdrs[i], file, a);
    }
    forall i: nat, b | LastLays(phdrs, file, i, a, b)
      ensures a - low in Image(phdrs, file, low) && Image(phdrs, file, low)[a - low] == b
    {
      forall j | i < j < |phdrs| ensures !(Usable(phdrs[j], |file|) && Covers(phdrs[j], low + (a - low))) {
        if Usable(phdrs[j], |file|) && Covers(phdrs[j], low + (a - low)) {
          var c := LaysOf(phdrs[j], file, a);
        }
      }
      ImageLastWriter(phdrs, file, low, i, a - low);
    }
  }

  lemma FlattenedRight(phdrs: seq<Phdr>, file: seq<byte>, low: int, high: int, flat: seq<byte>)
    requires AllInFile(phdrs, |file|) && Extent(phdrs, low, high) && low <= high
    requires Flattened(phdrs, file, low, high, flat)
    ensures FlatRight(phdrs, file, low, high, flat)
  {
    hide Image;
    hide Lays;
    forall i, a, b | 0 <= i < |phdrs| && Lays(phdrs[i], file, a, b) ensures low <= a <= high {
      LaysInside(phdrs, file, low, high, i, a, b);
    }
    var i :| 0 <= i < |phdrs| && Accepted(phdrs[i]) && phdrs[i].paddr == low;
    var j :| 0 <= j < |phdrs| && Accepted(phdrs[j]) && phdrs[j].paddr + phdrs[j].memsz - 1 == high;
    var b := LaysOf(phdrs[i], file, low);
    var c := LaysOf(phdrs[j], file, high);
    forall i: nat, a, b | LastLays(phdrs, file, i, a, b) && low <= a <= high ensures flat[a - low] == b {
      LaidInImage(phdrs, file, low, a);
    }
    forall a | low <= a <= high && Gap(phdrs, file, a) ensures flat[a - low] == 0
    {
      LaidInImage(phdrs, file, low, a);
    }
  }

  lemma LaysInside(phdrs: seq<Phdr>, file: seq<byte>, low: int, high: int, i: nat, a: int, b: byte)
    requires Extent(phdrs, low, high) && i < |phdrs| && Lays(phdrs[i], file, a, b)
    ensures low <= a <= high
  {
    assert Accepted(phdrs[i]);
  }

  /** No array of at most 2^32 bytes holds a wider image. */
  lemma FlatRightIff(phdrs: seq<Phdr>, file: seq<byte>, low: int, high: int, flat: seq<byte>)
    requires AllInFile(phdrs, |file|) && Extent(phdrs, low, high) && low <= high
    requires Flattened(phdrs, file, low, high, flat) <==> high - low < ADDRESS_SPACE
    requires |flat| <= ADDRESS_SPACE
    ensures high - low < 0x1_0000_0000 <==> FlatRight(phdrs, file, low, high, flat)
  {
    hide Image;
    if high - low < ADDRESS_SPACE {
      FlattenedRight(phdrs, file, low, high, flat);
    }
  }

  /** When flattening succeeds. */
  lemma FlattensIff(phdrs: seq<Phdr>, size: nat)
    requires Headers64(phdrs)
    ensures !AnyWraps(phdrs) && AllInFile(phdrs, size) <==>
            forall i | 0 <= i < |phdrs| && phdrs[i].load && 0 < phdrs[i].memsz && 0 < phdrs[i].filesz ::
              phdrs[i].paddr + phdrs[i].memsz <= U64 && phdrs[i].offset + phdrs[i].filesz <= size
  {
    hide Wraps;
    forall i | 0 <= i < |phdrs| && 0 < phdrs[i].memsz
      ensures Wraps(phdrs[i]) <==> U64 < phdrs[i].paddr + phdrs[i].memsz
    {
      WrapsExact(phdrs[i]);
    }
  }

  /** One array holding the whole image; it does so exactly if the image spans at most 2^32 bytes. */
  method FlattenElf(phdrs: seq<Phdr>, file: seq<byte>) returns (r: Result<seq<byte>>, ghost low: int, ghost high: int)
    requires Headers64(phdrs)
    requires !AnyWraps(phdrs) ==> Stageable(phdrs)
    ensures r.Ok? <==> !AnyWraps(phdrs) && AllInFile(phdrs, |file|)
    ensures r.Err? ==> r.error.Overflow? == AnyWraps(phdrs) && r.error.PastEndOfFile? == !AnyWraps(phdrs)
    ensures r.Ok? && !AnyAccepted(phdrs) ==> r.value == []
    ensures r.Ok? && AnyAccepted(phdrs) ==>
              && Extent(phdrs, low, high) && low <= high
              && (Flattened(phdrs, file, low, high, r.value) <==> FitsStaging(phdrs))
    ensures r.Ok? <==> forall i | 0 <= i < |phdrs| && phdrs[i].load && 0 < phdrs[i].memsz && 0 < phdrs[i].filesz ::
              phdrs[i].paddr + phdrs[i].memsz <= U64 && phdrs[i].offset + phdrs[i].filesz <= |file|
    ensures r.Ok? && (exists i | 0 <= i < |phdrs| :: phdrs[i].load && 0 < phdrs[i].memsz && 0 < phdrs[i].filesz) ==>
              (high - low < 0x1_0000_0000 <==> FlatRight(phdrs, file, low, high, r.value))
    ensures r.Ok? && (forall i | 0 <= i < |phdrs| :: !(phdrs[i].load && 0 < phdrs[i].memsz && 0 < phdrs[i].filesz)) ==>
              r.value == []
  {
    hide Image;
    hide FlatRight;
    hide Wraps;
    hide StagedImage;
    hide Flat;
    var extent, lowest, highest := FindExtent(phdrs);
    low, high := lowest, highest;
    FlattensIff(phdrs, |file|);
    if extent.Err? {
      return Err(extent.error), low, high;
    }
    if !extent.value {
      return Ok([]), low, high;
    }
    assert Lowest(phdrs, low);
    var staged, short := StageAccepted(phdrs, file, lowest);
    if short.Some? {
      return Err(PastEndOfFile(short.value)), low, high;
    }
    SpanIff(phdrs, low, high);
    if high - low < ADDRESS_SPACE {
      StagedExact(phdrs, file, low);
      ImageBounds(phdrs, file, low, high, staged);
    }
    var flat := staged.GetFlat();
    r := Ok(flat);
    FlatRightIff(phdrs, file, low, high, flat);
  }

  /** The extent is that of the widest pair of segments. */
  lemma SpanIff(phdrs: seq<Phdr>, low: int, high: int)
    requires Extent(phdrs, low, high)
    ensures FitsStaging(phdrs) <==> high - low < ADDRESS_SPACE
  {
    var i :| 0 <= i < |phdrs| && Accepted(phdrs[i]) && phdrs[i].paddr == low;
    var j :| 0 <= j < |phdrs| && Accepted(phdrs[j]) && phdrs[j].paddr + phdrs[j].memsz - 1 == high;
  }

  /** The second loop of `FlattenElfFile`: stage every accepted segment relative to the
    * lowest address, stopping at the first one that does not fit in the file. */
  method StageAccepted(phdrs: seq<Phdr>, file: seq<byte>, lowest: nat) returns (ret: StagedMem, short: Option<nat>)
    requires Headers64(phdrs)
    requires forall i | 0 <= i < |phdrs| && Accepted(phdrs[i]) ::
               Offset32(phdrs[i], lowest) + phdrs[i].memsz <= ADDRESS_SPACE
    ensures fresh(ret) && fresh(ret.segs) && ret.Valid()
    ensures short.None? <==> AllInFile(phdrs, |file|)
    ensures short.None? ==> ret.Staged() == StagedImage(phdrs, file, lowest)
    ensures short.Some? ==> short.value < |phdrs| && Accepted(phdrs[short.value]) && !InFile(phdrs[short.value], |file|)
    ensures short.Some? ==> forall j | 0 <= j < short.value && Accepted(phdrs[j]) :: InFile(phdrs[j], |file|)
  {
    hide Placed;
    hide Bytes;
    hide StagedImage;
    ret := new StagedMem(1);
    NothingStaged(phdrs, file, lowest);
    for i := 0 to |phdrs|
      invariant fresh(ret) && fresh(ret.segs) && ret.Valid() && ret.width == 1
      invariant forall j | 0 <= j < i && Accepted(phdrs[j]) :: InFile(phdrs[j], |file|)
      invariant ret.Staged() == StagedImage(phdrs[..i], file, lowest)
    {
      var ph := phdrs[i];
      StagedImageStep(phdrs, file, lowest, i);
      if !ph.load {
        continue;
      }
      if ph.memsz == 0 || ph.filesz == 0 {
        continue;
      }
      if |file| < (ph.offset + ph.filesz) % U64 {
        return ret, Some(i);
      }
      ret.AddSegment(Offset32(ph, lowest), Contents(ph, file));
    }
    assert phdrs[..|phdrs|] == phdrs;
    short := None;
  }

  lemma NothingStaged(phdrs: seq<Phdr>, file: seq<byte>, base: int)
    ensures StagedImage(phdrs[..0], file, base) == map[]
  {
  }

  lemma ImageBounds(phdrs: seq<Phdr>, file: seq<byte>, low: int, high: int, staged: StagedMem)
    requires AllInFile(phdrs, |file|) && Extent(phdrs, low, high)
    requires staged.Valid() && staged.Staged() == Image(phdrs, file, low)
    ensures staged.segs.entries != [] && staged.minAddr == 0 && staged.maxAddr == high - low
  {
    hide Image;
    hide Bytes;
    hide Overlay;
    var i :| 0 <= i < |phdrs| && Accepted(phdrs[i]) && phdrs[i].paddr == low;
    assert Usable(phdrs[i], |file|) && Covers(phdrs[i], low);
    ImageDomain(phdrs, file, low, 0);
    var j :| 0 <= j < |phdrs| && Accepted(phdrs[j]) && phdrs[j].paddr + phdrs[j].memsz - 1 == high;
    assert Usable(phdrs[j], |file|) && Covers(phdrs[j], low + (high - low));
    ImageDomain(phdrs, file, low, high - low);
    ImageDomain(phdrs, file, low, staged.minAddr);
    ImageDomain(phdrs, file, low, staged.maxAddr);
    BytesNone(staged.segs.entries);
  }

  lemma BytesNone(es: seq<Entry<seq<byte>>>)
    ensures es == [] ==> Bytes(es) == map[]
  {
  }
}
