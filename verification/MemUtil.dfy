/** Memory areas, the staging area, and loading it into the design's memories
  * (`DpiMemUtil` and `WriteSegment` of `dpi_memutil.cc`). */
module MemUtil {
  import opened Arith
  import opened Common
  import opened RangedMaps
  import opened Segments
  import opened StagedMems
  import opened Elf

  // ----- Registered areas ------------------------------------------------------------

  /** A memory's name, or the scope it is at. */
  type Name = nat

  /** A memory area; `size` is zero when its address is unknown. */
  datatype MemArea = MemArea(name: Name, location: Name, widthByte: nat, base: Addr, size: Addr) {
    /** The area holds all of the `n` addresses from `a` upwards. */
    predicate Holds(a: int, n: int) { size > 0 && base <= a && a + n <= base + size }
  }

  type Areas = map<Name, MemArea>

  /** No registered area shares an address with the range. */
  ghost predicate Free(areas: Areas, base: int, size: int) {
    forall n | n in areas && areas[n].size > 0 ::
      areas[n].base + areas[n].size <= base || base + size <= areas[n].base
  }

  /** The range is not empty, ends inside the address space and is free. */
  ghost predicate Fits(areas: Areas, base: int, size: int) {
    0 < size && base + size <= ADDRESS_SPACE && Free(areas, base, size)
  }

  ghost predicate Named(areas: Areas) {
    forall n | n in areas :: areas[n].name == n && areas[n].widthByte <= 64
  }

  /** The areas with an address have words; a width of zero can be registered, but not loaded. */
  ghost predicate Worded(areas: Areas) {
    forall n | n in areas && areas[n].size > 0 :: 0 < areas[n].widthByte
  }

  /** The address map lists exactly the areas with an address, each at its own range. */
  ghost predicate Consistent(areas: Areas, es: seq<Entry<Name>>) {
    && Disjoint(es)
    && (forall n | n in areas :: areas[n].base + areas[n].size <= ADDRESS_SPACE)
    && (forall e | e in es :: e.val in areas && areas[e.val].size > 0
                              && areas[e.val].base == e.rng.lo && areas[e.val].base + areas[e.val].size - 1 == e.rng.hi)
    && (forall n | n in areas && areas[n].size > 0 ::
          Entry(Range(areas[n].base, areas[n].base + areas[n].size - 1), n) in es)
  }

  /** No address belongs to two areas. */
  lemma AreasDisjoint(areas: Areas, es: seq<Entry<Name>>, n: Name, m: Name, a: int)
    requires Consistent(areas, es) && n in areas && m in areas
    requires areas[n].Holds(a, 1) && areas[m].Holds(a, 1)
    ensures n == m
  {
    var en := Entry(Range(areas[n].base, areas[n].base + areas[n].size - 1), n);
    var em := Entry(Range(areas[m].base, areas[m].base + areas[m].size - 1), m);
    var i :| 0 <= i < |es| && es[i] == en;
    var j :| 0 <= j < |es| && es[j] == em;
    assert i == j;
  }

  lemma ConsistentAdd(areas: Areas, es: seq<Entry<Name>>, es': seq<Entry<Name>>, area: MemArea)
    requires Consistent(areas, es) && area.name in areas && areas[area.name].size == 0
    requires area.size > 0 && area.base + area.size <= ADDRESS_SPACE && Disjoint(es')
    requires forall e :: e in es' <==> e == Entry(Range(area.base, area.base + area.size - 1), area.name) || e in es
    ensures Consistent(areas[area.name := area], es')
  {
    hide Disjoint;
  }

  lemma AddedNameKeeps(areas: Areas, es: seq<Entry<Name>>, area: MemArea, loc: Option<(Addr, Addr)>)
    requires Consistent(areas, es) && area.name !in areas && area.base == area.size == 0
    ensures Consistent(areas[area.name := area], es)
    ensures loc.Some? ==> (Fits(areas[area.name := area], loc.value.0, loc.value.1)
                           <==> Fits(areas, loc.value.0, loc.value.1))
  {
  }

  // ----- The design's memories -------------------------------------------------------

  /** A memory instance in the design, as `simutil_set_mem` sees it. */
  class DesignMemory {
    const width: nat  // bytes in a word
    var words: seq<seq<byte>>

    ghost predicate Valid()
      reads this
    {
      // the word index is a C `int`
      && 0 < width <= 64 && |words| <= 0x8000_0000
      && forall w | 0 <= w < |words| :: |words[w]| == width
    }

    constructor (width: nat, words: seq<seq<byte>>)
      requires 0 < width <= 64 && |words| <= 0x8000_0000
      requires forall w | 0 <= w < |words| :: |words[w]| == width
      ensures Valid() && this.width == width && this.words == words
    {
      this.width, this.words := width, words;
    }

    /** Writes one word from a 64-byte buffer; false if there is no such word. */
    method SetMem(index: int, minibuf: seq<byte>) returns (ok: bool)
      requires Valid() && |minibuf| == 64
      modifies this
      ensures Valid()
      ensures ok <==> 0 <= index < |old(words)|
      ensures words == if ok then old(words)[index := minibuf[..width]] else old(words)
    {
      ok := 0 <= index < |words|;
      if ok {
        words := words[index := minibuf[..width]];
      }
    }
  }

  /** Conversion of a `uint32_t` to a C `int`. */
  function ToInt(x: Addr): int {
    if x < 0x8000_0000 then x else x - ADDRESS_SPACE
  }

  /** Word `i` of `data`, zero-padded. */
  function WordOf(data: seq<byte>, i: nat, width: nat): (word: seq<byte>)
    ensures |word| == width
  {
    seq(width, k requires 0 <= k => if i * width + k < |data| then data[i * width + k] else 0)
  }

  /** How many words hold `n` bytes. */
  function WordCount(n: nat, width: nat): nat
    requires 0 < width
  {
    (n + width - 1) / width
  }

  /** `data` written word by word from word `at` upwards, as far as the first `n` words. */
  ghost function Written(words: seq<seq<byte>>, data: seq<byte>, at: nat, n: nat, width: nat): seq<seq<byte>> {
    seq(|words|, w requires 0 <= w => if at <= w < at + n && w < |words| then WordOf(data, w - at, width)
                                      else if w < |words| then words[w] else [])
  }

  lemma WordCounts(n: nat, width: nat)
    requires 0 < width
    ensures WordCount(n, width) == n / width + (if n % width != 0 then 1 else 0)
    ensures forall i: nat | i < n / width :: i * width + width <= n
    ensures n / width * width + n % width == n
    ensures WordCount(n, width) * width < n + width
  {
    var q, r := n / width, n % width;
    assert n == q * width + r;
    forall i: nat | i < q ensures i * width + width <= n {
      assert (i + 1) * width <= q * width;
    }
    if r == 0 {
      assert n + width - 1 == q * width + (width - 1);
      DivUnique(n + width - 1, width, q, width - 1);
    } else {
      assert n + width - 1 == (q + 1) * width + (r - 1);
      DivUnique(n + width - 1, width, q + 1, r - 1);
    }
  }

  lemma WrittenNone(words: seq<seq<byte>>, data: seq<byte>, at: nat, width: nat)
    ensures Written(words, data, at, 0, width) == words
  {
  }

  lemma WrittenStep(words: seq<seq<byte>>, data: seq<byte>, at: nat, n: nat, width: nat)
    requires at + n < |words|
    ensures Written(words, data, at, n + 1, width)
         == Written(words, data, at, n, width)[at + n := WordOf(data, n, width)]
  {
  }

  lemma WordOfBuffer(minibuf: seq<byte>, data: seq<byte>, i: nat, n: nat, width: nat)
    requires |minibuf| == 64 && 0 < n <= width <= 64 && i * width + n <= |data|
    requires n < width ==> i * width + n == |data| && minibuf == seq(64, _ => 0)
    ensures Memcpy(minibuf, 0, data, i * width, n)[..width] == WordOf(data, i, width)
  {
  }

  /** Copies the full data words. */
  method WriteFullWords(data: seq<byte>, at: nat, full: nat, mem: DesignMemory) returns (ok: bool)
    requires mem.Valid() && at + full <= ADDRESS_SPACE
    requires forall i: nat | i < full :: i * mem.width + mem.width <= |data|
    modifies mem
    ensures mem.Valid() && |mem.words| == |old(mem.words)|
    ensures ok <==> full == 0 || at + full <= |mem.words|
    ensures ok ==> mem.words == Written(old(mem.words), data, at, full, mem.width)
  {
    hide Written;
    hide WordOf;
    hide Memcpy;
    var minibuf: seq<byte> := seq(64, _ => 0);
    ghost var before := mem.words;
    WrittenNone(before, data, at, mem.width);
    for i := 0 to full
      invariant |minibuf| == 64 && mem.Valid() && |mem.words| == |before| && (i > 0 ==> at + i <= |before|)
      invariant mem.words == Written(before, data, at, i, mem.width)
    {
      var srcByte := i * mem.width;
      WordOfBuffer(minibuf, data, i, mem.width, mem.width);
      minibuf := Memcpy(minibuf, 0, data, srcByte, mem.width);
      var dstWord := at + i;
      var stored := mem.SetMem(ToInt(dstWord), minibuf);
      if !stored {
        return false;
      }
      WrittenStep(before, data, at, i, mem.width);
    }
    ok := true;
  }

  /** Copies the partial data, in a buffer of zeros. */
  method WritePartialWord(data: seq<byte>, at: nat, full: nat, part: nat, mem: DesignMemory,
                          ghost before: seq<seq<byte>>)
    returns (ok: bool)
    requires mem.Valid() && at + full < ADDRESS_SPACE && 0 < part < mem.width && full * mem.width + part == |data|
    requires |before| == |mem.words| && mem.words == Written(before, data, at, full, mem.width)
    modifies mem
    ensures mem.Valid() && |mem.words| == |before|
    ensures ok <==> at + full < |before|
    ensures ok ==> mem.words == Written(before, data, at, full + 1, mem.width)
  {
    hide Written;
    hide WordOf;
    hide Memcpy;
    var minibuf: seq<byte> := seq(64, _ => 0);
    var dstWord := at + full;
    var srcByte := full * mem.width;
    WordOfBuffer(minibuf, data, full, part, mem.width);
    minibuf := Memcpy(minibuf, 0, data, srcByte, part);
    ok := mem.SetMem(ToInt(dstWord), minibuf);
    if ok {
      WrittenStep(before, data, at, full, mem.width);
    }
  }

  /** Writes a segment that starts on a word. Fails at the first word the memory does not
    * have; otherwise exactly the words the data reaches are replaced, the last one padded
    * with zeros. */
  method WriteSegment(m: MemArea, offset: Addr, data: seq<byte>, mem: DesignMemory) returns (ok: bool)
    requires mem.Valid() && mem.width == m.widthByte <= 64
    requires m.size == 0 || offset + |data| <= m.size
    requires offset + |data| <= ADDRESS_SPACE && |data| < ADDRESS_SPACE
    requires offset % m.widthByte == 0
    modifies mem
    ensures mem.Valid() && |mem.words| == |old(mem.words)|
    ensures ok <==> offset / m.widthByte + WordCount(|data|, m.widthByte) <= |mem.words| || data == []
    ensures ok ==>
              mem.words
              == Written(old(mem.words), data, offset / m.widthByte, WordCount(|data|, m.widthByte), m.widthByte)
  {
    hide Written;
    hide WordCount;
    var width := m.widthByte;
    ghost var before := mem.words;
    var fullDataWords := |data| / width;
    var partDataWordLen := |data| % width;
    var wordOffset := offset / width;
    WordCounts(|data|, width);
    WordIndices(offset, |data|, width, fullDataWords, partDataWordLen);
    NoData(data, width, fullDataWords, partDataWordLen);
    ok := WriteFullWords(data, wordOffset, fullDataWords, mem);
    if ok && partDataWordLen != 0 {
      ok := WritePartialWord(data, wordOffset, fullDataWords, partDataWordLen, mem, before);
    }
  }

  lemma NoData(data: seq<byte>, width: nat, full: nat, part: nat)
    requires 0 < width && full * width + part == |data|
    ensures data == [] <==> full == 0 && part == 0
  {
    if full > 0 {
      MulMono(1, full, width);
    }
  }

  /** The word indices of a segment inside the address space have 32 bits. */
  lemma WordIndices(offset: Addr, size: nat, width: nat, full: nat, part: nat)
    requires 0 < width && offset % width == 0 && offset + size <= ADDRESS_SPACE && size < ADDRESS_SPACE
    requires full * width + part == size
    ensures offset / width + full <= ADDRESS_SPACE && (part > 0 ==> offset / width + full < ADDRESS_SPACE)
  {
    var q := offset / width;
    assert offset == q * width;
    assert (q + full) * width == offset + full * width;
    MulMono(1, width, q + full);
    assert 1 * (q + full) <= width * (q + full);
  }

  // ----- Memory contents after loading -----------------------------------------------

  function AreaByte(words: seq<seq<byte>>, width: nat, a: nat): byte
    requires 0 < width && a < |words| * width && forall w | 0 <= w < |words| :: |words[w]| == width
  {
    WordCovers(|words|, width, a);
    words[a / width][a % width]
  }

  lemma WordCovers(count: nat, width: nat, a: nat)
    requires 0 < width && a < count * width
    ensures a / width < count && a / width * width + a % width == a
  {
    if count <= a / width {
      MulMono(count, a / width, width);
      assert false;
    }
  }

  /** Word `w` as staged, zero where nothing is. */
  ghost function StagedWord(m: ByteMap, w: nat, width: nat): seq<byte> {
    seq(width, k requires 0 <= k => if w * width + k in m then m[w * width + k] else 0)
  }

  /** Words whose first byte is staged are replaced by what is staged; the others stay. */
  ghost function Loaded(words: seq<seq<byte>>, m: ByteMap, width: nat): seq<seq<byte>> {
    seq(|words|, w requires 0 <= w =>
      if w * width in m then StagedWord(m, w, width) else if w < |words| then words[w] else [])
  }

  /** Every staged byte lies in a word whose first byte is staged too. */
  ghost predicate FromWordStart(m: ByteMap, width: nat)
    requires 0 < width
  {
    forall a | a in m :: 0 <= a && a / width * width in m
  }

  /** `Loaded`, seen byte by byte: staged bytes are in place, the rest of a word that has
    * a staged byte is zero, and everything else is what it was. */
  ghost predicate HoldsImage(before: seq<seq<byte>>, after: seq<seq<byte>>, m: ByteMap, width: nat)
    requires 0 < width
    requires forall w | 0 <= w < |before| :: |before[w]| == width
  {
    && |after| == |before| && (forall w | 0 <= w < |after| :: |after[w]| == width)
    && forall a: nat | a < |before| * width ::
         AreaByte(after, width, a) ==
           if a in m then m[a]
           else if exists b :: b in m && b / width == a / width then 0
           else AreaByte(before, width, a)
  }

  lemma LoadedHoldsImage(words: seq<seq<byte>>, m: ByteMap, width: nat)
    requires 0 < width && forall w | 0 <= w < |words| :: |words[w]| == width
    requires FromWordStart(m, width)
    ensures HoldsImage(words, Loaded(words, m, width), m, width)
  {
    hide FromWordStart;
    hide AreaByte;
    var after := Loaded(words, m, width);
    forall a: nat | a < |words| * width
      ensures AreaByte(after, width, a) ==
                if a in m then m[a]
                else if exists b :: b in m && b / width == a / width then 0
                else AreaByte(words, width, a)
    {
      LoadedByte(words, m, width, a);
      WordTouched(m, width, a);
    }
  }

  /** A byte of a loaded memory, by whether the first byte of its word is staged. */
  lemma LoadedByte(words: seq<seq<byte>>, m: ByteMap, width: nat, a: nat)
    requires 0 < width && (forall w | 0 <= w < |words| :: |words[w]| == width) && a < |words| * width
    ensures |Loaded(words, m, width)| == |words|
    ensures forall w | 0 <= w < |words| :: |Loaded(words, m, width)[w]| == width
    ensures AreaByte(Loaded(words, m, width), width, a) ==
            if a / width * width in m then (if a in m then m[a] else 0) else AreaByte(words, width, a)
  {
    WordCovers(|words|, width, a);
  }

  /** A word is touched exactly if its first byte is staged. */
  lemma WordTouched(m: ByteMap, width: nat, a: nat)
    requires 0 < width && FromWordStart(m, width)
    ensures a / width * width in m <==> exists b :: b in m && b / width == a / width
    ensures a in m ==> a / width * width in m
  {
    DivUnique(a / width * width, width, a / width, 0);
  }

  /** A word boundary at or below an address, and the aligned range the address is in. */
  lemma WordStartInRange(lo: nat, a: nat, width: nat)
    requires 0 < width && lo % width == 0 && lo <= a
    ensures lo <= a / width * width <= a
  {
    var q, w := lo / width, a / width;
    assert lo == q * width && a == w * width + a % width;
    if w < q {
      MulMono(w + 1, q, width);
      assert false;
    }
    MulMono(q, w, width);
  }

  /** The staged segments of an aligned, disjoint list start words. */
  lemma StagedFromWordStart(es: seq<Entry<seq<byte>>>, width: nat)
    requires 0 < width && Disjoint(es) && AllOk(es, Exact) && Aligned(es, width)
    ensures FromWordStart(Bytes(es), width)
  {
    hide Bytes;
    forall a | a in Bytes(es) ensures 0 <= a && a / width * width in Bytes(es) {
      var k := BytesFrom(es, a);
      WordStartInRange(es[k].rng.lo, a, width);
      BytesOf(es, k, a / width * width);
    }
  }

  /** Writing one more aligned segment above those already written brings the memory to
    * what is staged with that segment: its padding reaches no byte of the others. */
  lemma WrittenLoaded(words: seq<seq<byte>>, m: ByteMap, lo: nat, data: seq<byte>, width: nat)
    requires 0 < width && lo % width == 0 && (forall a | a in m :: a < lo)
    ensures Written(Loaded(words, m, width), data, lo / width, WordCount(|data|, width), width)
         == Loaded(words, Overlay(m, lo, data), width)
  {
    hide Overlay;
    hide StagedWord;
    hide WordOf;
    hide WordCount;
    var at, n, m' := lo / width, WordCount(|data|, width), Overlay(m, lo, data);
    assert lo == at * width;
    WordCounts(|data|, width);
    WordCountUp(|data|, width);
    forall w | 0 <= w < |words|
      ensures Written(Loaded(words, m, width), data, at, n, width)[w] == Loaded(words, m', width)[w]
    {
      if w < at {
        WordBelow(m, lo, data, width, w, at);
      } else {
        WrittenWord(m, lo, data, width, w, at, n);
      }
    }
  }

  lemma WordBelow(m: ByteMap, lo: nat, data: seq<byte>, width: nat, w: nat, at: nat)
    requires 0 < width && lo == at * width && w < at
    ensures w * width in Overlay(m, lo, data) <==> w * width in m
    ensures StagedWord(Overlay(m, lo, data), w, width) == StagedWord(m, w, width)
  {
    MulMono(w + 1, at, width);
    assert (w + 1) * width == w * width + width;
  }

  lemma WordCountUp(n: nat, width: nat)
    requires 0 < width
    ensures n <= WordCount(n, width) * width
  {
    WordCounts(n, width);
  }

  lemma WrittenWord(m: ByteMap, lo: nat, data: seq<byte>, width: nat, w: nat, at: nat, n: nat)
    requires 0 < width && lo == at * width && at <= w && (forall a | a in m :: a < lo)
    requires |data| <= n * width < |data| + width
    ensures w * width !in m
    ensures w < at + n <==> w * width in Overlay(m, lo, data)
    ensures w < at + n ==> WordOf(data, w - at, width) == StagedWord(Overlay(m, lo, data), w, width)
  {
    var i := w - at;
    MulMono(0, i, width);
    assert w * width == lo + i * width;
    if i < n {
      MulMono(i, n - 1, width);
      assert (n - 1) * width == n * width - width;
      WordInside(m, lo, data, width, w, i);
    } else {
      MulMono(n, i, width);
    }
  }

  lemma WordInside(m: ByteMap, lo: nat, data: seq<byte>, width: nat, w: nat, i: nat)
    requires w * width == lo + i * width && i * width >= 0 && (forall a | a in m :: a < lo)
    ensures WordOf(data, i, width) == StagedWord(Overlay(m, lo, data), w, width)
  {
    forall k: nat | k < width
      ensures WordOf(data, i, width)[k] == StagedWord(Overlay(m, lo, data), w, width)[k]
    {
      assert w * width + k == lo + (i * width + k);
    }
  }

  // ----- Which segments go where -----------------------------------------------------

  predicate Loads(ph: Phdr) { ph.load && ph.memsz != 0 }

  /** `p_paddr` as the loader sees it, a `uint32_t`. */
  function Lma(ph: Phdr): Addr { ph.paddr % ADDRESS_SPACE }

  /** `p_memsz` as `GetRegionForSegment` sees it, a `uint32_t`. */
  function Size32(ph: Phdr): Addr { ph.memsz % ADDRESS_SPACE }

  /** For some area in the address space the check of the size in 32 bits goes wrong. */
  ghost predicate Misjudged(ph: Phdr) {
    exists area: MemArea | area.base + area.size <= ADDRESS_SPACE ::
      area.Holds(Lma(ph), Size32(ph)) != area.Holds(Lma(ph), ph.memsz)
  }

  /** The check in 32 bits is right for every area exactly if the size has 32 bits, or what is left of it in 32 bits
    * runs past the address space all the same. */
  lemma CheckExact(ph: Phdr)
    requires ph.Fields64() && 0 < Size32(ph)
    ensures !Misjudged(ph) <==> ph.memsz < ADDRESS_SPACE || ADDRESS_SPACE < Lma(ph) + Size32(ph)
  {
    if ADDRESS_SPACE <= ph.memsz && Lma(ph) + Size32(ph) <= ADDRESS_SPACE {
      var area := MemArea(0, 0, 1, Lma(ph), Size32(ph));
      assert area.Holds(Lma(ph), Size32(ph)) && !area.Holds(Lma(ph), ph.memsz);
    }
  }

  /** The loader treats sizes as 32 bits, and adds file offsets and sizes without overflow. */
  predicate Loadable(ph: Phdr) {
    ph.Fields64() && ph.memsz < ADDRESS_SPACE && ph.offset + ph.filesz < U64
  }

  ghost predicate AllLoadable(phdrs: seq<Phdr>) {
    forall i | 0 <= i < |phdrs| && Loads(phdrs[i]) :: Loadable(phdrs[i])
  }

  /** Why a segment is refused, checks in order. */
  ghost predicate Refused(areas: Areas, ph: Phdr, size: nat, index: nat, e: Error) {
    match e
    case NoRegion(i) => i == index && forall n | n in areas :: !areas[n].Holds(Lma(ph), 1)
    case Overflow(i) =>
      i == index && Lma(ph) + Size32(ph) > ADDRESS_SPACE && exists n :: n in areas && areas[n].Holds(Lma(ph), 1)
    case TooLong(i) =>
      i == index && Lma(ph) + Size32(ph) <= ADDRESS_SPACE
      && exists n :: n in areas && areas[n].Holds(Lma(ph), 1) && !areas[n].Holds(Lma(ph), Size32(ph))
    case Misaligned(i) =>
      i == index && exists n :: n in areas && areas[n].Holds(Lma(ph), Size32(ph))
                                && areas[n].widthByte > 0 && (Lma(ph) - areas[n].base) % areas[n].widthByte != 0
    case PastEndOfFile(i) => i == index && !InFile(ph, size) && PlacedIn(areas, ph)
    case SetMemFailed => false
  }

  /** Some area holds the whole segment and the segment starts on a word of it. */
  ghost predicate PlacedIn(areas: Areas, ph: Phdr) {
    exists n :: n in areas && areas[n].Holds(Lma(ph), Size32(ph))
                && areas[n].widthByte > 0 && (Lma(ph) - areas[n].base) % areas[n].widthByte == 0
  }

  /** Nothing is wrong with the segments to load before index `k`. */
  ghost predicate AllPlaced(areas: Areas, phdrs: seq<Phdr>, k: nat, size: nat)
    requires k <= |phdrs|
  {
    forall j | 0 <= j < k && Loads(phdrs[j]) :: PlacedIn(areas, phdrs[j]) && InFile(phdrs[j], size)
  }

  /** Segment `k` is the first one that is refused. */
  ghost predicate FirstRefused(areas: Areas, phdrs: seq<Phdr>, k: nat, size: nat, e: Error)
    requires k < |phdrs|
  {
    Loads(phdrs[k]) && Refused(areas, phdrs[k], size, k, e) && AllPlaced(areas, phdrs, k, size)
  }

  /** A segment that lands in the area, by its load address. */
  predicate LandsIn(area: MemArea, ph: Phdr, size: nat) {
    Loads(ph) && area.Holds(Lma(ph), ph.memsz) && InFile(ph, size)
  }

  /** What an area should hold: the segments that land in it, in file order, last writer
    * wins; addresses are offsets in the area. */
  ghost function AreaImage(area: MemArea, phdrs: seq<Phdr>, file: seq<byte>): ByteMap {
    if phdrs == [] then map[]
    else
      var n := |phdrs| - 1;
      var rest := AreaImage(area, phdrs[..n], file);
      if LandsIn(area, phdrs[n], |file|) then Overlay(rest, Lma(phdrs[n]) - area.base, Contents(phdrs[n], file))
      else rest
  }

  lemma AreaImageStep(area: MemArea, phdrs: seq<Phdr>, file: seq<byte>, i: nat)
    requires i < |phdrs|
    ensures AreaImage(area, phdrs[..i + 1], file) ==
            if LandsIn(area, phdrs[i], |file|)
            then Overlay(AreaImage(area, phdrs[..i], file), Lma(phdrs[i]) - area.base, Contents(phdrs[i], file))
            else AreaImage(area, phdrs[..i], file)
  {
    hide Overlay;
    hide Contents;
    hide LandsIn;
    assert phdrs[..i + 1][..i] == phdrs[..i];
  }

  /** The last of `size` addresses from `base` upwards, in 32-bit arithmetic. */
  function Top(base: Addr, size: Addr): (top: Addr)
    requires 0 < size
    ensures base + size <= ADDRESS_SPACE ==> top == base + size - 1
    ensures base + size > ADDRESS_SPACE ==> top < base
  {
    (base + (size - 1)) % ADDRESS_SPACE
  }

  /** A byte of an area's image comes from the last segment that lands in the area and
    * covers it: from the file, or zero beyond the segment's file size. */
  lemma {:induction false} AreaLastWriter(area: MemArea, phdrs: seq<Phdr>, file: seq<byte>, i: nat, k: nat)
    requires i < |phdrs| && LandsIn(area, phdrs[i], |file|) && k < phdrs[i].memsz
    requires forall j | i < j < |phdrs| && LandsIn(area, phdrs[j], |file|) ::
               !(Lma(phdrs[j]) <= Lma(phdrs[i]) + k < Lma(phdrs[j]) + phdrs[j].memsz)
    ensures var a := Lma(phdrs[i]) - area.base + k;
            && a in AreaImage(area, phdrs, file)
            && AreaImage(area, phdrs, file)[a] == if k < phdrs[i].filesz then file[phdrs[i].offset + k] else 0
  {
    var n := |phdrs| - 1;
    if i < n {
      AreaLastWriter(area, phdrs[..n], file, i, k);
    } else {
      ContentsByte(phdrs[i], file, k);
    }
  }

  // ----- The same in header fields alone ---------------------------------------------

  /** Header `ph` has byte `b` for offset `a` of the area: it is to be loaded, lies in the area and in the file, and
    * covers the offset. Load addresses have 32 bits. */
  ghost predicate Supplies(ph: Phdr, area: MemArea, file: seq<byte>, a: int, b: byte) {
    var at := ph.paddr % 0x1_0000_0000;
    && ph.load && 0 < ph.memsz && ph.offset + ph.filesz <= |file|
    && area.base <= at && at + ph.memsz <= area.base + area.size
    && at <= area.base + a < at + ph.memsz
    && var k := area.base + a - at;
       b == if k < ph.filesz then file[ph.offset + k] else 0
  }

  /** Only the low 32 bits of a load address count: a byte is put at its own address exactly if the load address has no
    * more. */
  lemma AddressKept(ph: Phdr, area: MemArea, file: seq<byte>, a: int, b: byte)
    requires Supplies(ph, area, file, a, b) && area.base + area.size <= 0x1_0000_0000
    ensures ph.paddr <= area.base + a < ph.paddr + ph.memsz <==> ph.paddr < 0x1_0000_0000
  {
  }

  /** ... and no later header has any byte for it. */
  ghost predicate LastSupplies(phdrs: seq<Phdr>, area: MemArea, file: seq<byte>, i: nat, a: int, b: byte) {
    && i < |phdrs| && Supplies(phdrs[i], area, file, a, b)
    && forall j, c | i < j < |phdrs| :: !Supplies(phdrs[j], area, file, a, c)
  }

  /** Some header has a byte for the offset. */
  ghost predicate Supplied(phdrs: seq<Phdr>, area: MemArea, file: seq<byte>, a: int) {
    exists i, b | 0 <= i < |phdrs| :: Supplies(phdrs[i], area, file, a, b)
  }

  /** The last header that has a byte for an offset decides, and offsets no header has a byte for are not in the
    * image. */
  lemma ImageSupplied(area: MemArea, phdrs: seq<Phdr>, file: seq<byte>, a: int)
    ensures forall i: nat, b | LastSupplies(phdrs, area, file, i, a, b) ::
              a in AreaImage(area, phdrs, file) && AreaImage(area, phdrs, file)[a] == b
    ensures a in AreaImage(area, phdrs, file) <==> Supplied(phdrs, area, file, a)
  {
    hide AreaImage;
    forall i: nat, b | LastSupplies(phdrs, area, file, i, a, b)
      ensures a in AreaImage(area, phdrs, file) && AreaImage(area, phdrs, file)[a] == b
    {
      forall j | i < j < |phdrs| && phdrs[j].load && phdrs[j].offset + phdrs[j].filesz <= |file|
        ensures !(&& area.base <= phdrs[j].paddr % 0x1_0000_0000
                  && phdrs[j].paddr % 0x1_0000_0000 + phdrs[j].memsz <= area.base + area.size
                  && 0 <= area.base + a - phdrs[j].paddr % 0x1_0000_0000 < phdrs[j].memsz)
      {
        var k := area.base + a - phdrs[j].paddr % 0x1_0000_0000;
        if 0 <= k < phdrs[j].memsz {
          var c: byte := if k < phdrs[j].filesz then file[phdrs[j].offset + k] else 0;
          assert !Supplies(phdrs[j], area, file, a, c);
        }
      }
      HeaderByte(area, phdrs, file, i, area.base + a - phdrs[i].paddr % 0x1_0000_0000);
    }
    ImageFrom(area, phdrs, file, a);
    if exists i, b | 0 <= i < |phdrs| :: Supplies(phdrs[i], area, file, a, b) {
      var i, b := LastOf(area, phdrs, file, a);
    }
  }

  lemma {:induction false} LastOf(area: MemArea, phdrs: seq<Phdr>, file: seq<byte>, a: int) returns (i: nat, b: byte)
    requires exists i, b | 0 <= i < |phdrs| :: Supplies(phdrs[i], area, file, a, b)
    ensures LastSupplies(phdrs, area, file, i, a, b)
  {
    var n := |phdrs| - 1;
    if c :| Supplies(phdrs[n], area, file, a, c) {
      i, b := n, c;
    } else {
      var j, c :| 0 <= j < |phdrs| && Supplies(phdrs[j], area, file, a, c);
      assert Supplies(phdrs[..n][j], area, file, a, c);
      i, b := LastOf(area, phdrs[..n], file, a);
      forall j, c | i < j < |phdrs| ensures !Supplies(phdrs[j], area, file, a, c) {
        if j < n {
          assert phdrs[..n][j] == phdrs[j];
        }
      }
    }
  }

  /** Byte `k` of a segment is in the image, from the file or zero, unless a later segment lies over it. */
  lemma HeaderByte(area: MemArea, phdrs: seq<Phdr>, file: seq<byte>, i: nat, k: nat)
    requires i < |phdrs| && phdrs[i].load && k < phdrs[i].memsz && phdrs[i].offset + phdrs[i].filesz <= |file|
    requires area.base <= phdrs[i].paddr % 0x1_0000_0000
    requires phdrs[i].paddr % 0x1_0000_0000 + phdrs[i].memsz <= area.base + area.size
    requires forall j | i < j < |phdrs| && phdrs[j].load && phdrs[j].offset + phdrs[j].filesz <= |file| ::
               !(&& area.base <= phdrs[j].paddr % 0x1_0000_0000
                 && phdrs[j].paddr % 0x1_0000_0000 + phdrs[j].memsz <= area.base + area.size
                 && 0 <= phdrs[i].paddr % 0x1_0000_0000 + k - phdrs[j].paddr % 0x1_0000_0000 < phdrs[j].memsz)
    ensures var a := phdrs[i].paddr % 0x1_0000_0000 + k - area.base;
            && a in AreaImage(area, phdrs, file)
            && AreaImage(area, phdrs, file)[a] == if k < phdrs[i].filesz then file[phdrs[i].offset + k] else 0
  {
    hide AreaImage;
    AreaLastWriter(area, phdrs, file, i, k);
  }

  /** Every offset in the image is covered by a header. */
  lemma {:induction false} ImageFrom(area: MemArea, phdrs: seq<Phdr>, file: seq<byte>, a: int)
    ensures a in AreaImage(area, phdrs, file) ==>
              exists i, b | 0 <= i < |phdrs| :: Supplies(phdrs[i], area, file, a, b)
  {
    if phdrs != [] && a in AreaImage(area, phdrs, file) {
      var n := |phdrs| - 1;
      if a in AreaImage(area, phdrs[..n], file) {
        ImageFrom(area, phdrs[..n], file, a);
        var i, b :| 0 <= i < n && Supplies(phdrs[..n][i], area, file, a, b);
        assert Supplies(phdrs[i], area, file, a, b);
      } else {
        var k := area.base + a - phdrs[n].paddr % 0x1_0000_0000;
        var b: byte := if k < phdrs[n].filesz then file[phdrs[n].offset + k] else 0;
        assert Supplies(phdrs[n], area, file, a, b);
      }
    }
  }

  /** Some area holds the whole segment, on whole words, and the file holds what there is of it. */
  ghost predicate Placeable(areas: Areas, ph: Phdr, size: nat) {
    var at := ph.paddr % 0x1_0000_0000;
    && ph.offset + ph.filesz <= size
    && exists n | n in areas ::
         && 0 < areas[n].size && areas[n].base <= at && at + ph.memsz <= areas[n].base + areas[n].size
         && 0 < areas[n].widthByte && (at - areas[n].base) % areas[n].widthByte == 0
  }

  lemma PlaceableIs(areas: Areas, ph: Phdr, size: nat)
    requires Loadable(ph)
    ensures Placeable(areas, ph, size) <==> PlacedIn(areas, ph) && InFile(ph, size)
  {
    assert Size32(ph) == ph.memsz;
    if Placeable(areas, ph, size) {
      var at := ph.paddr % 0x1_0000_0000;
      var n :| n in areas && 0 < areas[n].size && areas[n].base <= at
               && at + ph.memsz <= areas[n].base + areas[n].size
               && 0 < areas[n].widthByte && (at - areas[n].base) % areas[n].widthByte == 0;
      assert areas[n].Holds(Lma(ph), Size32(ph));
    }
  }

  /** A load comes as far as writing exactly if every segment to load can be placed. */
  lemma PlaceableAll(areas: Areas, es: seq<Entry<Name>>, phdrs: seq<Phdr>, size: nat, r: Result<nat>)
    requires Consistent(areas, es) && AllLoadable(phdrs)
    requires r.Ok? ==> AllPlaced(areas, phdrs, |phdrs|, size)
    requires r.Err? ==> exists k | 0 <= k < |phdrs| :: FirstRefused(areas, phdrs, k, size, r.error)
    ensures r.Ok? <==> forall i | 0 <= i < |phdrs| && phdrs[i].load && phdrs[i].memsz != 0 ::
                         Placeable(areas, phdrs[i], size)
  {
    hide Consistent;
    hide Refused;
    hide Placeable;
    hide PlacedIn;
    forall i | 0 <= i < |phdrs| && Loads(phdrs[i])
      ensures Placeable(areas, phdrs[i], size) <==> PlacedIn(areas, phdrs[i]) && InFile(phdrs[i], size)
    {
      PlaceableIs(areas, phdrs[i], size);
    }
    if r.Err? {
      var k :| 0 <= k < |phdrs| && FirstRefused(areas, phdrs, k, size, r.error);
      RefusedExactly(areas, es, phdrs[k], size, k, r.error);
    }
  }

  ghost predicate SameWord(a: int, b: int, width: nat)
    requires 0 < width
  {
    a / width == b / width
  }

  /** An offset has the byte `x` of the last header that has one for it; without one it is zero in a word that some
    * header reaches, and the byte it `was` in the others. */
  ghost predicate ByteIs(x: byte, was: byte, area: MemArea, phdrs: seq<Phdr>, file: seq<byte>, a: nat)
    requires 0 < area.widthByte
  {
    && (forall i: nat, b | LastSupplies(phdrs, area, file, i, a, b) :: x == b)
    && (!Supplied(phdrs, area, file, a) ==>
          x == if exists c: nat :: Supplied(phdrs, area, file, c) && SameWord(c, a, area.widthByte) then 0 else was)
  }

  ghost predicate ByteRight(before: seq<seq<byte>>, after: seq<seq<byte>>, area: MemArea, phdrs: seq<Phdr>,
                            file: seq<byte>, a: nat)
    requires 0 < area.widthByte && a / area.widthByte < |before| == |after|
    requires |before[a / area.widthByte]| == |after[a / area.widthByte]| == area.widthByte
  {
    var w, k := a / area.widthByte, a % area.widthByte;
    ByteIs(after[w][k], before[w][k], area, phdrs, file, a)
  }

  ghost predicate HoldsHeaders(before: seq<seq<byte>>, after: seq<seq<byte>>, area: MemArea, phdrs: seq<Phdr>,
                               file: seq<byte>)
    requires 0 < area.widthByte
  {
    && |after| == |before|
    && (forall w | 0 <= w < |after| :: |before[w]| == |after[w]| == area.widthByte)
    && (forall a: int | Supplied(phdrs, area, file, a) :: 0 <= a < |after| * area.widthByte)
    && forall a: nat | a / area.widthByte < |after| :: ByteRight(before, after, area, phdrs, file, a)
  }

  /** Holding the image is holding what the headers say. */
  lemma ImageHolds(before: seq<seq<byte>>, after: seq<seq<byte>>, area: MemArea, phdrs: seq<Phdr>, file: seq<byte>)
    requires 0 < area.widthByte && forall w | 0 <= w < |before| :: |before[w]| == area.widthByte
    requires HoldsImage(before, after, AreaImage(area, phdrs, file), area.widthByte)
    requires Below(AreaImage(area, phdrs, file), |before| * area.widthByte)
    ensures HoldsHeaders(before, after, area, phdrs, file)
  {
    hide AreaImage;
    hide Supplied;
    hide ByteIs;
    hide SameWord;
    var w, image := area.widthByte, AreaImage(area, phdrs, file);
    forall a: int | Supplied(phdrs, area, file, a) ensures 0 <= a < |after| * w {
      ImageSupplied(area, phdrs, file, a);
      ImageInside(area, phdrs, file);
    }
    forall a: nat | a / w < |after| ensures ByteRight(before, after, area, phdrs, file, a) {
      InWords(a, w, |after|);
      AtOffset(before, after, image, w, a);
      ImageByte(after[a / w][a % w], before[a / w][a % w], area, phdrs, file, a);
    }
  }

  lemma InWords(a: nat, w: nat, count: nat)
    requires 0 < w && a / w < count
    ensures a < count * w
  {
    MulMono(a / w + 1, count, w);
    assert (a / w + 1) * w == a / w * w + w;
  }

  lemma ImageByte(x: byte, was: byte, area: MemArea, phdrs: seq<Phdr>, file: seq<byte>, a: nat)
    requires 0 < area.widthByte
    requires var m := AreaImage(area, phdrs, file);
             x == if a in m then m[a] else if exists b :: b in m && SameWord(b, a, area.widthByte) then 0 else was
    ensures ByteIs(x, was, area, phdrs, file, a)
  {
    hide AreaImage;
    hide Supplied;
    hide LastSupplies;
    hide SameWord;
    var w, image := area.widthByte, AreaImage(area, phdrs, file);
    ImageSupplied(area, phdrs, file, a);
    ImageInside(area, phdrs, file);
    if c: nat :| Supplied(phdrs, area, file, c) && SameWord(c, a, w) {
      ImageSupplied(area, phdrs, file, c);
      assert c in image;
    } else if c :| c in image && SameWord(c, a, w) {
      ImageSupplied(area, phdrs, file, c);
    }
  }

  lemma AtOffset(before: seq<seq<byte>>, after: seq<seq<byte>>, m: ByteMap, width: nat, a: nat)
    requires 0 < width && (forall w | 0 <= w < |before| :: |before[w]| == width) && HoldsImage(before, after, m, width)
    requires a < |before| * width
    ensures a / width < |before| == |after| && |before[a / width]| == |after[a / width]| == width
    ensures after[a / width][a % width]
         == if a in m then m[a] else if exists b :: b in m && SameWord(b, a, width) then 0
            else before[a / width][a % width]
  {
    assert forall b :: SameWord(b, a, width) <==> b / width == a / width;
    WordCovers(|before|, width, a);
    assert AreaByte(after, width, a) == after[a / width][a % width];
    assert AreaByte(before, width, a) == before[a / width][a % width];
  }

  /** Why a segment is refused, in header fields, where its address and size have 32 bits. */
  lemma RefusedMeans(areas: Areas, ph: Phdr, size: nat, index: nat, e: Error)
    requires Loadable(ph) && Refused(areas, ph, size, index, e)
    ensures var at, end := ph.paddr % 0x1_0000_0000, ph.paddr % 0x1_0000_0000 + ph.memsz;
            match e
            case NoRegion(i) =>
              i == index && forall n | n in areas && 0 < areas[n].size ::
                !(areas[n].base <= at < areas[n].base + areas[n].size)
            case Overflow(i) => i == index && 0x1_0000_0000 < end
            case TooLong(i) =>
              i == index && exists n | n in areas ::
                areas[n].base <= at < areas[n].base + areas[n].size < end <= 0x1_0000_0000
            case Misaligned(i) =>
              i == index && exists n | n in areas ::
                && areas[n].base <= at && end <= areas[n].base + areas[n].size
                && areas[n].widthByte > 0 && (at - areas[n].base) % areas[n].widthByte != 0
            case PastEndOfFile(i) => i == index && size < ph.offset + ph.filesz
            case SetMemFailed => false
  {
    assert Size32(ph) == ph.memsz;
    if e.NoRegion? {
      forall n | n in areas && 0 < areas[n].size ensures !(areas[n].base <= Lma(ph) < areas[n].base + areas[n].size) {
        assert !areas[n].Holds(Lma(ph), 1);
      }
    }
  }

  /** A segment is never both refused and in order. */
  lemma RefusedExactly(areas: Areas, es: seq<Entry<Name>>, ph: Phdr, size: nat, index: nat, e: Error)
    requires Consistent(areas, es) && 0 < Size32(ph) && Refused(areas, ph, size, index, e)
    ensures !(PlacedIn(areas, ph) && InFile(ph, size))
  {
    if n :| n in areas && areas[n].Holds(Lma(ph), Size32(ph))
            && areas[n].widthByte > 0 && (Lma(ph) - areas[n].base) % areas[n].widthByte == 0 {
      forall m | m in areas && areas[m].Holds(Lma(ph), 1) ensures m == n {
        AreasDisjoint(areas, es, n, m, Lma(ph));
      }
      assert areas[n].Holds(Lma(ph), 1);
    }
  }

  lemma Opened(s: StagedMem, width: nat, bytes: ByteMap)
    requires s.Holds(width, bytes)
    ensures s.Valid() && s.width == width && s.Staged() == bytes
  {
  }

  /** Why no region was found is why the segment is refused. */
  lemma RegionRefused(areas: Areas, ph: Phdr, size: nat, index: nat, e: Error)
    requires match e
             case NoRegion(i) => i == index && forall n | n in areas :: !areas[n].Holds(Lma(ph), 1)
             case Overflow(i) =>
               i == index && Lma(ph) + Size32(ph) > ADDRESS_SPACE
               && exists n :: n in areas && areas[n].Holds(Lma(ph), 1)
             case TooLong(i) =>
               i == index && Lma(ph) + Size32(ph) <= ADDRESS_SPACE
               && exists n :: n in areas && areas[n].Holds(Lma(ph), 1) && !areas[n].Holds(Lma(ph), Size32(ph))
             case _ => false
    ensures Refused(areas, ph, size, index, e)
  {
  }

  /** With a region that holds the segment, it is refused or not by its alignment and the file. */
  lemma AreaFits(areas: Areas, ph: Phdr, size: nat, index: nat, area: MemArea)
    requires area.name in areas && areas[area.name] == area && area.Holds(Lma(ph), Size32(ph)) && 0 < area.widthByte
    ensures (Lma(ph) - area.base) % area.widthByte != 0 ==> Refused(areas, ph, size, index, Misaligned(index))
    ensures (Lma(ph) - area.base) % area.widthByte == 0 ==>
              PlacedIn(areas, ph) && (!InFile(ph, size) ==> Refused(areas, ph, size, index, PastEndOfFile(index)))
  {
  }

  // ----- The loader ------------------------------------------------------------------

  class DpiMemUtil {
    var nameToMem: Areas
    const addrToMem: RangedMap<Name>
    var stagingArea: map<Name, StagedMem>
    ghost var staged: map<Name, ByteMap>  // the bytes staged for each memory
    ghost var stagingRepr: set<object>    // the objects of the staging area

    ghost predicate Valid()
      reads this, addrToMem
    {
      Named(nameToMem) && Consistent(nameToMem, addrToMem.entries)
    }

    /** Staged data is for registered areas, in objects of their own. */
    ghost predicate StagingShape()
      reads this
    {
      && staged.Keys == stagingArea.Keys && this !in stagingRepr
      && (forall n | n in stagingArea ::
            n in nameToMem && stagingArea[n] in stagingRepr && stagingArea[n].segs in stagingRepr)
      && (forall n, m | n in stagingArea && m in stagingArea && n != m ::
            stagingArea[n] != stagingArea[m] && stagingArea[n].segs != stagingArea[m].segs)
    }

    /** Each object holds the bytes staged for its memory. */
    ghost predicate StagingHolds(n: Name)
      requires StagingShape() && n in stagingArea
      reads this, stagingRepr
    {
      stagingArea[n].Holds(nameToMem[n].widthByte, staged[n])
    }

    ghost predicate StagingValid()
      reads this, stagingRepr
    {
      StagingShape() && forall n | n in stagingArea :: StagingHolds(n)
    }

    constructor ()
      ensures Valid() && StagingValid() && fresh(addrToMem)
      ensures nameToMem == map[] && staged == map[]
    {
      nameToMem := map[];
      addrToMem := new RangedMap();
      stagingArea, staged, stagingRepr := map[], map[], {};
    }

    /** Registers a memory. The name is taken even when the address is refused. */
    method RegisterMemoryArea(name: Name, location: Name, widthBit: nat, addrLoc: Option<(Addr, Addr)>)
      returns (ok: bool)
      requires Valid() && widthBit <= 512 && widthBit % 8 == 0
      modifies this`nameToMem, addrToMem
      ensures Valid()
      ensures ok <==> name !in old(nameToMem)
                      && (addrLoc.Some? ==> Fits(old(nameToMem), addrLoc.value.0, addrLoc.value.1))
      ensures name in old(nameToMem) ==> nameToMem == old(nameToMem)
      ensures name !in old(nameToMem) ==>
                nameToMem == old(nameToMem)[name :=
                  if ok && addrLoc.Some? then MemArea(name, location, widthBit / 8, addrLoc.value.0, addrLoc.value.1)
                  else MemArea(name, location, widthBit / 8, 0, 0)]
      ensures !ok || addrLoc.None? ==> addrToMem.entries == old(addrToMem.entries)
    {
      hide Consistent;
      hide Disjoint;
      hide Fits;
      var mem := MemArea(name, location, widthBit / 8, 0, 0);
      if name in nameToMem {
        return false;
      }
      AddedNameKeeps(nameToMem, addrToMem.entries, mem, addrLoc);
      nameToMem := nameToMem[name := mem];
      if addrLoc.None? {
        return true;
      }
      ok := PlaceArea(mem, addrLoc.value.0, addrLoc.value.1);
    }

    /** The address half of `RegisterMemoryArea`, for an area just registered by name. */
    method PlaceArea(mem: MemArea, base: Addr, size: Addr) returns (ok: bool)
      requires Valid() && mem.name in nameToMem && nameToMem[mem.name] == mem && mem.size == 0
      modifies this`nameToMem, addrToMem
      ensures Valid()
      ensures ok <==> Fits(old(nameToMem), base, size)
      ensures nameToMem == if ok then old(nameToMem)[mem.name := mem.(base := base, size := size)] else old(nameToMem)
      ensures !ok ==> addrToMem.entries == old(addrToMem.entries)
    {
      hide Consistent;
      hide Disjoint;
      if size == 0 {
        return false;
      }
      var addrTop := Top(base, size);
      if addrTop < base {
        return false;
      }
      ghost var es := addrToMem.entries;
      ClashMeans(nameToMem, es, Range(base, addrTop));
      var clash := addrToMem.EmplaceDisjoint(Range(base, addrTop), mem.name);
      if clash.Some? {
        return false;
      }
      var located := mem.(base := base, size := size);
      ConsistentAdd(nameToMem, es, addrToMem.entries, located);
      nameToMem := nameToMem[mem.name := located];
      return true;
    }

    /** The registered area that holds the whole segment. */
    method GetRegionForSegment(index: nat, lma: Addr, memSz: Addr) returns (r: Result<MemArea>)
      requires Valid() && memSz > 0
      ensures r.Ok? ==> r.value.name in nameToMem && nameToMem[r.value.name] == r.value && r.value.Holds(lma, memSz)
      ensures r.Err? ==> forall n | n in nameToMem :: !nameToMem[n].Holds(lma, memSz)
      ensures r.Err? ==> match r.error
                case NoRegion(i) => i == index && forall n | n in nameToMem :: !nameToMem[n].Holds(lma, 1)
                case Overflow(i) =>
                  i == index && lma + memSz > ADDRESS_SPACE && exists n :: n in nameToMem && nameToMem[n].Holds(lma, 1)
                case TooLong(i) =>
                  i == index && lma + memSz <= ADDRESS_SPACE
                  && exists n :: n in nameToMem && nameToMem[n].Holds(lma, 1) && !nameToMem[n].Holds(lma, memSz)
                case _ => false
    {
      var it := addrToMem.Find(lma);
      if it.None? {
        return Err(NoRegion(index));
      }
      var name := it.value.val;
      var memArea := nameToMem[name];
      assert memArea.base <= lma;
      assert memArea.Holds(lma, 1);
      forall n | n in nameToMem && nameToMem[n].Holds(lma, memSz) ensures n == name {
        AreasDisjoint(nameToMem, addrToMem.entries, n, name, lma);
      }
      var lmaTop := Top(lma, memSz);
      if lmaTop < lma {
        return Err(Overflow(index));
      }
      var localTop := lmaTop - memArea.base;
      if memArea.size <= localTop {
        return Err(TooLong(index));
      }
      return Ok(memArea);
    }

    /** `staging_area_[name]`: an empty object is made on first use. */
    method StagedMemFor(name: Name) returns (s: StagedMem)
      requires StagingValid() && name in nameToMem && 0 < nameToMem[name].widthByte
      modifies this`stagingArea, this`staged, this`stagingRepr
      ensures StagingValid() && fresh(stagingRepr - old(stagingRepr))
      ensures name in stagingArea && s == stagingArea[name]
      ensures staged == old(staged)[name := Get(old(staged), name)]
    {
      hide StagedMem.Staged;
      hide StagedMem.Valid;
      hide StagedMem.Holds;
      if name in stagingArea {
        assert staged == staged[name := Get(staged, name)];
        return stagingArea[name];
      }
      s := new StagedMem(nameToMem[name].widthByte);
      stagingArea, staged := stagingArea[name := s], staged[name := map[]];
      stagingRepr := stagingRepr + {s, s.segs};
    }

    /** `staged_mem.AddSegment(...)` through the reference into the staging area. */
    method AddSegmentTo(name: Name, s: StagedMem, offset: Addr, seg: seq<byte>)
      requires StagingValid() && name in stagingArea && s == stagingArea[name]
      requires offset + |seg| <= ADDRESS_SPACE && 0 < nameToMem[name].widthByte
               && offset % nameToMem[name].widthByte == 0
      modifies this`staged, s, s.segs
      ensures StagingValid()
      ensures staged == old(staged)[name := Overlay(old(staged)[name], offset, seg)]
    {
      hide StagedMem.Holds;
      hide StagedMem.Valid;
      hide StagedMem.Staged;
      hide Overlay;
      ghost var was := staged[name];
      assert StagingHolds(name);
      Opened(s, nameToMem[name].widthByte, was);
      s.AddSegment(offset, seg);
      staged := staged[name := Overlay(was, offset, seg)];
      forall n | n in stagingArea ensures StagingHolds(n) {
        if n != name {
          assert old(StagingHolds(n));
        }
      }
    }

    /** The checks `StageElf` makes on a segment, in order. */
    method CheckSegment(ph: Phdr, index: nat, fileSize: nat) returns (r: Result<MemArea>)
      requires Valid() && Worded(nameToMem) && 0 < Size32(ph) && ph.offset + ph.filesz < U64
      ensures r.Err? ==> Refused(nameToMem, ph, fileSize, index, r.error)
      ensures r.Ok? ==>
                && r.value.name in nameToMem && nameToMem[r.value.name] == r.value
                && r.value.Holds(Lma(ph), Size32(ph)) && InFile(ph, fileSize)
                && 0 < r.value.widthByte && (Lma(ph) - r.value.base) % r.value.widthByte == 0
      ensures r.Ok? ==> PlacedIn(nameToMem, ph)
    {
      hide Consistent;
      hide Refused;
      hide PlacedIn;
      var region := GetRegionForSegment(index, Lma(ph), Size32(ph));
      if region.Err? {
        RegionRefused(nameToMem, ph, fileSize, index, region.error);
        return region;
      }
      var area := region.value;
      AreaFits(nameToMem, ph, fileSize, index, area);
      var localBase := Lma(ph) - area.base;
      if localBase % area.widthByte != 0 {
        return Err(Misaligned(index));
      }
      if fileSize < (ph.offset + ph.filesz) % U64 {
        return Err(PastEndOfFile(index));
      }
      return region;
    }

    /** One round of the loop in `StageElf`. */
    method StageOne(phdrs: seq<Phdr>, i: nat, file: seq<byte>) returns (e: Option<Error>)
      requires Valid() && Worded(nameToMem) && StagingValid()
      requires i < |phdrs| && (Loads(phdrs[i]) ==> Loadable(phdrs[i]))
      requires Images(nameToMem, staged, phdrs[..i], file)
      modifies this`stagingArea, this`staged, this`stagingRepr, stagingRepr
      ensures StagingValid() && fresh(stagingRepr - old(stagingRepr))
      ensures e.Some? ==> Loads(phdrs[i]) && Refused(nameToMem, phdrs[i], |file|, i, e.value)
      ensures e.None? ==> Images(nameToMem, staged, phdrs[..i + 1], file)
      ensures e.None? && Loads(phdrs[i]) ==> PlacedIn(nameToMem, phdrs[i]) && InFile(phdrs[i], |file|)
    {
      hide StagingHolds;
      hide StagedMem.Holds;
      hide Images;
      hide Refused;
      hide PlacedIn;
      hide Overlay;
      var ph := phdrs[i];
      if !Loads(ph) {
        ImagesSkip(nameToMem, staged, phdrs, file, i);
        return None;
      }
      var area := CheckSegment(ph, i, |file|);
      if area.Err? {
        return Some(area.error);
      }
      StageAt(area.value.name, ph, phdrs, i, file);
      return None;
    }

    method StageAt(name: Name, ph: Phdr, ghost phdrs: seq<Phdr>, ghost i: nat, file: seq<byte>)
      requires Valid() && Worded(nameToMem) && StagingValid() && i < |phdrs| && ph == phdrs[i]
      requires Images(nameToMem, staged, phdrs[..i], file)
      requires name in nameToMem && LandsIn(nameToMem[name], ph, |file|)
      requires (Lma(ph) - nameToMem[name].base) % nameToMem[name].widthByte == 0
      modifies this`stagingArea, this`staged, this`stagingRepr, stagingRepr
      ensures StagingValid() && fresh(stagingRepr - old(stagingRepr))
      ensures Images(nameToMem, staged, phdrs[..i + 1], file)
    {
      hide Consistent;
      hide StagingHolds;
      hide StagedMem.Holds;
      hide Images;
      hide Overlay;
      ghost var before := staged;
      var stagedMem := StagedMemFor(name);
      ghost var between := staged;
      var localBase, vec := Lma(ph) - nameToMem[name].base, Contents(ph, file);
      AddSegmentTo(name, stagedMem, localBase, vec);
      UpdateTwice(before, between, staged, name, Get(before, name), Overlay(between[name], localBase, vec));
      ImagesAdd(nameToMem, addrToMem.entries, phdrs, file, i, name, before, staged);
    }

    /** Loads the image into the staging area, replacing what was there. Stops at the first
      * segment that is refused. */
    method StageElf(phdrs: seq<Phdr>, file: seq<byte>) returns (r: Result<nat>)
      requires Valid() && Worded(nameToMem) && AllLoadable(phdrs)
      modifies this`stagingArea, this`staged, this`stagingRepr
      ensures StagingValid() && fresh(stagingRepr)
      ensures r.Ok? ==> r.value == |phdrs| && Images(nameToMem, staged, phdrs, file)
      ensures r.Ok? ==> AllPlaced(nameToMem, phdrs, |phdrs|, |file|)
      ensures r.Err? ==> !r.error.SetMemFailed?
      ensures r.Err? ==> exists k | 0 <= k < |phdrs| :: FirstRefused(nameToMem, phdrs, k, |file|, r.error)
    {
      stagingArea, staged, stagingRepr := map[], map[], {};
      for i := 0 to |phdrs|
        invariant StagingValid() && fresh(stagingRepr)
        invariant AllPlaced(nameToMem, phdrs, i, |file|)
        invariant Images(nameToMem, staged, phdrs[..i], file)
      {
        var e := StageOne(phdrs, i, file);
        if e.Some? {
          assert FirstRefused(nameToMem, phdrs, i, |file|, e.value);
          return Err(e.value);
        }
      }
      assert phdrs[..|phdrs|] == phdrs;
      r := Ok(|phdrs|);
    }

    /** Loads the image into the design's memories. A scope that is not found is reported
      * and skipped; a word that cannot be set ends the load. */
    method LoadElfToMemories(phdrs: seq<Phdr>, file: seq<byte>, design: map<Name, DesignMemory>)
      returns (r: Result<nat>)
      requires Valid() && Worded(nameToMem) && AllLoadable(phdrs) && Fitted(nameToMem, design)
      modifies this`stagingArea, this`staged, this`stagingRepr, design.Values
      ensures r.Err? && !r.error.SetMemFailed? ==>
                && (forall l | l in design :: design[l].words == old(design[l].words))
                && exists k | 0 <= k < |phdrs| :: FirstRefused(nameToMem, phdrs, k, |file|, r.error)
      ensures r == Err(SetMemFailed) ==> !AllFit(nameToMem, design, phdrs, file)
      ensures r.Ok? ==> AllFit(nameToMem, design, phdrs, file)
      ensures r.Ok? ==> forall n | n in nameToMem && Unshared(nameToMem, design, n) ::
                var mem := design[nameToMem[n].location];
                HoldsImage(old(mem.words), mem.words, AreaImage(nameToMem[n], phdrs, file), nameToMem[n].widthByte)
      ensures r.Ok? ==> forall l | l in design ::
                FromAreas(old(design[l].words), design[l].words, nameToMem, AreaImages(nameToMem, phdrs, file),
                          AreasAt(nameToMem, design, design[l]))
      ensures forall l | l in design && AreasAt(nameToMem, design, design[l]) == {} ::
                design[l].words == old(design[l].words)
      ensures r.Ok? || r.error.SetMemFailed? <==>
                forall i | 0 <= i < |phdrs| && phdrs[i].load && phdrs[i].memsz != 0 ::
                  Placeable(nameToMem, phdrs[i], |file|)
      ensures r.Ok? ==> forall n | n in nameToMem && Unshared(nameToMem, design, n) ::
                var mem := design[nameToMem[n].location];
                0 < mem.width ==
                  nameToMem[n].widthByte && HoldsHeaders(old(mem.words), mem.words, nameToMem[n], phdrs, file)
    {
      hide HoldsHeaders;
      hide Placeable;
      hide HoldsImage;
      hide FromAreas;
      hide Images;
      hide FirstRefused;
      hide AllPlaced;
      hide Consistent;
      hide Refused;
      hide StagingHolds;
      var r0 := StageElf(phdrs, file);
      PlaceableAll(nameToMem, addrToMem.entries, phdrs, |file|, r0);
      if r0.Err? {
        return r0;
      }
      var segs := StagedSegments(phdrs, file);
      AllFitSegments(nameToMem, segs, design, phdrs, file);
      var ok := WriteAll(nameToMem, segs, AreaImages(nameToMem, phdrs, file), design);
      forall n | ok && n in nameToMem && Unshared(nameToMem, design, n)
        ensures var mem := design[nameToMem[n].location];
                HoldsImage(old(mem.words), mem.words, AreaImage(nameToMem[n], phdrs, file), nameToMem[n].widthByte)
                && HoldsHeaders(old(mem.words), mem.words, nameToMem[n], phdrs, file)
      {
        var mem := design[nameToMem[n].location];
        UnsharedAlone(nameToMem, design, n);
        OnlyArea(old(mem.words), mem.words, nameToMem, segs, AreaImages(nameToMem, phdrs, file), n);
        ImageHolds(old(mem.words), mem.words, nameToMem[n], phdrs, file);
      }
      return if ok then r0 else Err(SetMemFailed);
    }

    /** `GetSegs` of every staged memory. */
    method StagedSegments(ghost phdrs: seq<Phdr>, ghost file: seq<byte>)
      returns (segs: map<Name, seq<Entry<seq<byte>>>>)
      requires Valid() && StagingValid() && Images(nameToMem, staged, phdrs, file)
      ensures SegmentsOf(nameToMem, segs, AreaImages(nameToMem, phdrs, file))
    {
      segs := map n | n in stagingArea :: stagingArea[n].segs.entries;
      forall n | n in nameToMem
        ensures SegmentsFor(nameToMem[n], Listed(segs, n), AreaImage(nameToMem[n], phdrs, file))
      {
        if n in stagingArea {
          assert StagingHolds(n);
          ImageInside(nameToMem[n], phdrs, file);
          WritableStaged(nameToMem[n], stagingArea[n], AreaImage(nameToMem[n], phdrs, file));
        }
      }
    }
  }

  /** The image of every area. */
  ghost function AreaImages(areas: Areas, phdrs: seq<Phdr>, file: seq<byte>): map<Name, ByteMap> {
    map n | n in areas :: AreaImage(areas[n], phdrs, file)
  }

  function Listed(segs: map<Name, seq<Entry<seq<byte>>>>, n: Name): seq<Entry<seq<byte>>> {
    if n in segs then segs[n] else []
  }

  /** The segments are writable to the area's memory and hold exactly the image. */
  ghost predicate SegmentsFor(area: MemArea, es: seq<Entry<seq<byte>>>, image: ByteMap) {
    (es == [] || Writable(es, area.widthByte, area.size)) && Bytes(es) == image
  }

  ghost predicate SegmentsOf(areas: Areas, segs: map<Name, seq<Entry<seq<byte>>>>, images: map<Name, ByteMap>) {
    && segs.Keys <= areas.Keys == images.Keys
    && forall n | n in areas :: SegmentsFor(areas[n], Listed(segs, n), images[n])
  }

  lemma WritableStaged(area: MemArea, s: StagedMem, image: ByteMap)
    requires s.Holds(area.widthByte, image) && area.widthByte <= 64 && Below(image, area.size)
    ensures SegmentsFor(area, s.segs.entries, image)
  {
    forall k | 0 <= k < |s.segs.entries| {
      BytesOf(s.segs.entries, k, s.segs.entries[k].rng.hi);
    }
  }

  // ----- Words from areas ------------------------------------------------------------

  /** The areas whose memory is `mem`. */
  ghost function AreasAt(areas: Areas, design: map<Name, DesignMemory>, mem: DesignMemory): set<Name> {
    set n | n in areas && areas[n].location in design && design[areas[n].location] == mem
  }

  /** The first byte of word `w` is in an area's image. */
  ghost predicate StartsIn(areas: Areas, images: map<Name, ByteMap>, n: Name, w: nat) {
    n in areas && n in images && w * areas[n].widthByte in images[n]
  }

  /** A word is what one of the areas has for it, or what it was if none has anything. */
  ghost predicate WordFrom(before: seq<byte>, word: seq<byte>, areas: Areas, images: map<Name, ByteMap>,
                           names: set<Name>, w: nat) {
    || (word == before && forall n | n in names :: !StartsIn(areas, images, n, w))
    || (exists n | n in names :: StartsIn(areas, images, n, w) && word == StagedWord(images[n], w, areas[n].widthByte))
  }

  /** A memory's words come from the areas it has, one or more. */
  ghost predicate FromAreas(before: seq<seq<byte>>, after: seq<seq<byte>>, areas: Areas, images: map<Name, ByteMap>,
                            names: set<Name>) {
    |after| == |before|
    && forall w | 0 <= w < |after| :: WordFrom(before[w], after[w], areas, images, names, w)
  }

  lemma FromNothing(words: seq<seq<byte>>, areas: Areas, images: map<Name, ByteMap>, names: set<Name>)
    requires forall n | n in names && n in images :: images[n] == map[]
    ensures FromAreas(words, words, areas, images, names)
  {
  }

  /** Loading one more area. */
  lemma FromOneMore(before: seq<seq<byte>>, words: seq<seq<byte>>, areas: Areas, images: map<Name, ByteMap>,
                    names: set<Name>, n: Name)
    requires FromAreas(before, words, areas, images, names) && n in areas && n in images
    ensures FromAreas(before, Loaded(words, images[n], areas[n].widthByte), areas, images, names + {n})
  {
    hide StagedWord;
    var after := Loaded(words, images[n], areas[n].widthByte);
    forall w | 0 <= w < |after| ensures WordFrom(before[w], after[w], areas, images, names + {n}, w) {
      assert WordFrom(before[w], words[w], areas, images, names, w);
      if StartsIn(areas, images, n, w) {
        assert after[w] == StagedWord(images[n], w, areas[n].widthByte);
      } else if m :| m in names && StartsIn(areas, images, m, w)
                     && words[w] == StagedWord(images[m], w, areas[m].widthByte) {
        assert m in names + {n};
      }
    }
  }

  lemma UnsharedAlone(areas: Areas, design: map<Name, DesignMemory>, n: Name)
    requires n in areas && Unshared(areas, design, n)
    ensures AreasAt(areas, design, design[areas[n].location]) == {n}
  {
  }

  /** The memory of a single area is loaded with that area's image. */
  lemma OnlyArea(before: seq<seq<byte>>, after: seq<seq<byte>>, areas: Areas, segs: map<Name, seq<Entry<seq<byte>>>>,
                 images: map<Name, ByteMap>, n: Name)
    requires SegmentsOf(areas, segs, images) && n in areas && 0 < areas[n].widthByte
    requires FromAreas(before, after, areas, images, {n})
    requires forall w | 0 <= w < |before| :: |before[w]| == areas[n].widthByte
    ensures HoldsImage(before, after, images[n], areas[n].widthByte)
  {
    hide HoldsImage;
    hide Bytes;
    var width, loaded := areas[n].widthByte, Loaded(before, images[n], areas[n].widthByte);
    forall w | 0 <= w < |after| ensures after[w] == loaded[w] {
      assert WordFrom(before[w], after[w], areas, images, {n}, w);
    }
    assert after == loaded;
    assert SegmentsFor(areas[n], Listed(segs, n), images[n]);
    if Listed(segs, n) == [] {
      BytesNone(Listed(segs, n));
    } else {
      StagedFromWordStart(Listed(segs, n), width);
    }
    LoadedHoldsImage(before, images[n], width);
  }

  /** That every byte fits is the same said of segments and of images. */
  lemma AllFitSegments(areas: Areas, segs: map<Name, seq<Entry<seq<byte>>>>, design: map<Name, DesignMemory>,
                       phdrs: seq<Phdr>, file: seq<byte>)
    requires SegmentsOf(areas, segs, AreaImages(areas, phdrs, file))
    ensures AllFit(areas, design, phdrs, file) <==>
            forall n | n in segs && areas[n].location in design ::
              Below(Bytes(segs[n]), |design[areas[n].location].words| * areas[n].widthByte)
  {
    hide AreaImage;
    hide Bytes;
    hide Below;
    NothingBelow();
    forall n | n in areas
      ensures AreaImage(areas[n], phdrs, file) == if n in segs then Bytes(segs[n]) else map[]
    {
      assert SegmentsFor(areas[n], Listed(segs, n), AreaImages(areas, phdrs, file)[n]);
      BytesNone(Listed(segs, n));
    }
  }

  lemma NothingBelow()
    ensures forall bound: int :: Below(map[], bound)
  {
  }

  /** The loop of `LoadElfToMemories` over the staging area, in any order. Every word of a memory comes from one of the
    * areas it has; a memory that no area has is not touched, even if the loop fails. */
  method WriteAll(areas: Areas, segs: map<Name, seq<Entry<seq<byte>>>>, ghost images: map<Name, ByteMap>,
                  design: map<Name, DesignMemory>) returns (ok: bool)
    requires Fitted(areas, design) && SegmentsOf(areas, segs, images)
    modifies design.Values
    ensures Fitted(areas, design)
    ensures forall l | l in design :: |design[l].words| == |old(design[l].words)|
    ensures ok <==> forall n | n in segs && areas[n].location in design ::
                      Below(Bytes(segs[n]), |design[areas[n].location].words| * areas[n].widthByte)
    ensures ok ==> forall l | l in design ::
                     FromAreas(old(design[l].words), design[l].words, areas, images, AreasAt(areas, design, design[l]))
    ensures forall l | l in design && AreasAt(areas, design, design[l]) == {} :: design[l].words == old(design[l].words)
  {
    hide Below;
    hide Loaded;
    hide Bytes;
    hide Writable;
    hide FromAreas;
    hide AreasAt;
    var todo := segs.Keys;
    ghost var before := map l | l in design :: design[l].words;
    forall l | l in design
      ensures FromAreas(before[l], design[l].words, areas, images, AreasAt(areas, design, design[l]) - todo)
    {
      StartAll(design[l].words, areas, segs, images, AreasAt(areas, design, design[l]));
    }
    while todo != {}
      invariant todo <= segs.Keys && Fitted(areas, design)
      invariant forall l | l in design :: |design[l].words| == |before[l]|
      invariant forall n | n in segs && n !in todo && areas[n].location in design ::
                  Below(Bytes(segs[n]), |design[areas[n].location].words| * areas[n].widthByte)
      invariant forall l | l in design ::
                  FromAreas(before[l], design[l].words, areas, images, AreasAt(areas, design, design[l]) - todo)
      invariant forall l | l in design && AreasAt(areas, design, design[l]) == {} :: design[l].words == before[l]
      decreases todo
    {
      var n :| n in todo;
      ghost var words := map l | l in design :: design[l].words;
      ok := WriteOne(areas, segs, images, design, n);
      if !ok {
        return;
      }
      forall l | l in design
        ensures FromAreas(before[l], design[l].words, areas, images, AreasAt(areas, design, design[l]) - (todo - {n}))
      {
        OneMore(before[l], words[l], design[l].words, areas, images, design, design[l], n, todo);
      }
      todo := todo - {n};
    }
    forall l | l in design
      ensures AreasAt(areas, design, design[l]) - todo == AreasAt(areas, design, design[l])
    {
    }
    ok := true;
  }

  /** One memory of the staging area is written to its scope, or skipped if there is no such scope. */
  method WriteOne(areas: Areas, segs: map<Name, seq<Entry<seq<byte>>>>, ghost images: map<Name, ByteMap>,
                  design: map<Name, DesignMemory>, n: Name) returns (ok: bool)
    requires Fitted(areas, design) && SegmentsOf(areas, segs, images) && n in segs
    modifies design.Values
    ensures Fitted(areas, design)
    ensures forall l | l in design :: |design[l].words| == |old(design[l].words)|
    ensures ok <==> areas[n].location in design ==>
              Below(Bytes(segs[n]), |design[areas[n].location].words| * areas[n].widthByte)
    ensures forall l | l in design && n !in AreasAt(areas, design, design[l]) :: design[l].words == old(design[l].words)
    ensures ok ==> forall l | l in design && n in AreasAt(areas, design, design[l]) ::
                     design[l].words == Loaded(old(design[l].words), images[n], areas[n].widthByte)
  {
    hide Below;
    hide Loaded;
    hide Bytes;
    hide Writable;
    SegmentsAt(areas, segs, images, n);
    ok := true;
    if areas[n].location in design {
      ok := WriteSegments(areas[n], segs[n], design[areas[n].location]);
    }
  }

  lemma SegmentsAt(areas: Areas, segs: map<Name, seq<Entry<seq<byte>>>>, images: map<Name, ByteMap>, n: Name)
    requires SegmentsOf(areas, segs, images) && n in segs
    ensures n in areas && n in images && Bytes(segs[n]) == images[n]
    ensures segs[n] == [] || Writable(segs[n], areas[n].widthByte, areas[n].size)
  {
    assert SegmentsFor(areas[n], Listed(segs, n), images[n]);
  }

  /** Before the loop only areas without segments count as written. */
  lemma StartAll(words: seq<seq<byte>>, areas: Areas, segs: map<Name, seq<Entry<seq<byte>>>>,
                 images: map<Name, ByteMap>, names: set<Name>)
    requires SegmentsOf(areas, segs, images)
    ensures FromAreas(words, words, areas, images, names - segs.Keys)
  {
    forall n | n in names - segs.Keys && n in images ensures images[n] == map[] {
      assert SegmentsFor(areas[n], Listed(segs, n), images[n]);
    }
    FromNothing(words, areas, images, names - segs.Keys);
  }

  /** One round of the loop, for any memory of the design. */
  lemma OneMore(before: seq<seq<byte>>, words: seq<seq<byte>>, after: seq<seq<byte>>, areas: Areas,
                images: map<Name, ByteMap>, design: map<Name, DesignMemory>, mem: DesignMemory, n: Name,
                todo: set<Name>)
    requires n in areas && n in images && n in todo
    requires FromAreas(before, words, areas, images, AreasAt(areas, design, mem) - todo)
    requires after == if n in AreasAt(areas, design, mem)
                      then Loaded(words, images[n], areas[n].widthByte) else words
    ensures FromAreas(before, after, areas, images, AreasAt(areas, design, mem) - (todo - {n}))
  {
    hide FromAreas;
    hide Loaded;
    var names, names' := AreasAt(areas, design, mem) - todo, AreasAt(areas, design, mem) - (todo - {n});
    if n in AreasAt(areas, design, mem) {
      assert names' == names + {n};
      FromOneMore(before, words, areas, images, names, n);
    } else {
      assert names' == names;
    }
  }

  /** The registered widths are those of the memories in the design. */
  ghost predicate Fitted(areas: Areas, design: map<Name, DesignMemory>)
    reads design.Values
  {
    && (forall l | l in design :: design[l].Valid())
    && (forall n | n in areas && areas[n].location in design :: design[areas[n].location].width == areas[n].widthByte)
  }

  /** The area has a memory in the design that no other area has. */
  ghost predicate Unshared(areas: Areas, design: map<Name, DesignMemory>, n: Name)
    requires n in areas
  {
    && areas[n].location in design
    && forall m | m in areas && m != n && areas[m].location in design ::
         design[areas[m].location] != design[areas[n].location]
  }

  /** Every byte for a memory in the design falls in a word the memory has. */
  ghost predicate AllFit(areas: Areas, design: map<Name, DesignMemory>, phdrs: seq<Phdr>, file: seq<byte>)
    reads design.Values
  {
    forall n | n in areas && areas[n].location in design ::
      Below(AreaImage(areas[n], phdrs, file), |design[areas[n].location].words| * areas[n].widthByte)
  }

  /** Every byte staged for an area is inside it. */
  lemma {:induction false} ImageInside(area: MemArea, phdrs: seq<Phdr>, file: seq<byte>)
    ensures forall a | a in AreaImage(area, phdrs, file) :: 0 <= a < area.size
  {
    if phdrs != [] {
      ImageInside(area, phdrs[..|phdrs| - 1], file);
    }
  }

  ghost predicate Below(m: ByteMap, bound: int) {
    forall a | a in m :: a < bound
  }

  /** Disjoint segments that start words and end below `size`. */
  ghost predicate Writable(es: seq<Entry<seq<byte>>>, width: nat, size: Addr) {
    && Disjoint(es) && AllOk(es, Exact) && 0 < width <= 64 && Aligned(es, width)
    && forall k | 0 <= k < |es| :: es[k].rng.hi < size
  }

  lemma LoadedNone(words: seq<seq<byte>>, es: seq<Entry<seq<byte>>>, width: nat)
    ensures Loaded(words, Bytes(es[..0]), width) == words && Below(Bytes(es[..0]), |words| * width)
  {
  }

  /** Writes all the segments staged for a memory, in ascending order. */
  method WriteSegments(area: MemArea, es: seq<Entry<seq<byte>>>, mem: DesignMemory) returns (ok: bool)
    requires mem.Valid() && mem.width == area.widthByte && (es == [] || Writable(es, area.widthByte, area.size))
    modifies mem
    ensures mem.Valid() && |mem.words| == |old(mem.words)|
    ensures ok <==> Below(Bytes(es), |mem.words| * mem.width)
    ensures ok ==> mem.words == Loaded(old(mem.words), Bytes(es), mem.width)
  {
    hide Writable;
    hide Bytes;
    hide Below;
    hide Loaded;
    hide Written;
    hide Overlay;
    ghost var before, width := mem.words, mem.width;
    LoadedNone(before, es, width);
    for k := 0 to |es|
      invariant mem.Valid() && |mem.words| == |before|
      invariant mem.words == Loaded(before, Bytes(es[..k]), width)
      invariant Below(Bytes(es[..k]), |before| * width)
    {
      SegmentStep(es, k, width, area.size, before);
      ok := WriteSegment(area, es[k].rng.lo, es[k].val, mem);
      if !ok {
        return;
      }
    }
    assert es[..|es|] == es;
    ok := true;
  }

  /** What one round of `WriteSegments` needs and does. */
  lemma SegmentStep(es: seq<Entry<seq<byte>>>, k: nat, width: nat, size: Addr, words: seq<seq<byte>>)
    requires Writable(es, width, size) && k < |es|
    requires Below(Bytes(es[..k]), |words| * width)
    ensures var lo, data, count := es[k].rng.lo, es[k].val, WordCount(|es[k].val|, width);
            && lo % width == 0 && lo + |data| <= size && data != []
            && (lo / width + count <= |words| <==> Below(Bytes(es[..k + 1]), |words| * width))
            && (lo / width + count > |words| ==> !Below(Bytes(es), |words| * width))
            && Written(Loaded(words, Bytes(es[..k]), width), data, lo / width, count, width)
              == Loaded(words, Bytes(es[..k + 1]), width)
  {
    var rng := es[k].rng;
    SegmentsBelow(es, k);
    WordsFit(rng.lo, |es[k].val|, width, |words|);
    WrittenLoaded(words, Bytes(es[..k]), rng.lo, es[k].val, width);
    BytesOf(es[..k + 1], k, rng.hi);
    BytesOf(es, k, rng.hi);
  }

  lemma SegmentsBelow(es: seq<Entry<seq<byte>>>, k: nat)
    requires Disjoint(es) && AllOk(es, Exact) && k < |es|
    ensures Below(Bytes(es[..k]), es[k].rng.lo)
    ensures Below(Bytes(es[..k + 1]), es[k].rng.hi + 1)
    ensures Bytes(es[..k + 1]) == Overlay(Bytes(es[..k]), es[k].rng.lo, es[k].val)
  {
    hide Bytes;
    BytesSnoc(es, k);
    forall a | a in Bytes(es[..k]) ensures a < es[k].rng.lo {
      var j := BytesFrom(es[..k], a);
      assert es[..k][j] == es[j];
    }
  }

  /** An aligned segment's words exist exactly when it ends inside the memory. */
  lemma WordsFit(lo: nat, n: nat, width: nat, count: nat)
    requires 0 < width && lo % width == 0 && 0 < n
    ensures lo / width + WordCount(n, width) <= count <==> lo + n <= count * width
  {
    hide WordCount;
    var q, c := lo / width, WordCount(n, width);
    assert lo == q * width;
    WordCounts(n, width);
    WordCountUp(n, width);
    assert (q + c) * width == lo + c * width;
    if q + c <= count {
      MulMono(q + c, count, width);
    } else {
      MulMono(count, q + c - 1, width);
      assert (q + c - 1) * width == lo + c * width - width;
    }
  }

  ghost function Get(staged: map<Name, ByteMap>, n: Name): ByteMap {
    if n in staged then staged[n] else map[]
  }

  lemma UpdateTwice(m: map<Name, ByteMap>, m1: map<Name, ByteMap>, m2: map<Name, ByteMap>, k: Name, v1: ByteMap,
                    v2: ByteMap)
    requires m1 == m[k := v1] && m2 == m1[k := v2]
    ensures m1[k] == v1 && m2 == m[k := v2]
  {
  }

  /** For every area, the bytes staged are those of its image. */
  ghost predicate Images(areas: Areas, staged: map<Name, ByteMap>, phdrs: seq<Phdr>, file: seq<byte>) {
    forall n | n in areas :: Get(staged, n) == AreaImage(areas[n], phdrs, file)
  }

  lemma ImagesSkip(areas: Areas, staged: map<Name, ByteMap>, phdrs: seq<Phdr>, file: seq<byte>, i: nat)
    requires i < |phdrs| && !Loads(phdrs[i]) && Images(areas, staged, phdrs[..i], file)
    ensures Images(areas, staged, phdrs[..i + 1], file)
  {
    forall n | n in areas {
      AreaImageStep(areas[n], phdrs, file, i);
    }
  }

  lemma ImagesAdd(areas: Areas, es: seq<Entry<Name>>, phdrs: seq<Phdr>, file: seq<byte>, i: nat, name: Name,
                  before: map<Name, ByteMap>, after: map<Name, ByteMap>)
    requires Consistent(areas, es) && i < |phdrs| && Images(areas, before, phdrs[..i], file)
    requires name in areas && LandsIn(areas[name], phdrs[i], |file|)
    requires after
             == before[name := Overlay(Get(before, name), Lma(phdrs[i]) - areas[name].base, Contents(phdrs[i], file))]
    ensures Images(areas, after, phdrs[..i + 1], file)
  {
    hide AreaImage;
    hide Overlay;
    hide Contents;
    hide Consistent;
    hide LandsIn;
    LandsOnlyIn(areas, es, name, phdrs[i], |file|);
    forall n | n in areas ensures Get(after, n) == AreaImage(areas[n], phdrs[..i + 1], file) {
      AreaImageStep(areas[n], phdrs, file, i);
    }
  }

  /** A segment that lands in one area lands in no other. */
  lemma LandsOnlyIn(areas: Areas, es: seq<Entry<Name>>, n: Name, ph: Phdr, size: nat)
    requires Consistent(areas, es) && n in areas && LandsIn(areas[n], ph, size)
    ensures forall m | m in areas && LandsIn(areas[m], ph, size) :: m == n
  {
    forall m | m in areas && LandsIn(areas[m], ph, size) ensures m == n {
      AreasDisjoint(areas, es, n, m, Lma(ph));
    }
  }

  lemma ClashMeans(areas: Areas, es: seq<Entry<Name>>, rng: Range)
    requires Consistent(areas, es) && rng.lo <= rng.hi
    ensures Disjoint(es)
    ensures (forall e | e in es :: !e.rng.Overlaps(rng)) <==> Free(areas, rng.lo, rng.hi - rng.lo + 1)
  {
    if n :| n in areas && areas[n].size > 0
            && !(areas[n].base + areas[n].size <= rng.lo || rng.hi + 1 <= areas[n].base) {
      var e := Entry(Range(areas[n].base, areas[n].base + areas[n].size - 1), n);
      assert e in es && e.rng.Overlaps(rng);
    }
  }
}
