/** The memory routines (`string.c`, and `memmove` of `minlibc.c`). Memory is a byte array whose first byte is
  * word aligned; pointers are indices into it. */
module MemRoutines {
  import opened Arith

  const WORD := 8

  /** A pointer, or a length, that is a multiple of the word size. */
  predicate WordAligned(p: nat) { p % WORD == 0 }

  // ----- Words -----------------------------------------------------------------------

  /** The little-endian word of eight bytes. */
  function Word(b0: bv8, b1: bv8, b2: bv8, b3: bv8, b4: bv8, b5: bv8, b6: bv8, b7: bv8): bv64 {
    (b0 as bv64) | ((b1 as bv64) << 8) | ((b2 as bv64) << 16) | ((b3 as bv64) << 24)
    | ((b4 as bv64) << 32) | ((b5 as bv64) << 40) | ((b6 as bv64) << 48) | ((b7 as bv64) << 56)
  }

  function ByteOf(w: bv64, k: nat): bv8
    requires k < WORD
  {
    match k
    case 0 => (w & 0xFF) as bv8
    case 1 => ((w >> 8) & 0xFF) as bv8
    case 2 => ((w >> 16) & 0xFF) as bv8
    case 3 => ((w >> 24) & 0xFF) as bv8
    case 4 => ((w >> 32) & 0xFF) as bv8
    case 5 => ((w >> 40) & 0xFF) as bv8
    case 6 => ((w >> 48) & 0xFF) as bv8
    case _ => ((w >> 56) & 0xFF) as bv8
  }

  function WordAt(m: seq<bv8>, p: nat): bv64
    requires p + WORD <= |m|
  {
    Word(m[p], m[p + 1], m[p + 2], m[p + 3], m[p + 4], m[p + 5], m[p + 6], m[p + 7])
  }

  lemma WordBytes(b0: bv8, b1: bv8, b2: bv8, b3: bv8, b4: bv8, b5: bv8, b6: bv8, b7: bv8)
    ensures var w := Word(b0, b1, b2, b3, b4, b5, b6, b7);
            ByteOf(w, 0) == b0 && ByteOf(w, 1) == b1 && ByteOf(w, 2) == b2 && ByteOf(w, 3) == b3
            && ByteOf(w, 4) == b4 && ByteOf(w, 5) == b5 && ByteOf(w, 6) == b6 && ByteOf(w, 7) == b7
  {
  }

  /** A word loaded and taken apart is the bytes it was loaded from. */
  lemma WordAtBytes(m: seq<bv8>, p: nat)
    requires p + WORD <= |m|
    ensures forall k :: 0 <= k < WORD ==> ByteOf(WordAt(m, p), k) == m[p + k]
  {
    WordBytes(m[p], m[p + 1], m[p + 2], m[p + 3], m[p + 4], m[p + 5], m[p + 6], m[p + 7]);
  }

  /** Memory after a word store. */
  function Stored(m: seq<bv8>, p: nat, w: bv64): (r: seq<bv8>)
    requires p + WORD <= |m|
    ensures |r| == |m|
  {
    seq(|m|, i requires 0 <= i < |m| => if p <= i < p + WORD then ByteOf(w, i - p) else m[i])
  }

  function Load(mem: array<bv8>, p: nat): bv64
    requires p + WORD <= mem.Length
    reads mem
  {
    WordAt(mem[..], p)
  }

  method Store(mem: array<bv8>, p: nat, w: bv64)
    requires p + WORD <= mem.Length
    modifies mem
    ensures mem[..] == Stored(old(mem[..]), p, w)
  {
    for k := 0 to WORD
      invariant forall i :: 0 <= i < mem.Length ==> mem[i] == if p <= i < p + k then ByteOf(w, i - p) else old(mem[i])
    {
      mem[p + k] := ByteOf(w, k);
    }
  }

  // ----- memcpy ----------------------------------------------------------------------

  /** Copying byte by byte from the front, whatever the overlap. */
  function CopyBytes(m: seq<bv8>, d: nat, s: nat, n: nat): (r: seq<bv8>)
    requires d + n <= |m| && s + n <= |m|
    ensures |r| == |m|
  {
    if n == 0 then m else
      var t := CopyBytes(m, d, s, n - 1);
      t[d + n - 1 := t[s + n - 1]]
  }

  /** The place of index `j` in a period of `p`. */
  function Phase(j: nat, p: nat): (r: nat)
    requires 0 < p
    ensures r < p
  {
    j % p
  }

  lemma PhaseStep(j: nat, p: nat)
    requires 0 < p
    ensures Phase(j, p) == if j < p then j else Phase(j - p, p)
  {
    if j < p {
      ModSmall(j, p);
    } else {
      ModAddMultiple(j - p, 1, p);
    }
  }

  /** What a byte copy leaves at each index: the source as it was, repeated with the distance as its period where
      the destination lies ahead of the source. */
  lemma {:induction false} CopyBytesAt(m: seq<bv8>, d: nat, s: nat, n: nat, i: nat)
    requires d + n <= |m| && s + n <= |m| && i < |m|
    ensures CopyBytes(m, d, s, n)[i]
         == if !(d <= i < d + n) then m[i] else if s < d then m[s + Phase(i - d, d - s)] else m[s + (i - d)]
    decreases n
  {
    hide Phase;
    if n > 0 {
      CopyBytesAt(m, d, s, n - 1, i);
      CopyBytesAt(m, d, s, n - 1, s + n - 1);
      if s < d {
        PhaseStep(n - 1, d - s);
      }
    }
  }

  /** The memory with `n` bytes from `d` replaced by the `n` bytes that stood at `s`. */
  function Moved(m: seq<bv8>, d: nat, s: nat, n: nat): (r: seq<bv8>)
    requires d + n <= |m| && s + n <= |m|
    ensures |r| == |m|
  {
    m[..d] + m[s..s + n] + m[d + n..]
  }

  /** A byte copy moves the source as it was, for every content of memory, exactly if the destination does not start
      inside the source. */
  lemma CopyMovesIff(d: nat, s: nat, n: nat, size: nat)
    requires d + n <= size && s + n <= size
    ensures (forall m: seq<bv8> :: |m| == size ==> CopyBytes(m, d, s, n) == Moved(m, d, s, n)) <==> !(s < d < s + n)
  {
    hide CopyBytes;
    hide Moved;
    if s < d < s + n {
      var m := Overlap(d, s, n, size);
    } else {
      forall m: seq<bv8> | |m| == size
        ensures CopyBytes(m, d, s, n) == Moved(m, d, s, n)
      {
        CopyMoves(m, d, s, n);
      }
    }
  }

  /** Where the destination starts inside the source, some content is not moved. */
  lemma Overlap(d: nat, s: nat, n: nat, size: nat) returns (m: seq<bv8>)
    requires d + n <= size && s + n <= size && s < d < s + n
    ensures |m| == size && CopyBytes(m, d, s, n) != Moved(m, d, s, n)
  {
    hide CopyBytes;
    hide Phase;
    m := seq(size, i => if i == d then 1 else 0);
    var i := d + (d - s);
    CopyBytesAt(m, d, s, n, i);
    PhaseStep(d - s, d - s);
    PhaseStep(0, d - s);
    assert CopyBytes(m, d, s, n)[i] == m[s];
    assert Moved(m, d, s, n)[i] == m[d];
  }

  lemma CopyMoves(m: seq<bv8>, d: nat, s: nat, n: nat)
    requires d + n <= |m| && s + n <= |m| && !(s < d < s + n)
    ensures CopyBytes(m, d, s, n) == Moved(m, d, s, n)
  {
    forall i | 0 <= i < |m|
      ensures CopyBytes(m, d, s, n)[i] == Moved(m, d, s, n)[i]
    {
      CopyBytesAt(m, d, s, n, i);
      if s < d && d <= i < d + n {
        PhaseStep(i - d, d - s);
      }
    }
  }

  /** Eight more bytes are one more word, if the distance is not less than a word. */
  lemma CopyWord(m: seq<bv8>, d: nat, s: nat, n: nat)
    requires d + n + WORD <= |m| && s + n + WORD <= |m| && (s + WORD <= d || d <= s)
    ensures var t := CopyBytes(m, d, s, n);
            CopyBytes(m, d, s, n + WORD) == Stored(t, d + n, WordAt(t, s + n))
  {
    hide ByteOf;
    hide WordAt;
    hide CopyBytes;
    var t := CopyBytes(m, d, s, n);
    CopyBytesSplit(m, d, s, n, WORD);
    CopyMoves(t, d + n, s + n, WORD);
    WordAtBytes(t, s + n);
  }

  /** A byte copy can be done in two parts. */
  lemma {:induction false} CopyBytesSplit(m: seq<bv8>, d: nat, s: nat, n: nat, k: nat)
    requires d + n + k <= |m| && s + n + k <= |m|
    ensures CopyBytes(m, d, s, n + k) == CopyBytes(CopyBytes(m, d, s, n), d + n, s + n, k)
    decreases k
  {
    if k > 0 {
      CopyBytesSplit(m, d, s, n, k - 1);
    }
  }

  lemma AlignedApart(d: nat, s: nat)
    requires WordAligned(d) && WordAligned(s)
    ensures s + WORD <= d || d <= s
  {
  }

  /** The word loop of `memcpy`. */
  method CopyWords(mem: array<bv8>, dest: nat, src: nat, len: nat)
    requires dest + len <= mem.Length && src + len <= mem.Length
    requires WordAligned(dest) && WordAligned(src) && WordAligned(len)
    modifies mem
    ensures mem[..] == CopyBytes(old(mem[..]), dest, src, len)
  {
    hide CopyBytes;
    hide Stored;
    hide WordAt;
    var d: nat, s: nat := dest, src;
    ghost var m := mem[..];
    CopyNone(m, dest, src);
    AlignedApart(dest, src);
    while d < dest + len
      invariant dest <= d <= dest + len && s - src == d - dest && WordAligned(d)
      invariant mem[..] == CopyBytes(m, dest, src, d - dest)
    {
      CopyWord(m, dest, src, d - dest);
      Store(mem, d, Load(mem, s));
      d := d + WORD;
      s := s + WORD;
    }
  }

  /** `memcpy`: word by word if both pointers and the length allow it, else byte by byte; in either case the effect is
      that of the byte copy, for every overlap. */
  method Memcpy(mem: array<bv8>, dest: nat, src: nat, len: nat) returns (ret: nat)
    requires dest + len <= mem.Length && src + len <= mem.Length
    modifies mem
    ensures ret == dest && mem[..] == CopyBytes(old(mem[..]), dest, src, len)
    ensures dest <= src || src + len <= dest ==>
              forall i :: 0 <= i < mem.Length ==>
                mem[..][i] == if dest <= i < dest + len then old(mem[..])[src + (i - dest)] else old(mem[..])[i]
  {
    hide CopyBytes;
    hide Moved;
    ghost var m := mem[..];
    if WordAligned(dest) && WordAligned(src) && WordAligned(len) {
      CopyWords(mem, dest, src, len);
      CopiedIs(mem[..], m, dest, src, len);
      return dest;
    }
    var d: nat, s: nat := dest, src;
    CopyNone(m, dest, src);
    while d < dest + len
      invariant dest <= d <= dest + len && s - src == d - dest
      invariant mem[..] == CopyBytes(m, dest, src, d - dest)
    {
      CopyByte(m, dest, src, d - dest);
      mem[d] := mem[s];
      d := d + 1;
      s := s + 1;
    }
    ret := dest;
    CopiedIs(mem[..], m, dest, src, len);
  }

  /** Where the destination does not start inside the source, the copy is the source as it was. */
  lemma CopiedIs(t: seq<bv8>, m: seq<bv8>, d: nat, s: nat, n: nat)
    requires d + n <= |m| && s + n <= |m| && t == CopyBytes(m, d, s, n)
    ensures d <= s || s + n <= d ==>
              forall i :: 0 <= i < |t| ==> t[i] == if d <= i < d + n then m[s + (i - d)] else m[i]
  {
    hide CopyBytes;
    hide Moved;
    if d <= s || s + n <= d {
      CopyMoves(m, d, s, n);
      MovedIs(t, m, d, s, n);
    }
  }

  lemma MovedIs(t: seq<bv8>, m: seq<bv8>, d: nat, s: nat, n: nat)
    requires d + n <= |m| && s + n <= |m| && t == Moved(m, d, s, n)
    ensures |t| == |m| && forall i :: 0 <= i < |t| ==> t[i] == if d <= i < d + n then m[s + (i - d)] else m[i]
  {
    hide Moved;
    forall i | 0 <= i < |t| ensures t[i] == if d <= i < d + n then m[s + (i - d)] else m[i] {
      MovedAt(m, d, s, n, i);
    }
  }

  lemma CopyNone(m: seq<bv8>, d: nat, s: nat)
    requires d <= |m| && s <= |m|
    ensures CopyBytes(m, d, s, 0) == m
  {
  }

  lemma CopyByte(m: seq<bv8>, d: nat, s: nat, n: nat)
    requires d + n < |m| && s + n < |m|
    ensures var t := CopyBytes(m, d, s, n); CopyBytes(m, d, s, n + 1) == t[d + n := t[s + n]]
  {
  }

  // ----- memset ----------------------------------------------------------------------

  /** The memory with `n` bytes from `d` set to `b`. */
  function Filled(m: seq<bv8>, d: nat, b: bv8, n: nat): (r: seq<bv8>)
    requires d + n <= |m|
    ensures |r| == |m|
  {
    m[..d] + seq(n, _ => b) + m[d + n..]
  }

  /** The word `memset` builds by doubling. */
  function Doubled(b: bv8): bv64 {
    var w := b as bv64;
    var w2 := w | (w << 8);
    var w4 := w2 | (w2 << 16);
    w4 | ((w4 << 16) << 16)
  }

  lemma DoubledBytes(b: bv8)
    ensures Doubled(b) == Word(b, b, b, b, b, b, b, b)
  {
  }

  lemma FillWord(m: seq<bv8>, d: nat, b: bv8, n: nat)
    requires d + n + WORD <= |m|
    ensures Filled(m, d, b, n + WORD) == Stored(Filled(m, d, b, n), d + n, Doubled(b))
  {
    hide ByteOf;
    hide Doubled;
    hide Word;
    DoubledBytes(b);
    WordBytes(b, b, b, b, b, b, b, b);
  }

  lemma FilledAt(m: seq<bv8>, d: nat, b: bv8, n: nat)
    requires d + n <= |m|
    ensures forall i :: 0 <= i < |m| ==> Filled(m, d, b, n)[i] == if d <= i < d + n then b else m[i]
  {
  }

  lemma FillNone(m: seq<bv8>, d: nat, b: bv8)
    requires d <= |m|
    ensures Filled(m, d, b, 0) == m
  {
  }

  lemma FillByte(m: seq<bv8>, d: nat, b: bv8, n: nat)
    requires d + n < |m|
    ensures Filled(m, d, b, n + 1) == Filled(m, d, b, n)[d + n := b]
  {
  }

  /** Before the aligned end of a region there is room for a whole word. */
  lemma RoomForWord(d: nat, end: nat)
    requires WordAligned(d) && WordAligned(end) && d < end
    ensures d + WORD <= end && WordAligned(d + WORD)
  {
  }

  lemma AlignedSum(d: nat, n: nat)
    requires WordAligned(d) && WordAligned(n)
    ensures WordAligned(d + n)
  {
  }

  /** `memset`; `byte` is the low byte of its argument. */
  method Memset(mem: array<bv8>, dest: nat, byte: bv8, len: nat) returns (ret: nat)
    requires dest + len <= mem.Length
    modifies mem
    ensures ret == dest && mem[..] == Filled(old(mem[..]), dest, byte, len)
    ensures forall i :: 0 <= i < mem.Length ==> mem[..][i] == if dest <= i < dest + len then byte else old(mem[..])[i]
  {
    hide Stored;
    hide Doubled;
    hide Filled;
    hide WordAligned;
    var d := dest;
    ghost var m := mem[..];
    FillNone(m, dest, byte);
    if WordAligned(dest) && WordAligned(len) {
      AlignedSum(dest, len);
      var word := Doubled(byte);
      while d < dest + len
        invariant dest <= d <= dest + len && WordAligned(d)
        invariant mem[..] == Filled(m, dest, byte, d - dest)
      {
        RoomForWord(d, dest + len);
        FillWord(m, dest, byte, d - dest);
        Store(mem, d, word);
        d := d + WORD;
      }
    } else {
      while d < dest + len
        invariant dest <= d <= dest + len
        invariant mem[..] == Filled(m, dest, byte, d - dest)
      {
        FillByte(m, dest, byte, d - dest);
        mem[d] := byte;
        d := d + 1;
      }
    }
    ret := dest;
    FilledAt(m, dest, byte, len);
  }

  // ----- memcmp ----------------------------------------------------------------------

  /** The first of `n` bytes in which the regions at `p` and `q` differ, or `n`. */
  function FirstDifference(m: seq<bv8>, p: nat, q: nat, n: nat): (k: nat)
    requires p + n <= |m| && q + n <= |m|
    ensures k <= n && (k < n ==> m[p + k] != m[q + k])
    decreases n
  {
    if n == 0 || m[p] != m[q] then 0 else 1 + FirstDifference(m, p + 1, q + 1, n - 1)
  }

  /** Before the first difference the regions are equal. */
  lemma {:induction false} SameBefore(m: seq<bv8>, p: nat, q: nat, n: nat, i: nat)
    requires p + n <= |m| && q + n <= |m| && i < FirstDifference(m, p, q, n)
    ensures m[p + i] == m[q + i]
    decreases n
  {
    if i > 0 {
      SameBefore(m, p + 1, q + 1, n - 1, i - 1);
    }
  }

  /** The difference at the first differing byte, or zero. */
  function Compared(m: seq<bv8>, p: nat, q: nat, n: nat): int
    requires p + n <= |m| && q + n <= |m|
  {
    var k := FirstDifference(m, p, q, n);
    if k == n then 0 else m[p + k] as int - m[q + k] as int
  }

  /** Byte `k` is the first in which the regions differ, and `r` is the difference. */
  predicate DifferAt(m: seq<bv8>, p: nat, q: nat, n: nat, k: nat, r: int) {
    p + n <= |m| && q + n <= |m| && k < n && m[p..p + k] == m[q..q + k] && r == m[p + k] as int - m[q + k] as int
  }

  /** Zero exactly for equal regions, else the difference at the first byte that differs. */
  lemma ComparedIs(m: seq<bv8>, p: nat, q: nat, n: nat)
    requires p + n <= |m| && q + n <= |m|
    ensures Compared(m, p, q, n) == 0 <==> m[p..p + n] == m[q..q + n]
    ensures Compared(m, p, q, n) != 0 ==> exists k: nat :: DifferAt(m, p, q, n, k, Compared(m, p, q, n))
  {
    hide FirstDifference;
    var k := FirstDifference(m, p, q, n);
    var a, b := m[p..p + k], m[q..q + k];
    forall i | 0 <= i < k ensures a[i] == b[i] {
      SameBefore(m, p, q, n, i);
    }
    assert a == b;
    if k < n {
      assert m[p..p + n][k] == m[p + k] && m[q..q + n][k] == m[q + k];
      assert DifferAt(m, p, q, n, k, Compared(m, p, q, n));
    }
  }

  /** Equal words hold equal bytes. */
  lemma EqualWords(m: seq<bv8>, p: nat, q: nat, n: nat)
    requires p + n <= |m| && q + n <= |m| && n >= WORD && WordAt(m, p) == WordAt(m, q)
    ensures Compared(m, p, q, n) == Compared(m, p + WORD, q + WORD, n - WORD)
  {
    hide ByteOf;
    hide WordAt;
    hide FirstDifference;
    WordAtBytes(m, p);
    WordAtBytes(m, q);
    var a, b := m[p..p + WORD], m[q..q + WORD];
    forall k | 0 <= k < WORD ensures a[k] == b[k] {
      assert m[p + k] == ByteOf(WordAt(m, p), k) == ByteOf(WordAt(m, q), k) == m[q + k];
      assert a[k] == m[p + k] && b[k] == m[q + k];
    }
    assert a == b;
    SkipEqual(m, p, q, n, WORD);
  }

  lemma {:induction false} SkipEqual(m: seq<bv8>, p: nat, q: nat, n: nat, k: nat)
    requires p + n <= |m| && q + n <= |m| && k <= n && m[p..p + k] == m[q..q + k]
    ensures Compared(m, p, q, n) == Compared(m, p + k, q + k, n - k)
    decreases k
  {
    hide Compared;
    if k > 0 {
      assert m[p] == m[p..p + k][0] == m[q];
      assert m[p + 1..p + 1 + (k - 1)] == m[p..p + k][1..] == m[q + 1..q + 1 + (k - 1)];
      CompareByte(m, p, q, n);
      SkipEqual(m, p + 1, q + 1, n - 1, k - 1);
    }
  }

  /** The word loop of `memcmp`, which passes over equal words. */
  method SkipWords(mem: array<bv8>, p: nat, q: nat, len: nat) returns (n: nat)
    requires p + len <= mem.Length && q + len <= mem.Length && WordAligned(p) && WordAligned(q)
    ensures n <= len && Compared(mem[..], p + n, q + n, len - n) == Compared(mem[..], p, q, len)
  {
    hide Compared;
    hide WordAt;
    var u1: nat, u2: nat, end := p, q, p + len / WORD * WORD;
    ghost var m := mem[..];
    while u1 < end
      invariant p <= u1 <= end && u2 - q == u1 - p && WordAligned(u1)
      invariant Compared(m, u1, u2, len - (u1 - p)) == Compared(m, p, q, len)
    {
      if Load(mem, u1) != Load(mem, u2) {
        break;
      }
      EqualWords(m, u1, u2, len - (u1 - p));
      u1 := u1 + WORD;
      u2 := u2 + WORD;
    }
    n := u1 - p;
  }

  /** `memcmp`: equal words are passed over when both pointers are aligned; then bytes are compared. */
  method Memcmp(mem: array<bv8>, p: nat, q: nat, len: nat) returns (r: int)
    requires p + len <= mem.Length && q + len <= mem.Length
    ensures r == Compared(mem[..], p, q, len)
    ensures r == 0 <==> mem[..][p..p + len] == mem[..][q..q + len]
    ensures r != 0 ==> exists k: nat :: DifferAt(mem[..], p, q, len, k, r)
  {
    hide Compared;
    hide DifferAt;
    ComparedIs(mem[..], p, q, len);
    var s1: nat, s2: nat, n: nat := p, q, len;
    ghost var m := mem[..];
    if WordAligned(p) && WordAligned(q) {
      var skipped := SkipWords(mem, p, q, len);
      s1, s2, n := p + skipped, q + skipped, len - skipped;
    }
    while n > 0
      invariant s1 + n == p + len && s2 + n == q + len
      invariant Compared(m, s1, s2, n) == Compared(m, p, q, len)
      decreases n
    {
      CompareByte(m, s1, s2, n);
      n := n - 1;
      var c1, c2 := mem[s1], mem[s2];
      s1, s2 := s1 + 1, s2 + 1;
      if c1 != c2 {
        return c1 as int - c2 as int;
      }
    }
    CompareNone(m, s1, s2);
    return 0;
  }

  lemma CompareByte(m: seq<bv8>, p: nat, q: nat, n: nat)
    requires p + n <= |m| && q + n <= |m| && n > 0
    ensures Compared(m, p, q, n) == if m[p] != m[q] then m[p] as int - m[q] as int else Compared(m, p + 1, q + 1, n - 1)
  {
  }

  lemma CompareNone(m: seq<bv8>, p: nat, q: nat)
    requires p <= |m| && q <= |m|
    ensures Compared(m, p, q, 0) == 0
  {
  }

  // ----- memmove ---------------------------------------------------------------------

  lemma MovedNone(m: seq<bv8>, d: nat, s: nat)
    requires d <= |m| && s <= |m|
    ensures Moved(m, d, s, 0) == m
  {
  }

  /** Going up, the next source byte has not been overwritten if the source lies ahead. */
  lemma MovedUp(m: seq<bv8>, d: nat, s: nat, n: nat)
    requires d + n < |m| && s + n < |m| && d < s
    ensures var t := Moved(m, d, s, n); Moved(m, d, s, n + 1) == t[d + n := t[s + n]]
  {
    hide Moved;
    var l, r := Moved(m, d, s, n + 1), Moved(m, d, s, n)[d + n := Moved(m, d, s, n)[s + n]];
    MovedAt(m, d, s, n, s + n);
    forall i | 0 <= i < |m| ensures l[i] == r[i] {
      MovedAt(m, d, s, n + 1, i);
      MovedAt(m, d, s, n, i);
    }
  }

  lemma MovedAt(m: seq<bv8>, d: nat, s: nat, n: nat, i: nat)
    requires d + n <= |m| && s + n <= |m| && i < |m|
    ensures Moved(m, d, s, n)[i] == if d <= i < d + n then m[s + (i - d)] else m[i]
  {
  }

  /** Going down, the next source byte has not been overwritten if the source does not lie ahead. */
  lemma MovedDown(m: seq<bv8>, d: nat, s: nat, n: nat)
    requires 0 < s <= d && d + n <= |m|
    ensures var t := Moved(m, d, s, n); Moved(m, d - 1, s - 1, n + 1) == t[d - 1 := t[s - 1]]
  {
    hide Moved;
    var l, r := Moved(m, d - 1, s - 1, n + 1), Moved(m, d, s, n)[d - 1 := Moved(m, d, s, n)[s - 1]];
    MovedAt(m, d, s, n, s - 1);
    forall i | 0 <= i < |m| ensures l[i] == r[i] {
      MovedAt(m, d - 1, s - 1, n + 1, i);
      MovedAt(m, d, s, n, i);
    }
  }

  /** `memmove`: the destination gets the source as it was, whatever the overlap. */
  method Memmove(mem: array<bv8>, dest: nat, src: nat, len: nat) returns (ret: nat)
    requires dest + len <= mem.Length && src + len <= mem.Length
    modifies mem
    ensures ret == dest && mem[..] == Moved(old(mem[..]), dest, src, len)
    ensures forall i :: 0 <= i < mem.Length ==>
              mem[..][i] == if dest <= i < dest + len then old(mem[..])[src + (i - dest)] else old(mem[..])[i]
  {
    hide Moved;
    var d: nat, s: nat, n: nat := dest, src, len;
    ghost var m := mem[..];
    MovedNone(m, dest, src);
    MovedNone(m, dest + len, src + len);
    if d < s {
      while n > 0
        invariant n <= len && d == dest + len - n && s == src + len - n
        invariant mem[..] == Moved(m, dest, src, len - n)
      {
        MovedUp(m, dest, src, len - n);
        n := n - 1;
        mem[d] := mem[s];
        d, s := d + 1, s + 1;
      }
    } else {
      d, s := d + n, s + n;
      while n > 0
        invariant n <= len && d == dest + n && s == src + n
        invariant mem[..] == Moved(m, d, s, len - n)
      {
        MovedDown(m, d, s, len - n);
        n := n - 1;
        d, s := d - 1, s - 1;
        mem[d] := mem[s];
      }
    }
    ret := dest;
    MovedIs(mem[..], m, dest, src, len);
  }
}
