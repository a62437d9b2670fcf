/** Bounded character output (`_out_buffer`, `_out_null` of `printf.c`). */
module PrintfOut {
  import opened Common

  /** The characters of the buffer, none when there is no buffer, and the indices stored to, in order. */
  datatype Sink = Sink(chars: seq<char>, log: seq<nat>)

  ghost function Now(buffer: array?<char>, log: seq<nat>): Sink
    reads buffer
  {
    Sink(if buffer == null then [] else buffer[..], log)
  }

  /** Stores reach the indices below this bound. */
  function Bound(buffer: array?<char>, maxlen: nat): nat { if buffer == null then 0 else maxlen }

  /** Output up to index `end` stays in the buffer, as far as `maxlen` lets it through. */
  predicate Fits(buffer: array?<char>, maxlen: nat, end: nat) {
    buffer != null ==> Min(end, maxlen) <= buffer.Length
  }

  /** `n` successive indices from `idx`, as far as they lie below the bound. */
  ghost function Indices(idx: nat, n: nat, bound: nat): (s: seq<nat>)
    ensures |s| == if idx < bound then Min(n, bound - idx) else 0
    ensures forall k :: 0 <= k < |s| ==> s[k] == idx + k
  {
    seq(if idx < bound then Min(n, bound - idx) else 0, k requires 0 <= k => idx + k)
  }

  /** `text` put at index `idx`, each of its characters by one store; what falls at or beyond the bound is dropped. */
  ghost function Emit(s: Sink, idx: nat, text: string, bound: nat): (r: Sink)
    ensures |r.chars| == |s.chars|
  {
    Sink(
      seq(|s.chars|, k requires 0 <= k < |s.chars| =>
        if idx <= k < idx + |text| && k < bound then text[k - idx] else s.chars[k]),
      s.log + Indices(idx, |text|, bound))
  }

  /** Emitting one text after another is emitting both. */
  lemma EmitConcat(s: Sink, idx: nat, t: string, u: string, bound: nat)
    ensures Emit(Emit(s, idx, t, bound), idx + |t|, u, bound) == Emit(s, idx, t + u, bound)
  {
    var once, twice := Emit(s, idx, t + u, bound), Emit(Emit(s, idx, t, bound), idx + |t|, u, bound);
    assert once.chars == twice.chars;
    assert Indices(idx, |t|, bound) + Indices(idx + |t|, |u|, bound) == Indices(idx, |t + u|, bound);
  }

  lemma EmitNothing(s: Sink, idx: nat, bound: nat)
    ensures Emit(s, idx, "", bound) == s
  {
  }

  /** `_out_buffer`, or `_out_null` when there is no buffer. */
  method Out(c: char, buffer: array?<char>, idx: nat, maxlen: nat, ghost log: seq<nat>) returns (ghost log': seq<nat>)
    requires Fits(buffer, maxlen, idx + 1)
    modifies buffer
    ensures Now(buffer, log') == Emit(old(Now(buffer, log)), idx, [c], Bound(buffer, maxlen))
  {
    log' := log;
    if buffer != null && idx < maxlen {
      buffer[idx] := c;
      log' := log + [idx];
    }
  }

  function Repeat(c: char, n: int): (s: string)
    ensures |s| == if n > 0 then n else 0
  {
    seq(if n > 0 then n else 0, _ => c)
  }

  lemma RepeatStep(c: char, n: nat)
    ensures Repeat(c, n + 1) == Repeat(c, n) + [c]
  {
  }

  /** Pads with the same character `n` times. */
  method OutRepeat(c: char, n: int, buffer: array?<char>, idx: nat, maxlen: nat, ghost log: seq<nat>)
    returns (idx': nat, ghost log': seq<nat>)
    requires Fits(buffer, maxlen, idx + |Repeat(c, n)|)
    modifies buffer
    ensures idx' == idx + |Repeat(c, n)|
    ensures Now(buffer, log') == Emit(old(Now(buffer, log)), idx, Repeat(c, n), Bound(buffer, maxlen))
  {
    hide Emit;
    hide Now;
    ghost var s, bound := Now(buffer, log), Bound(buffer, maxlen);
    idx', log' := idx, log;
    var i := 0;
    EmitNothing(s, idx, bound);
    while i < n
      invariant 0 <= i <= (if n > 0 then n else 0) && idx' == idx + i
      invariant Now(buffer, log') == Emit(s, idx, Repeat(c, i), bound)
    {
      EmitConcat(s, idx, Repeat(c, i), [c], bound);
      RepeatStep(c, i);
      log' := Out(c, buffer, idx', maxlen, log');
      idx' := idx' + 1;
      i := i + 1;
    }
    assert Repeat(c, i) == Repeat(c, n);
  }

  /** Puts the first `len` characters of a digit buffer in reverse. */
  method OutReversed(buf: array<char>, len: nat, buffer: array?<char>, idx: nat, maxlen: nat, ghost log: seq<nat>)
    returns (idx': nat, ghost log': seq<nat>)
    requires len <= buf.Length && buf != buffer && Fits(buffer, maxlen, idx + len)
    modifies buffer
    ensures idx' == idx + len
    ensures Now(buffer, log') == Emit(old(Now(buffer, log)), idx, Reverse(old(buf[..len])), Bound(buffer, maxlen))
  {
    hide Emit;
    hide Now;
    ghost var s, bound := Now(buffer, log), Bound(buffer, maxlen);
    idx', log' := idx, log;
    ghost var text := Reverse(buf[..len]);
    EmitNothing(s, idx, bound);
    for i := 0 to len
      invariant idx' == idx + i && buf[..] == old(buf[..])
      invariant Now(buffer, log') == Emit(s, idx, text[..i], bound)
    {
      EmitConcat(s, idx, text[..i], [text[i]], bound);
      assert text[..i + 1] == text[..i] + [text[i]];
      assert text[i] == buf[..len][len - 1 - i];
      log' := Out(buf[len - i - 1], buffer, idx', maxlen, log');
      idx' := idx' + 1;
    }
    assert text[..len] == text;
  }

  /** Puts a string. */
  method OutString(text: string, buffer: array?<char>, idx: nat, maxlen: nat, ghost log: seq<nat>)
    returns (idx': nat, ghost log': seq<nat>)
    requires Fits(buffer, maxlen, idx + |text|)
    modifies buffer
    ensures idx' == idx + |text|
    ensures Now(buffer, log') == Emit(old(Now(buffer, log)), idx, text, Bound(buffer, maxlen))
  {
    hide Emit;
    hide Now;
    ghost var s, bound := Now(buffer, log), Bound(buffer, maxlen);
    idx', log' := idx, log;
    EmitNothing(s, idx, bound);
    for i := 0 to |text|
      invariant idx' == idx + i
      invariant Now(buffer, log') == Emit(s, idx, text[..i], bound)
    {
      EmitConcat(s, idx, text[..i], [text[i]], bound);
      assert text[..i + 1] == text[..i] + [text[i]];
      log' := Out(text[i], buffer, idx', maxlen, log');
      idx' := idx' + 1;
    }
    assert text[..|text|] == text;
  }
}
