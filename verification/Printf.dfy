/** The format loop (`_vsnprintf` of `printf.c`) on RV64, where `long` and pointers have 64 bits and plain `char`
    is unsigned. */
module Printf {
  import opened Arith
  import opened Common
  import opened PrintfDirective
  import opened PrintfNtoa
  import opened PrintfOut
  import opened PrintfRead

  // ----- Conversions -----------------------------------------------------------------

  predicate IsInt(c: char) { c == 'd' || c == 'i' || c == 'u' || c == 'x' || c == 'X' || c == 'o' || c == 'b' }

  predicate IsSigned(c: char) { c == 'd' || c == 'i' }

  function Base(c: char): (b: nat)
    ensures 2 <= b <= 36
  {
    if c == 'x' || c == 'X' then 16 else if c == 'o' then 8 else if c == 'b' then 2 else 10
  }

  /** The flags that count for an integer conversion. */
  function IntFlags(c: char, fl: Flags): Flags {
    Flags(fl.zeropad && !fl.precision, fl.left, fl.plus && IsSigned(c), fl.space && IsSigned(c),
          fl.hash && Base(c) != 10, fl.upper || c == 'X', fl.precision)
  }

  /** The number an integer conversion prints. */
  function IntValue(c: char, bits: nat, size: Size): int {
    match size
    case LongLong => if IsSigned(c) then Signed(bits, U64) else bits % U64
    case Long => if IsSigned(c) then Signed(bits, U64) else bits % U64
    case Char => bits % 0x100
    case Short => if IsSigned(c) then Signed(bits, 0x1_0000) else bits % 0x1_0000
    case Int => if IsSigned(c) then Signed(bits, U32) else bits % U32
  }

  /** A conversion takes one argument of the right kind, or none. */
  predicate Convertible(c: char, args: seq<Arg>, a: nat) {
    if IsInt(c) || c == 'c' || c == 'p' then HasNum(args, a)
    else if c == 's' then a < |args| && args[a].Str?
    else c != 'f' && c != 'F'
  }

  function Used(c: char): nat { if IsInt(c) || c == 'c' || c == 'p' || c == 's' then 1 else 0 }

  function Shown(text: string, s: Spec): string {
    if s.fl.precision then text[..Min(|text|, s.prec)] else text
  }

  /** `l` of the 's' conversion, a 32-bit count. */
  function ShownLength(text: string, s: Spec): nat {
    var l := Min(|text|, if s.prec != 0 then s.prec else U64 - 1) % U32;
    if s.fl.precision then Min(l, s.prec) else l
  }

  function Justified(text: string, l: nat, s: Spec): string {
    if s.fl.left then text + Repeat(' ', s.width - l) else Repeat(' ', s.width - l) + text
  }

  /** What a directive puts out. */
  ghost function Converted(c: char, args: seq<Arg>, s: Spec): string
    requires Convertible(c, args, s.a)
  {
    if IsInt(c) then
      var v := IntValue(c, args[s.a].bits, s.size);
      IntField(Abs(v), v < 0, Base(c), s.prec, s.width, IntFlags(c, s.fl))
    else if c == 'c' then Justified([(args[s.a].bits % 0x100) as char], 1, s)
    else if c == 's' then Justified(Shown(args[s.a].text, s), ShownLength(args[s.a].text, s), s)
    else if c == 'p' then
      IntField(args[s.a].bits % U64, false, 16, s.prec, 16, s.fl.(zeropad := true, upper := true))
    else [c]
  }

  /** The unbounded output from index `i` of the format and argument `a`. None where the behaviour is not defined
      (a missing argument, or one of the wrong kind; a directive the terminator cuts off) or not modelled ('f'). */
  ghost function Render(f: CString, i: nat, args: seq<Arg>, a: nat): Option<string>
    requires i <= |f|
    decreases |f| - i
  {
    if i == |f| then Some("")
    else if f[i] != '%' then Prepend([f[i]], Render(f, i + 1, args, a))
    else
      match DirectiveAt(f, args, i + 1, a)
      case None => None
      case Some(s) =>
        if s.i == |f| || !Convertible(f[s.i], args, s.a) then None
        else Prepend(Converted(f[s.i], args, s), Render(f, s.i + 1, args, s.a + Used(f[s.i])))
  }

  ghost function Prepend(s: string, t: Option<string>): Option<string> {
    match t
    case None => None
    case Some(u) => Some(s + u)
  }

  /** The buffer after the call: `text` as far as `maxlen` leaves room for the terminator, then the terminator, then
      what was there before. Without room for the terminator, nothing changes. */
  ghost function Terminated(s: seq<char>, text: string, maxlen: nat): (r: seq<char>)
    ensures |r| == |s|
  {
    var end := Min(|text|, maxlen - 1);
    seq(|s|, k requires 0 <= k < |s| => if k < end then text[k] else if k == end then '\0' else s[k])
  }

  /** The indices stored to: before the terminator each one below the output's end and the bound once, in increasing
      order; then the terminator's. */
  ghost function Stores(length: nat, bound: nat): seq<nat> {
    seq(Min(length, bound), k => k) + if bound > 0 then [Min(length, bound - 1)] else []
  }

  lemma TerminatedEmit(buffer: array?<char>, s: Sink, text: string, maxlen: nat, end: nat)
    requires |text| < maxlen ==> end == |text|
    requires 0 < maxlen <= |text| ==> end == maxlen - 1
    requires s.log == [] && (buffer == null ==> s.chars == [])
    ensures Emit(Emit(s, 0, text, Bound(buffer, maxlen)), end, "\0", Bound(buffer, maxlen))
         == Sink(Terminated(s.chars, text, maxlen), Stores(|text|, Bound(buffer, maxlen)))
  {
    var bound := Bound(buffer, maxlen);
    var r := Emit(Emit(s, 0, text, bound), end, "\0", bound);
    assert Indices(0, |text|, bound) == seq(Min(|text|, bound), k => k);
    assert Indices(end, 1, bound) == if bound > 0 then [Min(|text|, bound - 1)] else [];
    assert r.chars == Terminated(s.chars, text, maxlen);
  }

  /** As much of the text as fits before the terminator, and nothing behind it changed. */
  lemma TerminatedIs(s: seq<char>, text: string, maxlen: nat)
    ensures maxlen == 0 ==> Terminated(s, text, maxlen) == s
    ensures maxlen > 0 ==>
              var n := if |text| < maxlen then |text| else maxlen - 1;
              n < |s| ==>
                var t := Terminated(s, text, maxlen);
                t[..n] == text[..n] && t[n] == '\0' && t[n + 1..] == s[n + 1..]
  {
  }

  lemma SmallSigned(n: nat)
    ensures n < 0x8000_0000 ==> Signed(n, U32) == n
  {
    if n < 0x8000_0000 {
      ModSmall(n, U32);
    }
  }

  // ----- Printing and reading back ---------------------------------------------------

  /** The number a text denotes, as `strtol` would read it. */
  ghost function Read(text: string, base: nat): int {
    if text != "" && text[0] == '-' then 0 - Positional(Reverse(text[1..]), base) else Positional(Reverse(text), base)
  }

  lemma IntValueFits(c: char, bits: nat, size: Size)
    ensures Abs(IntValue(c, bits, size)) < U64 && (IsSigned(c) || IntValue(c, bits, size) >= 0)
  {
  }

  lemma ReverseReverse(s: string)
    ensures Reverse(Reverse(s)) == s
  {
  }

  lemma {:induction false} NoMinus(value: nat, base: nat, upper: bool, room: nat)
    requires 2 <= base <= 36
    ensures '-' !in Digits(value, base, upper, room)
    decreases room
  {
    if room > 0 && Rest(value, base) != 0 {
      NoMinus(Rest(value, base), base, upper, room - 1);
    }
  }

  lemma ReadDigits(digits: string, negative: bool, base: nat)
    requires digits != "" && '-' !in digits
    ensures Read((if negative then "-" else "") + Reverse(digits), base)
         == if negative then 0 - Positional(digits, base) else Positional(digits, base)
  {
    hide Positional;
    hide Reverse;
    var back := Reverse(digits);
    ReverseReverse(digits);
    LastFirst(digits);
    if negative {
      assert ("-" + back)[1..] == back;
    } else {
      assert "" + back == back;
    }
  }

  lemma LastFirst(s: string)
    requires s != ""
    ensures Reverse(s)[0] in s
  {
    assert Reverse(s)[0] == s[|s| - 1];
  }

  /** A number without flags, width and precision is printed as sign and digits. */
  lemma PlainField(digits: string, negative: bool, base: nat, fl: Flags)
    requires fl == NO_FLAGS.(upper := fl.upper) && (|digits| < NTOA_BUFFER || (|digits| == NTOA_BUFFER && !negative))
    ensures Field(digits, negative, base, 0, 0, fl) == (if negative then "-" else "") + Reverse(digits)
  {
    FieldIs(digits, negative, base, 0, 0, fl);
  }

  /** Every plain integer conversion prints a text that reads back as the number; in base 2, its low 32 bits. */
  lemma PrintsBack(c: char, bits: nat, size: Size, i: nat)
    requires IsInt(c)
    ensures var v := IntValue(c, bits, size);
            Read(Converted(c, [Num(bits)], Spec(NO_FLAGS, 0, 0, size, i, 0)), Base(c))
            == if Base(c) == 2 then v % U32 else v
  {
    hide Digits;
    hide Field;
    hide Positional;
    hide Read;
    hide Pow;
    hide IntValue;
    var v, base := IntValue(c, bits, size), Base(c);
    var fl := IntFlags(c, NO_FLAGS);
    var digits := Digits(Abs(v), base, fl.upper, NTOA_BUFFER);
    IntValueFits(c, bits, size);
    SixtyFourBits(Abs(v), base, fl.upper);
    NoMinus(Abs(v), base, fl.upper, NTOA_BUFFER);
    if IsSigned(c) {
      DecimalDigits(Abs(v), fl.upper);
    }
    PlainField(digits, v < 0, base, fl);
    ReadDigits(digits, v < 0, base);
  }

  /** "%hhd" prints its argument as a `signed char` exactly if the low byte is below 128; the conversion goes through
      plain `char`, which has no sign here. */
  lemma CharIff(bits: nat)
    ensures IntValue('d', bits, Char) == Signed(bits, 0x100) <==> bits % 0x100 < 0x80
    ensures IntValue('d', 0xFFFF_FFFF, Char) == 255 && Signed(0xFFFF_FFFF, 0x100) == -1
  {
  }

  /** So the text reads back as the `signed char` exactly then. */
  lemma CharReadsBackIff(bits: nat, i: nat)
    ensures Read(Converted('d', [Num(bits)], Spec(NO_FLAGS, 0, 0, Char, i, 0)), 10) == Signed(bits, 0x100)
       <==> bits % 0x100 < 0x80
  {
    hide Read;
    hide Converted;
    PrintsBack('d', bits, Char, i);
    CharIff(bits);
  }

  // ----- The C functions -------------------------------------------------------------

  /** `_strnlen_s`. */
  method StrnlenS(str: CString, maxsize: nat) returns (n: nat)
    ensures n == Min(|str|, maxsize)
  {
    n := 0;
    var left := maxsize;
    while n < |str| && left > 0
      invariant n <= |str| && n + left == maxsize
    {
      left := left - 1;
      n := n + 1;
    }
  }

  /** The conversions 'd' 'i' 'u' 'x' 'X' 'o' 'b'. */
  method ConvertInt(c: char, bits: nat, buffer: array?<char>, idx: nat, maxlen: nat, s: Spec, ghost log: seq<nat>)
    returns (idx': nat, ghost log': seq<nat>)
    requires IsInt(c)
    requires Fits(buffer, maxlen, idx + |Converted(c, [Num(bits)], s.(a := 0))|)
    modifies buffer
    ensures idx' == idx + |Converted(c, [Num(bits)], s.(a := 0))|
    ensures Now(buffer, log')
         == Emit(old(Now(buffer, log)), idx, Converted(c, [Num(bits)], s.(a := 0)), Bound(buffer, maxlen))
  {
    hide IntField;
    hide Emit;
    hide Now;
    hide Base;
    hide IntFlags;
    hide IsSigned;
    hide IntValue;
    hide IsInt;
    var base, fl := SetBase(c, s.fl);
    fl := SetFlags(c, fl);
    IntFlagsIs(c, s.fl);
    var value := IntValue(c, bits, s.size);
    idx', log' := Ntoa(buffer, idx, maxlen, if value > 0 then value else 0 - value, value < 0, base, s.prec, s.width,
                       fl, log);
  }

  /** The base of an integer conversion; no '#' for decimal. */
  method SetBase(c: char, fl0: Flags) returns (base: nat, fl: Flags)
    ensures base == Base(c) && fl == fl0.(hash := fl0.hash && base != 10)
  {
    fl := fl0;
    if c == 'x' || c == 'X' {
      base := 16;
    } else if c == 'o' {
      base := 8;
    } else if c == 'b' {
      base := 2;
    } else {
      base := 10;
      fl := fl.(hash := false);
    }
  }

  /** The other flags of an integer conversion. */
  method SetFlags(c: char, fl0: Flags) returns (fl: Flags)
    ensures fl == fl0.(upper := fl0.upper || c == 'X', plus := fl0.plus && IsSigned(c),
                       space := fl0.space && IsSigned(c), zeropad := fl0.zeropad && !fl0.precision)
  {
    fl := fl0.(upper := fl0.upper || c == 'X');
    fl := fl.(plus := fl.plus && (c == 'i' || c == 'd'), space := fl.space && (c == 'i' || c == 'd'));
    fl := fl.(zeropad := fl.zeropad && !fl.precision);
  }

  lemma IntFlagsIs(c: char, fl: Flags)
    ensures IntFlags(c, fl)
         == fl.(hash := fl.hash && Base(c) != 10).(upper := fl.upper || c == 'X', plus := fl.plus && IsSigned(c),
                space := fl.space && IsSigned(c), zeropad := fl.zeropad && !fl.precision)
  {
  }

  /** The conversion 'c'. */
  method ConvertChar(bits: nat, buffer: array?<char>, idx: nat, maxlen: nat, s: Spec, ghost log: seq<nat>)
    returns (idx': nat, ghost log': seq<nat>)
    requires Fits(buffer, maxlen, idx + |Justified([(bits % 0x100) as char], 1, s)|)
    modifies buffer
    ensures idx' == idx + |Justified([(bits % 0x100) as char], 1, s)|
    ensures Now(buffer, log')
         == Emit(old(Now(buffer, log)), idx, Justified([(bits % 0x100) as char], 1, s), Bound(buffer, maxlen))
  {
    hide Emit;
    hide Now;
    hide Repeat;
    idx', log' := idx, log;
    var c := (bits % 0x100) as char;
    ghost var sink, bound, pad := Now(buffer, log), Bound(buffer, maxlen), Repeat(' ', s.width - 1);
    if !s.fl.left {
      idx', log' := OutRepeat(' ', s.width - 1, buffer, idx', maxlen, log');
      EmitConcat(sink, idx, pad, [c], bound);
    }
    log' := Out(c, buffer, idx', maxlen, log');
    idx' := idx' + 1;
    if s.fl.left {
      EmitConcat(sink, idx, [c], pad, bound);
      idx', log' := OutRepeat(' ', s.width - 1, buffer, idx', maxlen, log');
    }
  }

  /** The conversion 's'. */
  method ConvertString(p: CString, buffer: array?<char>, idx: nat, maxlen: nat, s: Spec, ghost log: seq<nat>)
    returns (idx': nat, ghost log': seq<nat>)
    requires Fits(buffer, maxlen, idx + |Justified(Shown(p, s), ShownLength(p, s), s)|)
    modifies buffer
    ensures idx' == idx + |Justified(Shown(p, s), ShownLength(p, s), s)|
    ensures Now(buffer, log')
         == Emit(old(Now(buffer, log)), idx, Justified(Shown(p, s), ShownLength(p, s), s), Bound(buffer, maxlen))
  {
    hide Emit;
    hide Now;
    hide Repeat;
    idx', log' := idx, log;
    var l := StrnlenS(p, if s.prec != 0 then s.prec else U64 - 1);
    l := l % U32;
    if s.fl.precision {
      l := if l < s.prec then l else s.prec;
    }
    ghost var sink, bound := Now(buffer, log), Bound(buffer, maxlen);
    ghost var pad, text := Repeat(' ', s.width - l), Shown(p, s);
    if !s.fl.left {
      idx', log' := OutRepeat(' ', s.width - l, buffer, idx', maxlen, log');
      EmitConcat(sink, idx, pad, text, bound);
    }
    idx', log' := OutString(Shown(p, s), buffer, idx', maxlen, log');
    if s.fl.left {
      EmitConcat(sink, idx, text, pad, bound);
      idx', log' := OutRepeat(' ', s.width - l, buffer, idx', maxlen, log');
    }
  }

  /** The switch over the specifier. */
  method Convert(c: char, args: seq<Arg>, buffer: array?<char>, idx: nat, maxlen: nat, s: Spec, ghost log: seq<nat>)
    returns (idx': nat, ghost log': seq<nat>)
    requires Convertible(c, args, s.a)
    requires Fits(buffer, maxlen, idx + |Converted(c, args, s)|)
    modifies buffer
    ensures idx' == idx + |Converted(c, args, s)|
    ensures Now(buffer, log')
         == Emit(old(Now(buffer, log)), idx, Converted(c, args, s), Bound(buffer, maxlen))
  {
    hide Emit;
    hide Now;
    hide IntField;
    hide Justified;
    hide Shown;
    hide ShownLength;
    if IsInt(c) {
      idx', log' := ConvertInt(c, args[s.a].bits, buffer, idx, maxlen, s, log);
    } else if c == 'c' {
      idx', log' := ConvertChar(args[s.a].bits, buffer, idx, maxlen, s, log);
    } else if c == 's' {
      idx', log' := ConvertString(args[s.a].text, buffer, idx, maxlen, s, log);
    } else if c == 'p' {
      var fl := s.fl.(zeropad := true, upper := true);
      idx', log' := Ntoa(buffer, idx, maxlen, args[s.a].bits % U64, false, 16, s.prec, 16, fl, log);
    } else {
      log' := Out(c, buffer, idx, maxlen, log);
      idx' := idx + 1;
    }
  }

  /** One step of the format: a character, or a directive. */
  lemma RenderStep(f: CString, i: nat, args: seq<Arg>, a: nat)
    requires i < |f| && Render(f, i, args, a).Some?
    ensures f[i] != '%' ==> Render(f, i + 1, args, a).Some?
                            && Render(f, i, args, a).value == [f[i]] + Render(f, i + 1, args, a).value
    ensures f[i] == '%' ==>
              DirectiveAt(f, args, i + 1, a).Some?
              && var s := DirectiveAt(f, args, i + 1, a).value;
                 s.i < |f| && Convertible(f[s.i], args, s.a)
                 && Render(f, s.i + 1, args, s.a + Used(f[s.i])).Some?
                 && Render(f, i, args, a).value
                   == Converted(f[s.i], args, s) + Render(f, s.i + 1, args, s.a + Used(f[s.i])).value
  {
    hide DirectiveAt;
    hide Convertible;
    hide Converted;
  }

  lemma RenderEnd(f: CString, args: seq<Arg>, a: nat)
    ensures Render(f, |f|, args, a) == Some("")
  {
  }

  /** `_vsnprintf` over `_out_buffer`, or over `_out_null` without a buffer. `log` lists the indices stored to. */
  method Vsnprintf(buffer: array?<char>, maxlen: nat, format: CString, args: seq<Arg>)
    returns (ret: int, ghost log: seq<nat>)
    requires maxlen < U64 && Render(format, 0, args, 0).Some?
    requires Fits(buffer, maxlen, |Render(format, 0, args, 0).value| + 1)
    modifies buffer
    ensures ret == Signed(|Render(format, 0, args, 0).value|, U32)
    ensures buffer != null ==> buffer[..] == Terminated(old(buffer[..]), Render(format, 0, args, 0).value, maxlen)
    ensures log == Stores(|Render(format, 0, args, 0).value|, Bound(buffer, maxlen))
    ensures |Render(format, 0, args, 0).value| < 0x8000_0000 ==> ret == |Render(format, 0, args, 0).value|
    ensures buffer != null && maxlen > 0 ==>
              var text := Render(format, 0, args, 0).value;
              var n := if |text| < maxlen then |text| else maxlen - 1;
              && n < buffer.Length && buffer[..][..n] == text[..n] && buffer[..][n] == '\0'
              && buffer[..][n + 1..] == old(buffer[..])[n + 1..]
    ensures buffer != null && maxlen == 0 ==> buffer[..] == old(buffer[..])
  {
    hide Emit;
    hide DirectiveAt;
    hide Convertible;
    hide Converted;
    hide Render;
    hide Terminated;
    hide Stores;
    hide Used;
    hide Signed;
    log := [];
    var idx: nat, i: nat, a: nat := 0, 0, 0;
    ghost var sink, bound := Now(buffer, []), Bound(buffer, maxlen);
    ghost var text, done := Render(format, 0, args, 0).value, "";
    EmitNothing(sink, 0, bound);
    while i < |format|
      invariant i <= |format| && idx == |done|
      invariant Render(format, i, args, a).Some? && done + Render(format, i, args, a).value == text
      invariant Now(buffer, log) == Emit(sink, 0, done, bound)
    {
      RenderStep(format, i, args, a);
      if format[i] != '%' {
        EmitConcat(sink, 0, done, [format[i]], bound);
        log := Out(format[i], buffer, idx, maxlen, log);
        done := done + [format[i]];
        idx := idx + 1;
        i := i + 1;
      } else {
        var s := Directive(format, args, i + 1, a);
        ghost var piece := Converted(format[s.i], args, s);
        EmitConcat(sink, 0, done, piece, bound);
        idx, log := Convert(format[s.i], args, buffer, idx, maxlen, s, log);
        done := done + piece;
        i := s.i + 1;
        a := s.a + Used(format[s.i]);
      }
    }
    RenderEnd(format, args, a);
    assert done == text;
    var end: nat := if idx < maxlen then idx else (maxlen - 1) % U64;
    TerminatedEmit(buffer, sink, text, maxlen, end);
    log := Out('\0', buffer, end, maxlen, log);
    ret := Signed(idx, U32);
    TerminatedIs(sink.chars, text, maxlen);
    SmallSigned(idx);
  }
}
