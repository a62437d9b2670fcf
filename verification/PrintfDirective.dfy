/** Directives of a format: from the '%' to the specifier (`_vsnprintf` of `printf.c`), on RV64. */
module PrintfDirective {
  import opened Common
  import opened PrintfNtoa
  import opened PrintfRead

  /** A C string without its terminator. */
  type CString = s: string | '\0' !in s

  /** A variadic argument: the 64 bits of an argument register, or a string. */
  datatype Arg = Num(bits: nat) | Str(text: CString)

  /** The length field: nothing, "hh", "h", "l" and "ll". */
  datatype Size = Int | Char | Short | Long | LongLong

  /** A directive read as far as index `i` of the format and argument `a`. */
  datatype Spec = Spec(fl: Flags, width: nat, prec: nat, size: Size, i: nat, a: nat)

  /** The character at `i`, the terminator beyond the end. */
  function At(f: CString, i: nat): (c: char)
    ensures c != '\0' ==> i < |f|
  {
    if i < |f| then f[i] else '\0'
  }

  /** The two's complement reading of the low bits. */
  function Signed(bits: nat, modulus: nat): int
    requires modulus > 0
  {
    if bits % modulus < modulus / 2 then bits % modulus else bits % modulus - modulus
  }

  function Abs(n: int): nat { if n < 0 then -n else n }

  predicate HasNum(args: seq<Arg>, a: nat) { a < |args| && args[a].Num? }

  // ----- What the code reads ---------------------------------------------------------

  function FlagsAt(f: CString, s: Spec): (r: Spec)
    requires s.i <= |f|
    ensures s.i <= r.i <= |f|
    decreases |f| - s.i
  {
    match At(f, s.i)
    case '0' => FlagsAt(f, s.(fl := s.fl.(zeropad := true), i := s.i + 1))
    case '-' => FlagsAt(f, s.(fl := s.fl.(left := true), i := s.i + 1))
    case '+' => FlagsAt(f, s.(fl := s.fl.(plus := true), i := s.i + 1))
    case ' ' => FlagsAt(f, s.(fl := s.fl.(space := true), i := s.i + 1))
    case '#' => FlagsAt(f, s.(fl := s.fl.(hash := true), i := s.i + 1))
    case _ => s
  }

  /** `*` takes an `int` argument; a negative one is the flag '-' and a width. */
  function WidthAt(f: CString, args: seq<Arg>, s: Spec): (r: Option<Spec>)
    requires s.i <= |f|
    ensures r.Some? ==> s.i <= r.value.i <= |f|
  {
    if IsDigit(At(f, s.i)) then Some(s.(width := AtoiAt(f, s.i), i := DigitsEnd(f, s.i)))
    else if At(f, s.i) == '*' then
      if HasNum(args, s.a) then
        var w := Signed(args[s.a].bits, U32);
        Some(s.(fl := if w < 0 then s.fl.(left := true) else s.fl, width := Abs(w), i := s.i + 1, a := s.a + 1))
      else None
    else Some(s)
  }

  /** A negative `*` precision counts as zero. */
  function PrecisionAt(f: CString, args: seq<Arg>, s: Spec): (r: Option<Spec>)
    requires s.i <= |f|
    ensures r.Some? ==> s.i <= r.value.i <= |f|
  {
    if At(f, s.i) != '.' then Some(s)
    else
      var t := s.(fl := s.fl.(precision := true), i := s.i + 1);
      if IsDigit(At(f, t.i)) then Some(t.(prec := AtoiAt(f, t.i), i := DigitsEnd(f, t.i)))
      else if At(f, t.i) == '*' then
        if HasNum(args, t.a) then
          Some(t.(prec := Max(Signed(args[t.a].bits, U32), 0), i := t.i + 1, a := t.a + 1))
        else None
      else Some(t)
  }

  function LengthAt(f: CString, s: Spec): (r: Spec)
    requires s.i <= |f|
    ensures s.i <= r.i <= |f|
  {
    match At(f, s.i)
    case 'l' => if At(f, s.i + 1) == 'l' then s.(size := LongLong, i := s.i + 2) else s.(size := Long, i := s.i + 1)
    case 'h' => if At(f, s.i + 1) == 'h' then s.(size := Char, i := s.i + 2) else s.(size := Short, i := s.i + 1)
    case 't' => s.(size := Long, i := s.i + 1)
    case 'j' => s.(size := Long, i := s.i + 1)
    case 'z' => s.(size := Long, i := s.i + 1)
    case _ => s
  }

  /** The directive whose '%' stands before index `i`, up to its specifier. */
  function DirectiveAt(f: CString, args: seq<Arg>, i: nat, a: nat): (r: Option<Spec>)
    requires i <= |f|
    ensures r.Some? ==> i <= r.value.i <= |f|
  {
    match WidthAt(f, args, FlagsAt(f, Spec(NO_FLAGS, 0, 0, Int, i, a)))
    case None => None
    case Some(s) =>
      match PrecisionAt(f, args, s)
      case None => None
      case Some(t) => Some(LengthAt(f, t))
  }

  // ----- What a directive says -------------------------------------------------------

  predicate IsFlag(c: char) { c == '0' || c == '-' || c == '+' || c == ' ' || c == '#' }

  /** Width or precision: none, digits, or '*'. */
  datatype Amount = Absent | Given(text: string) | Star {
    function Text(): string { match this case Absent => "" case Given(t) => t case Star => "*" }

    function Args(): nat { if Star? then 1 else 0 }
  }

  const LENGTHS: map<string, Size> :=
    map["" := Int, "hh" := Char, "h" := Short, "l" := Long, "ll" := LongLong, "t" := Long, "j" := Long, "z" := Long]

  /** A specifier: nothing that could belong to a field before it. */
  predicate IsSpecifier(c: char) {
    !IsFlag(c) && !IsDigit(c) && c != '*' && c != '.' && c != 'l' && c != 'h' && c != 't' && c != 'j' && c != 'z'
      && c != '\0'
  }

  /** A directive as it is written after the '%': flags in any order and number, width, precision, length, specifier. */
  datatype Form = Form(flags: string, width: Amount, prec: Amount, length: string, c: char) {
    predicate Valid() {
      && (forall k :: 0 <= k < |flags| ==> IsFlag(flags[k]))
      && (width.Given? ==> width.text != "" && AllDigits(width.text) && width.text[0] != '0')
      && (prec.Given? ==> AllDigits(prec.text))
      && length in LENGTHS && IsSpecifier(c)
    }

    function PrecText(): string { if prec.Absent? then "" else "." + prec.Text() }

    function Text(): string { flags + (width.Text() + (PrecText() + (length + [c]))) }
  }

  /** The flags that occur, added to those there are. */
  function WithFlags(fl: Flags, run: string): Flags {
    fl.(zeropad := fl.zeropad || '0' in run, left := fl.left || '-' in run, plus := fl.plus || '+' in run,
        space := fl.space || ' ' in run, hash := fl.hash || '#' in run)
  }

  /** The number an amount stands for; `a` is the argument a '*' takes. */
  function Number(m: Amount, args: seq<Arg>, a: nat): int
    requires m.Star? ==> HasNum(args, a)
  {
    match m
    case Absent => 0
    case Given(t) => Decimal(t) % U32
    case Star => Signed(args[a].bits, U32)
  }

  /** What a directive means, whatever stands around it: exactly the flags that occur, with '-' for a negative '*'
    * width; the width; the precision, not below zero; the size; and one argument for each '*'. None without those
    * arguments. */
  function Meaning(form: Form, args: seq<Arg>, i: nat, a: nat): Option<Spec>
    requires form.Valid()
  {
    var b := a + form.width.Args();
    if (form.width.Star? && !HasNum(args, a)) || (form.prec.Star? && !HasNum(args, b)) then None
    else
      var w := Number(form.width, args, a);
      var fl := WithFlags(NO_FLAGS, form.flags);
      Some(Spec(fl.(left := fl.left || w < 0, precision := !form.prec.Absent?), Abs(w),
                Max(Number(form.prec, args, b), 0), LENGTHS[form.length], i + |form.Text()| - 1, b + form.prec.Args()))
  }

  /** `t` stands in `f` at index `i`. */
  predicate Has(f: string, i: nat, t: string) { i + |t| <= |f| && f[i..i + |t|] == t }

  lemma HasConcat(f: string, i: nat, t: string, u: string)
    requires Has(f, i, t + u)
    ensures Has(f, i, t) && Has(f, i + |t|, u)
  {
    assert f[i..i + |t|] == f[i..i + |t + u|][..|t|];
    assert f[i + |t|..i + |t| + |u|] == f[i..i + |t + u|][|t|..];
  }

  lemma HasFirst(f: CString, i: nat, t: string)
    requires Has(f, i, t) && t != ""
    ensures At(f, i) == t[0]
  {
    assert f[i] == f[i..i + |t|][0];
  }

  // ----- The fields, one by one ------------------------------------------------------

  /** A run of flags, whatever their order and number, sets exactly the flags that occur in it. */
  lemma {:induction false} FlagsRead(f: CString, s: Spec, run: string)
    requires Has(f, s.i, run) && (forall k :: 0 <= k < |run| ==> IsFlag(run[k])) && !IsFlag(At(f, s.i + |run|))
    ensures FlagsAt(f, s) == s.(fl := WithFlags(s.fl, run), i := s.i + |run|)
    decreases |run|
  {
    if run == "" {
    } else {
      var t := s.(fl := WithFlags(s.fl, [run[0]]), i := s.i + 1);
      assert run == [run[0]] + run[1..];
      HasFirst(f, s.i, run);
      HasConcat(f, s.i, [run[0]], run[1..]);
      FlagsRead(f, t, run[1..]);
      WithFlagsTwice(s.fl, run[0], run[1..]);
      FlagStep(f, s, run[0]);
    }
  }

  lemma FlagStep(f: CString, s: Spec, c: char)
    requires s.i < |f| && At(f, s.i) == c && IsFlag(c)
    ensures FlagsAt(f, s) == FlagsAt(f, s.(fl := WithFlags(s.fl, [c]), i := s.i + 1))
  {
  }

  lemma WithFlagsTwice(fl: Flags, c: char, run: string)
    ensures WithFlags(WithFlags(fl, [c]), run) == WithFlags(fl, [c] + run)
  {
  }

  /** Digits that go no further are read as their number. */
  lemma DigitsHere(f: CString, i: nat, t: string)
    requires Has(f, i, t) && AllDigits(t) && !IsDigit(At(f, i + |t|))
    ensures AtoiAt(f, i) == Decimal(t) % U32 && DigitsEnd(f, i) == i + |t|
  {
    hide Decimal;
    hide IsDigit;
    forall k | i <= k < i + |t| ensures IsDigit(f[k]) {
      assert f[k] == f[i..i + |t|][k - i];
    }
    DigitsEndUnique(f, i, i + |t|);
  }

  lemma WidthRead(f: CString, args: seq<Arg>, s: Spec, m: Amount)
    requires Has(f, s.i, m.Text()) && !IsDigit(At(f, s.i + |m.Text()|))
    requires m.Absent? ==> At(f, s.i) != '*'
    requires m.Given? ==> m.text != "" && AllDigits(m.text)
    requires s.width == 0
    ensures m.Star? && !HasNum(args, s.a) ==> WidthAt(f, args, s) == None
    ensures m.Star? ==> HasNum(args, s.a) ==>
              var w := Number(m, args, s.a);
              WidthAt(f, args, s)
              == Some(s.(fl := s.fl.(left := s.fl.left || w < 0), width := Abs(w), i := s.i + 1, a := s.a + 1))
    ensures !m.Star? ==>
              WidthAt(f, args, s) == Some(s.(width := Number(m, args, s.a), i := s.i + |m.Text()|))
  {
    hide AtoiAt;
    hide DigitsEnd;
    hide Decimal;
    match m {
      case Absent =>
      case Given(t) =>
        HasFirst(f, s.i, t);
        DigitsHere(f, s.i, t);
      case Star => HasFirst(f, s.i, "*");
    }
  }

  lemma PrecisionRead(f: CString, args: seq<Arg>, s: Spec, m: Amount)
    requires Has(f, s.i, if m.Absent? then "" else "." + m.Text())
    requires m.Absent? ==> At(f, s.i) != '.'
    requires !m.Absent? ==> !IsDigit(At(f, s.i + 1 + |m.Text()|)) && At(f, s.i + 1 + |m.Text()|) != '*'
    requires m.Given? ==> AllDigits(m.text)
    requires s.prec == 0
    ensures m.Absent? ==> PrecisionAt(f, args, s) == Some(s)
    ensures m.Star? && !HasNum(args, s.a) ==> PrecisionAt(f, args, s) == None
    ensures !m.Absent? && (m.Star? ==> HasNum(args, s.a)) ==>
              PrecisionAt(f, args, s)
              == Some(s.(fl := s.fl.(precision := true), prec := Max(Number(m, args, s.a), 0),
                         i := s.i + 1 + |m.Text()|, a := s.a + m.Args()))
  {
    hide AtoiAt;
    hide DigitsEnd;
    hide Decimal;
    hide Has;
    hide At;
    hide AllDigits;
    hide IsDigit;
    HasInside(f, s.i, if m.Absent? then "" else "." + m.Text());
    if !m.Absent? {
      HasConcat(f, s.i, ".", m.Text());
      HasFirst(f, s.i, ".");
      match m {
        case Given(t) =>
          DigitsHere(f, s.i + 1, t);
          NumberHere(f, s.i + 1, t);
        case Star =>
          HasFirst(f, s.i + 1, "*");
          StarIsNoDigit();
      }
    }
  }

  lemma StarIsNoDigit()
    ensures !IsDigit('*')
  {
  }

  /** Without digits `_atoi` is not called, and the number is zero. */
  lemma NumberHere(f: CString, i: nat, t: string)
    requires Has(f, i, t) && AllDigits(t) && !IsDigit(At(f, i + |t|))
    ensures t == "" ==> !IsDigit(At(f, i)) && Decimal(t) % U32 == 0
    ensures t != "" ==> IsDigit(At(f, i))
  {
    if t != "" {
      HasFirst(f, i, t);
    }
  }

  lemma LengthRead(f: CString, s: Spec, length: string)
    requires length in LENGTHS && s.size == Int
    requires Has(f, s.i, length) && IsSpecifier(At(f, s.i + |length|))
    ensures LengthAt(f, s) == s.(size := LENGTHS[length], i := s.i + |length|)
  {
    if length != "" {
      HasFirst(f, s.i, length);
      if |length| == 2 {
        HasConcat(f, s.i, [length[0]], [length[1]]);
        assert length == [length[0]] + [length[1]];
        HasFirst(f, s.i + 1, [length[1]]);
      }
    }
  }

  // ----- The whole directive ---------------------------------------------------------

  /** Where the specifier or a length field begins, neither a precision nor a width nor a flag does. */
  lemma AfterPrecision(f: CString, i: nat, length: string, c: char)
    requires length in LENGTHS && IsSpecifier(c) && Has(f, i, length + [c])
    ensures Has(f, i, length) && At(f, i + |length|) == c && Has(f, i + |length|, [c])
    ensures !IsFlag(At(f, i)) && !IsDigit(At(f, i)) && At(f, i) != '*' && At(f, i) != '.'
  {
    HasConcat(f, i, length, [c]);
    HasFirst(f, i + |length|, [c]);
    HasFirst(f, i, length + [c]);
  }

  /** Where a precision may begin, neither a width nor a flag does. */
  lemma AfterWidth(f: CString, i: nat, form: Form)
    requires form.Valid() && Has(f, i, form.PrecText() + (form.length + [form.c]))
    ensures Has(f, i, form.PrecText()) && Has(f, i + |form.PrecText()|, form.length + [form.c])
    ensures !IsFlag(At(f, i)) && !IsDigit(At(f, i)) && At(f, i) != '*'
    ensures form.prec.Absent? ==> At(f, i) != '.'
  {
    hide IsSpecifier;
    HasConcat(f, i, form.PrecText(), form.length + [form.c]);
    AfterPrecision(f, i + |form.PrecText()|, form.length, form.c);
    if !form.prec.Absent? {
      HasFirst(f, i, form.PrecText());
    }
  }

  /** Where a width may begin, no flag does. */
  lemma AfterFlags(f: CString, i: nat, form: Form)
    requires form.Valid() && Has(f, i, form.width.Text() + (form.PrecText() + (form.length + [form.c])))
    ensures Has(f, i, form.width.Text()) && Has(f, i + |form.width.Text()|, form.PrecText() + (form.length + [form.c]))
    ensures !IsFlag(At(f, i)) && (form.width.Absent? ==> At(f, i) != '*')
  {
    hide IsSpecifier;
    HasConcat(f, i, form.width.Text(), form.PrecText() + (form.length + [form.c]));
    AfterWidth(f, i + |form.width.Text()|, form);
    if !form.width.Absent? {
      HasFirst(f, i, form.width.Text());
    }
  }

  /** Wherever a directive stands, it is read as what it means. */
  lemma DirectiveReads(f: CString, args: seq<Arg>, form: Form, i: nat, a: nat)
    requires form.Valid() && Has(f, i, form.Text())
    ensures DirectiveAt(f, args, i, a) == Meaning(form, args, i, a)
  {
    hide Has;
    hide At;
    hide IsFlag;
    hide IsDigit;
    hide IsSpecifier;
    hide AllDigits;
    hide FlagsAt;
    hide WidthAt;
    hide PrecisionAt;
    hide LengthAt;
    hide WithFlags;
    hide Number;
    HasInside(f, i, form.Text());
    HasConcat(f, i, form.flags, form.width.Text() + (form.PrecText() + (form.length + [form.c])));
    var i1 := i + |form.flags|;
    AfterFlags(f, i1, form);
    FlagsRead(f, Spec(NO_FLAGS, 0, 0, Int, i, a), form.flags);
    NoPrecisionYet(form.flags);
    FieldsRead(f, args, form, Spec(WithFlags(NO_FLAGS, form.flags), 0, 0, Int, i1, a));
  }

  /** What the precision and the length add. */
  function Completed(form: Form, args: seq<Arg>, t: Spec): Option<Spec>
    requires form.Valid()
  {
    if form.prec.Star? && !HasNum(args, t.a) then None
    else Some(Spec(t.fl.(precision := !form.prec.Absent?), t.width, Max(Number(form.prec, args, t.a), 0),
                   LENGTHS[form.length], t.i + |form.PrecText()| + |form.length|, t.a + form.prec.Args()))
  }

  /** The fields after the flags, one after another. */
  function FieldsAt(f: CString, args: seq<Arg>, s: Spec): Option<Spec>
    requires s.i <= |f|
  {
    match WidthAt(f, args, s)
    case None => None
    case Some(t) =>
      match PrecisionAt(f, args, t)
      case None => None
      case Some(u) => Some(LengthAt(f, u))
  }

  lemma FieldsRead(f: CString, args: seq<Arg>, form: Form, s: Spec)
    requires form.Valid() && s.i <= |f| && s.width == 0 && s.prec == 0 && s.size == Int && !s.fl.precision
    requires Has(f, s.i, form.width.Text()) && (form.width.Absent? ==> At(f, s.i) != '*')
    requires Has(f, s.i + |form.width.Text()|, form.PrecText() + (form.length + [form.c]))
    ensures FieldsAt(f, args, s)
         == if form.width.Star? && !HasNum(args, s.a) then None
            else Completed(form, args, AfterWidthSpec(form.width, args, s))
  {
    hide Has;
    hide At;
    hide IsFlag;
    hide IsDigit;
    hide IsSpecifier;
    hide AllDigits;
    hide WidthAt;
    hide PrecisionAt;
    hide LengthAt;
    hide Number;
    hide Form.PrecText;
    hide Amount.Text;
    hide Amount.Args;
    hide Completed;
    var i2 := s.i + |form.width.Text()|;
    AfterWidth(f, i2, form);
    var i3 := i2 + |form.PrecText()|;
    AfterPrecision(f, i3, form.length, form.c);
    WidthPart(f, args, form.width, s);
    if !(form.width.Star? && !HasNum(args, s.a)) {
      HasInside(f, i3 + |form.length|, [form.c]);
      PrecisionThenLength(f, args, form, AfterWidthSpec(form.width, args, s), i3);
    }
  }

  /** What has been read after the width. */
  function AfterWidthSpec(m: Amount, args: seq<Arg>, s: Spec): Spec
    requires m.Star? ==> HasNum(args, s.a)
  {
    var w := Number(m, args, s.a);
    Spec(s.fl.(left := s.fl.left || w < 0), Abs(w), 0, Int, s.i + |m.Text()|, s.a + m.Args())
  }

  lemma WidthPart(f: CString, args: seq<Arg>, m: Amount, s: Spec)
    requires Has(f, s.i, m.Text()) && !IsDigit(At(f, s.i + |m.Text()|))
    requires m.Absent? ==> At(f, s.i) != '*'
    requires m.Given? ==> m.text != "" && AllDigits(m.text)
    requires s.width == 0 && s.prec == 0 && s.size == Int
    ensures m.Star? && !HasNum(args, s.a) ==> WidthAt(f, args, s) == None
    ensures !(m.Star? && !HasNum(args, s.a)) ==> WidthAt(f, args, s) == Some(AfterWidthSpec(m, args, s))
  {
    hide WidthAt;
    hide Has;
    hide At;
    hide IsDigit;
    hide AllDigits;
    hide Number;
    WidthRead(f, args, s, m);
    if !(m.Star? && !HasNum(args, s.a)) {
      WidthNumber(m, args, s.a);
    }
  }

  lemma HasInside(f: string, i: nat, t: string)
    requires Has(f, i, t)
    ensures i + |t| <= |f|
  {
  }

  lemma WidthNumber(m: Amount, args: seq<Arg>, a: nat)
    requires m.Star? ==> HasNum(args, a)
    ensures !m.Star? ==> Number(m, args, a) >= 0
  {
  }

  lemma NoPrecisionYet(run: string)
    ensures !WithFlags(NO_FLAGS, run).precision
  {
  }

  lemma PrecisionThenLength(f: CString, args: seq<Arg>, form: Form, s: Spec, i3: nat)
    requires form.Valid() && i3 + |form.length| < |f| && i3 == s.i + |form.PrecText()|
    requires Has(f, s.i, form.PrecText()) && (form.prec.Absent? ==> At(f, s.i) != '.')
    requires !IsDigit(At(f, i3)) && At(f, i3) != '*'
    requires Has(f, i3, form.length) && At(f, i3 + |form.length|) == form.c
    requires s.prec == 0 && s.size == Int && !s.fl.precision
    ensures (match PrecisionAt(f, args, s) case None => None case Some(u) => Some(LengthAt(f, u)))
         == Completed(form, args, s)
  {
    hide Has;
    hide At;
    hide IsFlag;
    hide IsDigit;
    hide IsSpecifier;
    hide AllDigits;
    hide PrecisionAt;
    hide LengthAt;
    PrecisionRead(f, args, s, form.prec);
    if !(form.prec.Star? && !HasNum(args, s.a)) {
      LengthRead(f, PrecisionAt(f, args, s).value, form.length);
    }
  }

  /** A positive 32-bit number, as it is printed, is a width and is read as that number. */
  lemma PrintedNumber(v: nat, upper: bool)
    requires 0 < v < U32
    ensures var t := Reverse(Digits(v, 10, upper, NTOA_BUFFER));
            t != "" && AllDigits(t) && t[0] != '0' && Decimal(t) % U32 == v
  {
    hide Digits;
    hide Decimal;
    TextIsDigits(v, upper);
    DecimalIs(v, upper);
    TopDigit(v, upper);
  }

  // ----- The C code ------------------------------------------------------------------

  /** From the '%' to the specifier. Whatever directive stands there is read as what it means. */
  method Directive(f: CString, args: seq<Arg>, i: nat, a: nat) returns (s: Spec)
    requires i <= |f| && DirectiveAt(f, args, i, a).Some?
    ensures s == DirectiveAt(f, args, i, a).value
    ensures forall form: Form | form.Valid() && Has(f, i, form.Text()) :: Meaning(form, args, i, a) == Some(s)
  {
    hide FlagsAt;
    hide WidthAt;
    hide PrecisionAt;
    hide LengthAt;
    hide Meaning;
    hide Has;
    s := Spec(NO_FLAGS, 0, 0, Int, i, a);
    s := EvalFlags(f, s);
    s := EvalWidth(f, args, s);
    s := EvalPrecision(f, args, s);
    s := EvalLength(f, s);
    forall form: Form | form.Valid() && Has(f, i, form.Text()) ensures Meaning(form, args, i, a) == Some(s) {
      DirectiveReads(f, args, form, i, a);
    }
  }

  /** The loop over the flags: it takes the longest run of flag characters and sets exactly the flags in it. */
  method EvalFlags(f: CString, s0: Spec) returns (s: Spec)
    requires s0.i <= |f|
    ensures s0.i <= s.i <= |f| && (forall k :: s0.i <= k < s.i ==> IsFlag(f[k])) && !IsFlag(At(f, s.i))
    ensures s == s0.(fl := WithFlags(s0.fl, f[s0.i..s.i]), i := s.i)
    ensures s == FlagsAt(f, s0)
  {
    hide WithFlags;
    hide FlagsAt;
    s := s0;
    var n := true;
    NoFlags(f, s0);
    while n
      invariant s0.i <= s.i <= |f| && forall k :: s0.i <= k < s.i ==> IsFlag(f[k])
      invariant s == s0.(fl := WithFlags(s0.fl, f[s0.i..s.i]), i := s.i)
      invariant !n ==> !IsFlag(At(f, s.i))
      decreases |f| - s.i, n
    {
      ghost var was := s;
      match At(f, s.i) {
        case '0' => s := s.(fl := s.fl.(zeropad := true), i := s.i + 1);
        case '-' => s := s.(fl := s.fl.(left := true), i := s.i + 1);
        case '+' => s := s.(fl := s.fl.(plus := true), i := s.i + 1);
        case ' ' => s := s.(fl := s.fl.(space := true), i := s.i + 1);
        case '#' => s := s.(fl := s.fl.(hash := true), i := s.i + 1);
        case _ => n := false;
      }
      if n {
        OneFlag(was.fl, f[was.i]);
        FlagAppended(s0.fl, f, s0.i, was.i);
      }
    }
    FlagsRead(f, s0, f[s0.i..s.i]);
  }

  lemma NoFlags(f: CString, s: Spec)
    requires s.i <= |f|
    ensures s == s.(fl := WithFlags(s.fl, f[s.i..s.i]))
  {
  }

  lemma OneFlag(fl: Flags, c: char)
    ensures WithFlags(fl, [c]) == match c
                                  case '0' => fl.(zeropad := true)
                                  case '-' => fl.(left := true)
                                  case '+' => fl.(plus := true)
                                  case ' ' => fl.(space := true)
                                  case '#' => fl.(hash := true)
                                  case _ => fl
  {
  }

  lemma FlagAppended(fl: Flags, f: string, i: nat, j: nat)
    requires i <= j < |f|
    ensures WithFlags(WithFlags(fl, f[i..j]), [f[j]]) == WithFlags(fl, f[i..j + 1])
  {
    assert f[i..j + 1] == f[i..j] + [f[j]];
  }

  method EvalWidth(f: CString, args: seq<Arg>, s0: Spec) returns (s: Spec)
    requires s0.i <= |f| && WidthAt(f, args, s0).Some?
    ensures s == WidthAt(f, args, s0).value
  {
    s := s0;
    if IsDigit(At(f, s.i)) {
      var width, i := Atoi(f, s.i);
      s := s.(width := width, i := i);
    } else if At(f, s.i) == '*' {
      var w := Signed(args[s.a].bits, U32);
      if w < 0 {
        s := s.(fl := s.fl.(left := true), width := -w);
      } else {
        s := s.(width := w);
      }
      s := s.(i := s.i + 1, a := s.a + 1);
    }
  }

  method EvalPrecision(f: CString, args: seq<Arg>, s0: Spec) returns (s: Spec)
    requires s0.i <= |f| && PrecisionAt(f, args, s0).Some?
    ensures s == PrecisionAt(f, args, s0).value
  {
    s := s0;
    if At(f, s.i) == '.' {
      s := s.(fl := s.fl.(precision := true), i := s.i + 1);
      if IsDigit(At(f, s.i)) {
        var prec, i := Atoi(f, s.i);
        s := s.(prec := prec, i := i);
      } else if At(f, s.i) == '*' {
        var prec := Signed(args[s.a].bits, U32);
        s := s.(prec := if prec > 0 then prec else 0, i := s.i + 1, a := s.a + 1);
      }
    }
  }

  method EvalLength(f: CString, s0: Spec) returns (s: Spec)
    requires s0.i <= |f|
    ensures s == LengthAt(f, s0)
  {
    s := s0;
    match At(f, s.i) {
      case 'l' =>
        s := s.(size := Long, i := s.i + 1);
        if At(f, s.i) == 'l' {
          s := s.(size := LongLong, i := s.i + 1);
        }
      case 'h' =>
        s := s.(size := Short, i := s.i + 1);
        if At(f, s.i) == 'h' {
          s := s.(size := Char, i := s.i + 1);
        }
      case 't' => s := s.(size := Long, i := s.i + 1);
      case 'j' => s := s.(size := Long, i := s.i + 1);
      case 'z' => s := s.(size := Long, i := s.i + 1);
      case _ =>
    }
  }
}
