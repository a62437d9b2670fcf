/** What the output of the format loop says, in terms of the arguments alone (`_vsnprintf` of `printf.c`). */
module PrintfText {
  import opened Arith
  import opened Common
  import opened Printf
  import opened PrintfDirective
  import opened PrintfNtoa
  import opened PrintfOut
  import opened PrintfRead

  // ----- Numbers ---------------------------------------------------------------------

  /** What reading a text is: a digit more shifts the number by a place, and a sign negates it. */
  lemma ReadIs(t: string, c: char, base: nat)
    requires '-' !in t && c != '-'
    ensures Read("", base) == 0
    ensures Read(t + [c], base)
         == base * Read(t, base) + if '0' <= c <= '9' then (c - '0') as nat
                                   else if 'a' <= c <= 'z' then 10 + (c - 'a') as nat
                                   else if 'A' <= c <= 'Z' then 10 + (c - 'A') as nat else 0
    ensures Read("-" + t, base) == -Read(t, base)
  {
    hide Positional;
    PositionalNone(base);
    assert Reverse("") == "";
    assert Reverse(t + [c]) == [c] + Reverse(t);
    PositionalStep(c, Reverse(t), base);
    assert ("-" + t)[1..] == t;
    assert (t + [c])[0] != '-';
    assert t != "" ==> t[0] in t;
  }

  /** The argument register holds a value of the size, whatever its upper bits. */
  predicate Holds(bits: nat, size: Size, v: int) {
    match size
    case Char => bits % 0x100 == v % 0x100
    case Short => bits % 0x1_0000 == v % 0x1_0000
    case Int => bits % 0x1_0000_0000 == v % 0x1_0000_0000
    case Long => bits % 0x1_0000_0000_0000_0000 == v % 0x1_0000_0000_0000_0000
    case LongLong => bits % 0x1_0000_0000_0000_0000 == v % 0x1_0000_0000_0000_0000
  }

  /** The values of the signed C types; of `signed char` only those that are not negative, see `CharIff`. */
  predicate SignedRange(size: Size, v: int) {
    match size
    case Char => 0 <= v < 0x80
    case Short => -0x8000 <= v < 0x8000
    case Int => -0x8000_0000 <= v < 0x8000_0000
    case Long => -0x8000_0000_0000_0000 <= v < 0x8000_0000_0000_0000
    case LongLong => -0x8000_0000_0000_0000 <= v < 0x8000_0000_0000_0000
  }

  predicate UnsignedRange(size: Size, v: int) {
    match size
    case Char => 0 <= v < 0x100
    case Short => 0 <= v < 0x1_0000
    case Int => 0 <= v < 0x1_0000_0000
    case Long => 0 <= v < 0x1_0000_0000_0000_0000
    case LongLong => 0 <= v < 0x1_0000_0000_0000_0000
  }

  /** Every number of a signed type is printed as a text that reads back as it. */
  lemma SignedReadsBack(c: char, v: int, bits: nat, size: Size, i: nat)
    requires (c == 'd' || c == 'i') && SignedRange(size, v) && Holds(bits, size, v)
    ensures Read(Converted(c, [Num(bits)], Spec(NO_FLAGS, 0, 0, size, i, 0)), 10) == v
  {
    hide Read;
    hide Converted;
    PrintsBack(c, bits, size, i);
  }

  /** Every number of an unsigned type is printed as a text that reads back as it; in base 2, exactly below 2^32. */
  lemma UnsignedReadsBack(c: char, v: nat, bits: nat, size: Size, i: nat)
    requires c == 'u' || c == 'x' || c == 'X' || c == 'o' || c == 'b'
    requires UnsignedRange(size, v) && Holds(bits, size, v)
    ensures var base := if c == 'u' then 10 else if c == 'o' then 8 else if c == 'b' then 2 else 16;
            Read(Converted(c, [Num(bits)], Spec(NO_FLAGS, 0, 0, size, i, 0)), base) == v
            <==> c != 'b' || v < 0x1_0000_0000
  {
    hide Read;
    hide Converted;
    PrintsBack(c, bits, size, i);
    ModSmall(v, U32);
  }

  /** The digits of bases up to 16, in capitals if asked. */
  lemma DigitsAre(value: nat, base: nat, upper: bool, room: nat)
    requires 2 <= base <= 16
    ensures forall d :: d in Digits(value, base, upper, room) ==>
              d in if upper then "0123456789ABCDEF" else "0123456789abcdef"
  {
    hide DigitChar;
    hide Digits;
    var all := if upper then "0123456789ABCDEF" else "0123456789abcdef";
    forall d: nat | d < base ensures DigitChar(d, upper) in all {
      DigitIs(d, upper);
    }
    DigitsIn(value, base, upper, room, all);
  }

  lemma {:induction false} DigitsIn(value: nat, base: nat, upper: bool, room: nat, all: string)
    requires 2 <= base <= 16 && forall d: nat | d < base :: DigitChar(d, upper) in all
    ensures forall d :: d in Digits(value, base, upper, room) ==> d in all
    decreases room
  {
    hide DigitChar;
    hide Digits;
    if room > 0 {
      DigitsStep(value, base, upper, room);
      if Rest(value, base) != 0 {
        DigitsIn(Rest(value, base), base, upper, room - 1, all);
      }
    } else {
      DigitsNone(value, base, upper);
    }
  }

  lemma DigitIs(d: nat, upper: bool)
    requires d < 16
    ensures DigitChar(d, upper) == (if upper then "0123456789ABCDEF" else "0123456789abcdef")[d]
  {
  }

  // ----- Texts -----------------------------------------------------------------------

  /** An integer conversion without a prefix: the sign, or what '+' or ' ' put in its place, zeros up to the precision,
      and the digits; filled to the width with spaces, after it for '-', or with zeros for '0' without a precision.
      A left-justified number has no more than its digits. */
  lemma IntegerText(c: char, args: seq<Arg>, s: Spec)
    requires IsInt(c) && HasNum(args, s.a) && s.prec < NTOA_BUFFER
    requires s.fl.zeropad && !s.fl.precision && !s.fl.left ==> s.width <= NTOA_BUFFER
    requires s.fl.hash ==> c == 'd' || c == 'i' || c == 'u' || IntValue(c, args[s.a].bits, s.size) == 0
    ensures var v, signed := IntValue(c, args[s.a].bits, s.size), c == 'd' || c == 'i';
            var sign := if v < 0 then "-" else if signed && s.fl.plus then "+" else if signed && s.fl.space then " "
                        else "";
            var digits := if s.fl.precision && v == 0 then ""
                          else Reverse(Digits(Abs(v), Base(c), s.fl.upper || c == 'X', NTOA_BUFFER));
            var fill := s.fl.zeropad && !s.fl.precision && !s.fl.left;
            var least := if s.fl.left then 0 else s.prec;
            var zeros := (if fill then Max(least, s.width - |sign|) else least) - |digits|;
            var body := sign + Repeat('0', zeros) + digits;
            Converted(c, args, s)
            == if s.fl.left then body + Repeat(' ', s.width - |body|)
               else if fill then body else Repeat(' ', s.width - |body|) + body
  {
    hide Digits;
    hide Reverse;
    hide Repeat;
    hide IntValue;
    hide Expected;
    hide Converted;
    hide Base;
    var v, fl := IntValue(c, args[s.a].bits, s.size), IntFlags(c, s.fl).(hash := false);
    var digits := if fl.precision && v == 0 then "" else Digits(Abs(v), Base(c), fl.upper, NTOA_BUFFER);
    ReverseNothing();
    IntegerField(c, args, s);
    ExpectedText(digits, v < 0, if fl.left then 0 else s.prec, s.width, fl);
  }

  lemma IntegerField(c: char, args: seq<Arg>, s: Spec)
    requires IsInt(c) && HasNum(args, s.a) && s.prec < NTOA_BUFFER
    requires s.fl.zeropad && !s.fl.precision && !s.fl.left ==> s.width <= NTOA_BUFFER
    requires s.fl.hash ==> c == 'd' || c == 'i' || c == 'u' || IntValue(c, args[s.a].bits, s.size) == 0
    ensures var v, fl := IntValue(c, args[s.a].bits, s.size), IntFlags(c, s.fl).(hash := false);
            var digits := if fl.precision && v == 0 then "" else Digits(Abs(v), Base(c), fl.upper, NTOA_BUFFER);
            Converted(c, args, s) == Expected(digits, v < 0, if fl.left then 0 else s.prec, s.width, fl)
  {
    hide Digits;
    hide Field;
    hide Expected;
    hide IntValue;
    var v, fl := IntValue(c, args[s.a].bits, s.size), IntFlags(c, s.fl).(hash := false);
    var digits := if fl.precision && v == 0 then "" else Digits(Abs(v), Base(c), fl.upper, NTOA_BUFFER);
    assert v != 0 ==> IntFlags(c, s.fl) == fl;
    IntValueFits(c, args[s.a].bits, s.size);
    if IsSigned(c) {
      DecimalDigits(Abs(v), fl.upper);
    }
    FieldIs(digits, v < 0, Base(c), s.prec, s.width, fl);
  }

  lemma ExpectedText(digits: string, negative: bool, least: nat, width: nat, fl: Flags)
    ensures var sign := if negative then "-" else if fl.plus then "+" else if fl.space then " " else "";
            var fill := fl.zeropad && !fl.left;
            var zeros := (if fill then Max(least, width - |sign|) else least) - |Reverse(digits)|;
            var body := sign + Repeat('0', zeros) + Reverse(digits);
            Expected(digits, negative, least, width, fl)
            == if fl.left then body + Repeat(' ', width - |body|)
               else if fill then body else Repeat(' ', width - |body|) + body
  {
    hide Reverse;
    hide Repeat;
  }

  lemma ReverseNothing()
    ensures Reverse("") == ""
  {
  }

  /** '#' puts "0x", "0X", "0" or "0b" before the digits of a number that is not zero, where there is room for it. */
  lemma PrefixedText(c: char, bits: nat, size: Size, i: nat)
    requires c == 'x' || c == 'X' || c == 'o' || c == 'b'
    requires IntValue(c, bits, size) > 0
    ensures var prefix := if c == 'x' then "0x" else if c == 'X' then "0X" else if c == 'o' then "0" else "0b";
            var digits := Reverse(Digits(IntValue(c, bits, size), Base(c), c == 'X', NTOA_BUFFER));
            |prefix + digits| <= NTOA_BUFFER ==>
              Converted(c, [Num(bits)], Spec(NO_FLAGS.(hash := true), 0, 0, size, i, 0)) == prefix + digits
  {
    hide Digits;
    hide IntValue;
    hide ZeroPadded;
    hide Cut;
    hide Reverse;
    hide Pushed;
    hide Repeat;
    var v, fl := IntValue(c, bits, size), IntFlags(c, NO_FLAGS.(hash := true));
    var digits := Digits(v, Base(c), fl.upper, NTOA_BUFFER);
    CutIs(digits, Base(c), 0, 0, fl);
    NoZeros(digits);
    PrefixText(digits, Base(c), fl);
    SpacedNothing(Reversed(digits, false, Base(c), 0, 0, fl), fl);
  }

  lemma NoZeros(digits: string)
    ensures digits + Repeat('0', 0) == digits
  {
  }

  lemma SpacedNothing(s: string, fl: Flags)
    ensures Spaced(s, 0, fl) == Reverse(s)
  {
  }

  /** 'p': sixteen hexadecimal digits in capitals, which read back as the pointer. */
  lemma PointerText(bits: nat, i: nat)
    requires bits < 0x1_0000_0000_0000_0000
    ensures var text := Converted('p', [Num(bits)], Spec(NO_FLAGS, 0, 0, Int, i, 0));
            && |text| == 16 && Read(text, 16) == bits && forall d :: d in text ==> d in "0123456789ABCDEF"
  {
    hide Digits;
    hide Field;
    hide Positional;
    hide Read;
    hide Pow;
    var fl := NO_FLAGS.(zeropad := true, upper := true);
    var digits := Digits(bits, 16, true, NTOA_BUFFER);
    ModSmall(bits, U64);
    PowTwo();
    PowSixteen();
    DigitsBelow(bits, 16, true, NTOA_BUFFER, 16);
    DigitsAre(bits, 16, true, NTOA_BUFFER);
    FieldIs(digits, false, 16, 0, 16, fl);
    NoMinus(bits, 16, true, NTOA_BUFFER);
    SixtyFourBits(bits, 16, true);
    ZerosBefore(digits, 16 - |digits|, 16);
    PointerDigits(digits, 16 - |digits|);
    assert Field(digits, false, 16, 0, 16, fl) == "" + Repeat('0', 16 - |digits|) + Reverse(digits);
    assert "" + Repeat('0', 16 - |digits|) == Repeat('0', 16 - |digits|);
  }

  lemma PointerDigits(digits: string, zeros: nat)
    requires forall d :: d in digits ==> d in "0123456789ABCDEF"
    ensures forall d :: d in Repeat('0', zeros) + Reverse(digits) ==> d in "0123456789ABCDEF"
  {
    assert forall d :: d in Reverse(digits) ==> d in digits;
    assert "0123456789ABCDEF"[0] == '0';
  }

  lemma PowSixteen()
    ensures Pow(16, 16) == U64
  {
    hide Pow;
    PowFirst();
    PowAdd(16, 2, 2);
    PowAdd(16, 4, 4);
    PowAdd(16, 8, 8);
  }

  lemma PowFirst()
    ensures Pow(16, 2) == 256
  {
    assert Pow(16, 1) == 16;
  }

  /** Leading zeros do not count. */
  lemma {:induction false} ZerosBefore(digits: string, zeros: nat, base: nat)
    requires '-' !in digits && digits != ""
    ensures Read(Repeat('0', zeros) + Reverse(digits), base) == Positional(digits, base)
  {
    hide Positional;
    hide Read;
    var padded := digits + Repeat('0', zeros);
    ReverseConcat(digits, Repeat('0', zeros));
    ReverseRepeat('0', zeros);
    PositionalZeros(digits, zeros, base);
    ReadDigits(padded, false, base);
    assert "" + Reverse(padded) == Reverse(padded);
  }

  lemma {:induction false} PositionalZeros(digits: string, zeros: nat, base: nat)
    ensures Positional(digits + Repeat('0', zeros), base) == Positional(digits, base)
  {
    if digits != "" {
      PositionalZeros(digits[1..], zeros, base);
      assert (digits + Repeat('0', zeros))[1..] == digits[1..] + Repeat('0', zeros);
    } else if zeros > 0 {
      PositionalZeros("", zeros - 1, base);
      assert ("" + Repeat('0', zeros))[1..] == "" + Repeat('0', zeros - 1);
    }
  }

  /** 's': the string, or as much of it as the precision allows, filled with spaces to the width. The spaces are right
      exactly if there is a precision, or the string has fewer than 2^32 characters, or what is left of its length in
      32 bits fills the width. */
  lemma StringText(text: CString, s: Spec)
    requires |text| < 0x1_0000_0000_0000_0000
    requires s.prec < 0x1_0000_0000 && (!s.fl.precision ==> s.prec == 0) && s.a == 0
    ensures var shown := if s.fl.precision && s.prec < |text| then text[..s.prec] else text;
            var pad := seq(Max(s.width - |shown|, 0), _ => ' ');
            Converted('s', [Str(text)], s) == (if s.fl.left then shown + pad else pad + shown)
            <==> s.fl.precision || |text| < 0x1_0000_0000 || s.width <= |text| % 0x1_0000_0000
  {
    hide Repeat;
    var shown := if s.fl.precision && s.prec < |text| then text[..s.prec] else text;
    var l, right := ShownLength(text, s), Max(s.width - |shown|, 0);
    LengthShown(text, s);
    assert Shown(text, s) == shown by {
      assert text[..|text|] == text;
    }
    RepeatIs(s.width - l);
    var out := Converted('s', [Str(text)], s);
    assert out == if s.fl.left then shown + seq(Max(s.width - l, 0), _ => ' ')
                  else seq(Max(s.width - l, 0), _ => ' ') + shown;
    if Max(s.width - l, 0) != right {
      assert |out| != |shown| + right;
    }
  }

  lemma RepeatIs(n: int)
    ensures Repeat(' ', n) == seq(Max(n, 0), _ => ' ')
  {
  }

  lemma LengthShown(text: CString, s: Spec)
    requires |text| < 0x1_0000_0000_0000_0000
    requires s.prec < 0x1_0000_0000 && (!s.fl.precision ==> s.prec == 0)
    ensures ShownLength(text, s)
         == if s.fl.precision then Min(|text|, s.prec) else |text| % 0x1_0000_0000
  {
    if s.fl.precision {
      ModSmall(Min(|text|, s.prec), U32);
    }
  }

  /** 'c': the character, filled with spaces to the width. */
  lemma CharacterText(bits: nat, s: Spec)
    requires s.a == 0
    ensures var pad := seq(Max(s.width - 1, 0), _ => ' ');
            Converted('c', [Num(bits)], s)
            == if s.fl.left then [(bits % 0x100) as char] + pad else pad + [(bits % 0x100) as char]
  {
  }

  // ----- The whole format ------------------------------------------------------------

  /** Up to the next '%' the format stands for itself. */
  lemma {:induction false} RenderPlain(f: CString, i: nat, j: nat, args: seq<Arg>, a: nat)
    requires i <= j <= |f| && '%' !in f[i..j]
    ensures Render(f, i, args, a) == Prepend(f[i..j], Render(f, j, args, a))
    decreases j - i
  {
    hide DirectiveAt;
    hide Convertible;
    hide Converted;
    if i < j {
      assert f[i] == f[i..j][0];
      assert f[i..j] == [f[i]] + f[i + 1..j];
      RenderPlain(f, i + 1, j, args, a);
      PrependTwice([f[i]], f[i + 1..j], Render(f, j, args, a));
    } else {
      assert f[i..j] == "";
      PrependNothing(Render(f, j, args, a));
    }
  }

  lemma PrependTwice(s: string, t: string, u: Option<string>)
    ensures Prepend(s, Prepend(t, u)) == Prepend(s + t, u)
  {
    if u.Some? {
      assert s + (t + u.value) == s + t + u.value;
    }
  }

  lemma PrependNothing(u: Option<string>)
    ensures Prepend("", u) == u
  {
    if u.Some? {
      assert "" + u.value == u.value;
    }
  }

  /** A directive, wherever it stands, is replaced by the conversion it asks for, which takes one argument if it is one
      of a value; then the format goes on behind it. */
  lemma RenderDirective(f: CString, i: nat, form: Form, args: seq<Arg>, a: nat, s: Spec)
    requires form.Valid() && Has(f, i, "%" + form.Text())
    requires Meaning(form, args, i + 1, a) == Some(s) && Convertible(form.c, args, s.a)
    ensures Render(f, i, args, a)
         == Prepend(Converted(form.c, args, s),
                    Render(f, i + 1 + |form.Text()|, args,
                           s.a + if form.c in ['d', 'i', 'u', 'x', 'X', 'o', 'b', 'c', 's', 'p'] then 1 else 0))
  {
    hide DirectiveAt;
    hide Convertible;
    hide Converted;
    hide Form.PrecText;
    HasConcat(f, i, "%", form.Text());
    assert f[i..i + 1] == "%" && f[i] == f[i..i + 1][0];
    DirectiveReads(f, args, form, i + 1, a);
    SpecifierLast(form);
    assert s.i == i + |form.Text()|;
    assert f[s.i] == f[i + 1..i + 1 + |form.Text()|][|form.Text()| - 1];
  }

  lemma SpecifierLast(form: Form)
    ensures form.Text() != "" && form.Text()[|form.Text()| - 1] == form.c
  {
  }

  /** Text, a directive, and more: the text as it is, what the directive asks for, and what the rest stands for. */
  lemma RenderFirst(before: CString, form: Form, after: CString, args: seq<Arg>, s: Spec)
    requires '%' !in before && form.Valid() && '\0' !in form.Text()
    requires Meaning(form, args, |before| + 1, 0) == Some(s) && Convertible(form.c, args, s.a)
    ensures var f := before + "%" + form.Text() + after;
            Render(f, 0, args, 0)
            == Prepend(before + Converted(form.c, args, s),
                       Render(f, |f| - |after|, args,
                              s.a + if form.c in ['d', 'i', 'u', 'x', 'X', 'o', 'b', 'c', 's', 'p'] then 1 else 0))
  {
    hide Render;
    hide Converted;
    hide Convertible;
    hide Meaning;
    hide Form.Text;
    hide Form.Valid;
    var f := before + "%" + form.Text() + after;
    assert f[0..|before|] == before;
    RenderPlain(f, 0, |before|, args, 0);
    assert f[|before|..|before| + |"%" + form.Text()|] == "%" + form.Text();
    RenderDirective(f, |before|, form, args, 0, s);
    PrependTwice(before, Converted(form.c, args, s),
                 Render(f, |f| - |after|, args,
                        s.a + if form.c in ['d', 'i', 'u', 'x', 'X', 'o', 'b', 'c', 's', 'p'] then 1 else 0));
  }

  /** A format that is one directive stands for what it asks for. */
  lemma RenderWhole(form: Form, args: seq<Arg>, s: Spec)
    requires form.Valid() && '\0' !in form.Text()
    requires Meaning(form, args, 1, 0) == Some(s) && Convertible(form.c, args, s.a)
    ensures Render("%" + form.Text(), 0, args, 0) == Some(Converted(form.c, args, s))
  {
    hide Render;
    hide Converted;
    hide Convertible;
    hide Meaning;
    hide Form.Text;
    hide Form.Valid;
    var f, out := "%" + form.Text(), Converted(form.c, args, s);
    var used: nat := s.a + if form.c in ['d', 'i', 'u', 'x', 'X', 'o', 'b', 'c', 's', 'p'] then 1 else 0;
    assert "" + "%" + form.Text() + "" == f;
    RenderFirst("", form, "", args, s);
    RenderEnd(f, args, used);
    PrependAll("" + out);
    assert "" + out == out;
  }

  lemma PrependAll(s: string)
    ensures Prepend(s, Some("")) == Some(s)
  {
    assert s + "" == s;
  }

  /** `snprintf("%d", v)` and its kin: with any length field and any specifier of an integer, the whole output reads
      back as the number. */
  lemma NumberPrinted(length: string, c: char, v: int, bits: nat)
    requires length in ["", "hh", "h", "l", "ll", "t", "j", "z"] && c in ['d', 'i', 'u', 'x', 'X', 'o', 'b']
    requires var size := if length == "" then Int else if length == "hh" then Char else if length == "h" then Short
                         else Long;
             && Holds(bits, size, v)
             && if c == 'd' || c == 'i' then SignedRange(size, v) else UnsignedRange(size, v)
    requires c == 'b' ==> v < 0x1_0000_0000
    ensures var base := if c == 'x' || c == 'X' then 16 else if c == 'o' then 8 else if c == 'b' then 2 else 10;
            var text := Render("%" + length + [c], 0, [Num(bits)], 0);
            text.Some? && Read(text.value, base) == v
  {
    hide Render;
    hide Converted;
    hide Read;
    var size := LENGTHS[length];
    NumberRendered(length, c, bits);
    if c == 'd' || c == 'i' {
      SignedReadsBack(c, v, bits, size, 1 + |length|);
    } else {
      UnsignedReadsBack(c, v, bits, size, 1 + |length|);
    }
  }

  lemma NumberRendered(length: string, c: char, bits: nat)
    requires length in LENGTHS && c in ['d', 'i', 'u', 'x', 'X', 'o', 'b']
    ensures IsInt(c) && '\0' !in "%" + length + [c]
    ensures var s := Spec(NO_FLAGS, 0, 0, LENGTHS[length], 1 + |length|, 0);
            Render("%" + length + [c], 0, [Num(bits)], 0) == Some(Converted(c, [Num(bits)], s))
  {
    hide Render;
    hide Converted;
    hide Form.Text;
    hide Form.Valid;
    hide Meaning;
    hide Convertible;
    var form := Form("", Absent, Absent, length, c);
    var s := Spec(NO_FLAGS, 0, 0, LENGTHS[length], 1 + |length|, 0);
    assert Convertible(c, [Num(bits)], 0) by { TakesNumber(c, bits); }
    PlainForm(length, c);
    PlainMeaning(length, c, bits);
    RenderWhole(form, [Num(bits)], s);
    assert "%" + (length + [c]) == "%" + length + [c];
  }

  lemma TakesNumber(c: char, bits: nat)
    requires c in ['d', 'i', 'u', 'x', 'X', 'o', 'b']
    ensures Convertible(c, [Num(bits)], 0)
  {
  }

  lemma PlainMeaning(length: string, c: char, bits: nat)
    requires length in LENGTHS && c in ['d', 'i', 'u', 'x', 'X', 'o', 'b']
    requires Form("", Absent, Absent, length, c).Valid() && Form("", Absent, Absent, length, c).Text() == length + [c]
    ensures Meaning(Form("", Absent, Absent, length, c), [Num(bits)], 1, 0)
         == Some(Spec(NO_FLAGS, 0, 0, LENGTHS[length], 1 + |length|, 0))
  {
  }

  lemma PlainForm(length: string, c: char)
    requires length in LENGTHS && c in ['d', 'i', 'u', 'x', 'X', 'o', 'b']
    ensures var form := Form("", Absent, Absent, length, c);
            form.Valid() && form.Text() == length + [c] && '\0' !in form.Text()
  {
    var form := Form("", Absent, Absent, length, c);
    assert "" + ("" + ("" + (length + [c]))) == length + [c];
  }

  /** `printf` of an `int` with flags and a width, as it is written: '-' fills with spaces behind, '0' with zeros, else
      spaces stand in front; '+' and ' ' give a number without a minus a sign; '#' does nothing. Flags may stand in any
      order and more than once. With '0' alone the width is at most that of the digit buffer, see `ExpectedIff`. */
  lemma FieldPrinted(flags: string, w: nat, v: int, bits: nat)
    requires (forall k :: 0 <= k < |flags| ==> flags[k] in ['0', '-', '+', ' ', '#']) && 0 < w < 0x1_0000_0000
    requires '0' in flags && '-' !in flags ==> w <= NTOA_BUFFER
    requires -0x8000_0000 <= v < 0x8000_0000 && bits % 0x1_0000_0000 == v % 0x1_0000_0000
    ensures var format := "%" + flags + Reverse(Digits(w, 10, false, NTOA_BUFFER)) + "d";
            var sign := if v < 0 then "-" else if '+' in flags then "+" else if ' ' in flags then " " else "";
            var digits := Reverse(Digits(if v < 0 then -v else v, 10, false, NTOA_BUFFER));
            '\0' !in format
            && Render(format, 0, [Num(bits)], 0)
               == Some(if '-' in flags then sign + digits + Repeat(' ', w - |sign + digits|)
                       else if '0' in flags then sign + Repeat('0', w - |sign + digits|) + digits
                       else Repeat(' ', w - |sign + digits|) + (sign + digits))
  {
    hide Render;
    hide Converted;
    hide Digits;
    hide Reverse;
    hide Repeat;
    hide Meaning;
    hide Convertible;
    hide Form.Text;
    hide Form.Valid;
    hide Decimal;
    var t := Reverse(Digits(w, 10, false, NTOA_BUFFER));
    var form := Form(flags, Given(t), Absent, "", 'd');
    var s := Spec(WithFlags(NO_FLAGS, flags), w, 0, Int, 1 + |flags| + |t|, 0);
    var format := "%" + flags + t + "d";
    PrintedNumber(w, false);
    WidthForm(flags, t, bits, w);
    RenderWhole(form, [Num(bits)], s);
    assert "%" + (flags + t + "d") == format;
    NumberText(v, bits, s);
  }

  lemma WidthForm(flags: string, t: string, bits: nat, w: nat)
    requires forall k :: 0 <= k < |flags| ==> flags[k] in ['0', '-', '+', ' ', '#']
    requires t != "" && AllDigits(t) && t[0] != '0' && Decimal(t) % U32 == w
    ensures var form := Form(flags, Given(t), Absent, "", 'd');
            && form.Valid() && form.Text() == flags + t + "d" && '\0' !in form.Text() && '\0' !in flags + t
            && Convertible('d', [Num(bits)], 0)
            && Meaning(form, [Num(bits)], 1, 0)
               == Some(Spec(WithFlags(NO_FLAGS, flags), w, 0, Int, 1 + |flags| + |t|, 0))
  {
    hide Decimal;
    hide Form.Text;
    hide Form.Valid;
    hide Meaning;
    hide AllDigits;
    NoTerminator(flags, t);
    WidthFormText(flags, t);
    WidthFormValid(flags, t);
    WidthMeaning(flags, t, bits, w);
  }

  lemma WidthMeaning(flags: string, t: string, bits: nat, w: nat)
    requires Form(flags, Given(t), Absent, "", 'd').Valid()
    requires Form(flags, Given(t), Absent, "", 'd').Text() == flags + t + "d" && Decimal(t) % U32 == w
    ensures Meaning(Form(flags, Given(t), Absent, "", 'd'), [Num(bits)], 1, 0)
         == Some(Spec(WithFlags(NO_FLAGS, flags), w, 0, Int, 1 + |flags| + |t|, 0))
  {
    hide Decimal;
    hide Form.Text;
    hide Form.Valid;
    hide WithFlags;
    hide Has;
    NoPrecision(flags);
    assert |flags + t + "d"| == |flags| + |t| + 1;
    SetsNothing(WithFlags(NO_FLAGS, flags));
  }

  lemma SetsNothing(fl: Flags)
    ensures fl.(left := fl.left || false) == fl
  {
  }

  lemma NoPrecision(flags: string)
    ensures WithFlags(NO_FLAGS, flags).(precision := false) == WithFlags(NO_FLAGS, flags)
  {
  }

  lemma WidthFormText(flags: string, t: string)
    ensures Form(flags, Given(t), Absent, "", 'd').Text() == flags + t + "d"
  {
    assert flags + (t + ("" + ("" + "d"))) == flags + t + "d";
  }

  lemma WidthFormValid(flags: string, t: string)
    requires forall k :: 0 <= k < |flags| ==> flags[k] in ['0', '-', '+', ' ', '#']
    requires t != "" && AllDigits(t) && t[0] != '0'
    ensures Form(flags, Given(t), Absent, "", 'd').Valid()
  {
    hide AllDigits;
  }

  lemma NoTerminator(flags: string, t: string)
    requires forall k :: 0 <= k < |flags| ==> flags[k] in ['0', '-', '+', ' ', '#']
    requires AllDigits(t)
    ensures '\0' !in flags + t && '\0' !in flags + t + "d"
  {
    assert '\0' !in flags;
    assert forall k :: 0 <= k < |t| ==> IsDigit(t[k]);
    assert '\0' !in t;
  }

  /** What `IntegerText` says without a precision. */
  lemma NumberText(v: int, bits: nat, s: Spec)
    requires -0x8000_0000 <= v < 0x8000_0000 && bits % 0x1_0000_0000 == v % 0x1_0000_0000
    requires s.fl.zeropad && !s.fl.left ==> s.width <= NTOA_BUFFER
    requires s.prec == 0 && !s.fl.precision && s.size == Int && s.a == 0 && !s.fl.upper
    ensures var sign := if v < 0 then "-" else if s.fl.plus then "+" else if s.fl.space then " " else "";
            var digits := Reverse(Digits(if v < 0 then -v else v, 10, false, NTOA_BUFFER));
            Converted('d', [Num(bits)], s)
            == if s.fl.left then sign + digits + Repeat(' ', s.width - |sign + digits|)
               else if s.fl.zeropad then sign + Repeat('0', s.width - |sign + digits|) + digits
               else Repeat(' ', s.width - |sign + digits|) + (sign + digits)
  {
    hide Converted;
    hide Digits;
    hide Reverse;
    hide Repeat;
    IntegerText('d', [Num(bits)], s);
    var sign := if v < 0 then "-" else if s.fl.plus then "+" else if s.fl.space then " " else "";
    RepeatNone(0 - |Reverse(Digits(Abs(v), 10, false, NTOA_BUFFER))|);
    RepeatNone(s.width - |sign| - |Reverse(Digits(Abs(v), 10, false, NTOA_BUFFER))|);
    assert sign + "" == sign;
  }

  lemma RepeatNone(n: int)
    ensures n <= 0 ==> Repeat('0', n) == "" && Repeat(' ', n) == ""
  {
  }
}
