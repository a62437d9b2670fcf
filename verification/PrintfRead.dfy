/** What the digits of `_ntoa_long` and the fields of `_ntoa_format` mean to a reader, and `_atoi`. */
module PrintfRead {
  import opened Arith
  import opened Common
  import opened PrintfOut
  import opened PrintfNtoa

  // ----- Reading digits back ---------------------------------------------------------

  function DigitValue(c: char): nat {
    if '0' <= c <= '9' then (c - '0') as nat
    else if 'a' <= c <= 'z' then (c - 'a') as nat + 10
    else if 'A' <= c <= 'Z' then (c - 'A') as nat + 10
    else 0
  }

  /** The number a digit string denotes, least significant digit first. */
  function Positional(s: string, base: nat): nat {
    if s == "" then 0 else DigitValue(s[0]) + base * Positional(s[1..], base)
  }

  lemma DigitCharValue(d: nat, upper: bool)
    requires d < 36
    ensures DigitValue(DigitChar(d, upper)) == d
  {
  }

  /** The low digit and the rest make up the remainder by a product. */
  lemma ModProduct(v: nat, b: nat, p: nat)
    requires b >= 2 && p > 0
    ensures b * p > 0 && v % (b * p) == Low(v, b) + b * (Rest(v, b) % p)
  {
    var q, r := Rest(v, b), Low(v, b);
    var k, m := q / p, q % p;
    assert v == b * q + r;
    assert q == p * k + m;
    assert b * q == b * (p * k) + b * m;
    assert b * (p * k) == (b * p) * k;
    MulMono(m + 1, p, b);
    assert b * (m + 1) == b * m + b;
    DivUnique(v, b * p, k, b * m + r);
  }

  /** The digit buffer holds the value modulo the base to the power of the room. */
  lemma {:induction false} DigitsMod(v: nat, base: nat, upper: bool, room: nat)
    requires 2 <= base <= 36
    ensures Positional(Digits(v, base, upper, room), base) == v % Pow(base, room)
    decreases room
  {
    hide Digits;
    hide Positional;
    hide Pow;
    DigitsNone(v, base, upper);
    PositionalNone(base);
    PowUnfold(base, room);
    if room > 0 {
      var low, v' := Low(v, base), Rest(v, base);
      var rest := MoreDigits(v', base, upper, room - 1);
      DigitsStep(v, base, upper, room);
      PositionalStep(DigitChar(low, upper), rest, base);
      DigitCharValue(low, upper);
      ModProduct(v, base, Pow(base, room - 1));
      if v' != 0 {
        DigitsMod(v', base, upper, room - 1);
      } else {
        ModZero(Pow(base, room - 1));
      }
    } else {
      ModOne(v);
    }
  }

  lemma PositionalNone(base: nat)
    ensures Positional("", base) == 0
  {
  }

  lemma PositionalStep(c: char, rest: string, base: nat)
    ensures Positional([c] + rest, base) == DigitValue(c) + base * Positional(rest, base)
  {
    assert ([c] + rest)[1..] == rest;
  }

  /** A number reads back from its digits exactly if it is below the base to the power of the buffer size. */
  lemma ReadsBack(v: nat, base: nat, upper: bool)
    requires 2 <= base <= 36
    ensures Positional(Digits(v, base, upper, NTOA_BUFFER), base) == v <==> v < Pow(base, NTOA_BUFFER)
  {
    hide Pow;
    DigitsMod(v, base, upper, NTOA_BUFFER);
    ModSmall(v, Pow(base, NTOA_BUFFER));
  }

  lemma PowTwo()
    ensures Pow(2, 32) == U32 && Pow(4, 32) == U64
  {
    hide Pow;
    PowTwoFour();
    PowAdd(2, 4, 4);
    PowAdd(2, 8, 8);
    PowAdd(2, 16, 16);
    PowAdd(4, 4, 4);
    PowAdd(4, 8, 8);
    PowAdd(4, 16, 16);
  }

  lemma PowTwoFour()
    ensures Pow(2, 4) == 16 && Pow(4, 4) == 256
  {
    assert Pow(2, 2) == 4 && Pow(4, 2) == 16;
  }

  /** Of the bases `printf` uses, 8, 10 and 16 print every 64-bit value; base 2 keeps only the low 32 bits. */
  lemma SixtyFourBits(v: nat, base: nat, upper: bool)
    requires v < U64 && base in {2, 8, 10, 16}
    ensures Positional(Digits(v, base, upper, NTOA_BUFFER), base) == if base == 2 then v % U32 else v
  {
    hide Pow;
    DigitsMod(v, base, upper, NTOA_BUFFER);
    PowTwo();
    if base != 2 {
      PowMono(4, base, NTOA_BUFFER);
      ModSmall(v, Pow(base, NTOA_BUFFER));
    }
  }

  /** A number below a power of the base has no more digits than the power says. */
  lemma {:induction false} DigitsBelow(value: nat, base: nat, upper: bool, room: nat, n: nat)
    requires 2 <= base <= 36 && n > 0 && value < Pow(base, n)
    ensures |Digits(value, base, upper, room)| <= n
    decreases n
  {
    hide Low;
    if room > 0 && Rest(value, base) != 0 {
      RestBelow(value, base, n);
      DigitsBelow(Rest(value, base), base, upper, room - 1, n - 1);
    }
  }

  lemma RestBelow(value: nat, base: nat, n: nat)
    requires 2 <= base && n > 0 && value < Pow(base, n)
    ensures Rest(value, base) < Pow(base, n - 1)
    ensures Rest(value, base) > 0 ==> n > 1
  {
    assert value == base * Rest(value, base) + value % base;
    if Rest(value, base) >= Pow(base, n - 1) {
      MulMono(Pow(base, n - 1), Rest(value, base), base);
      assert false;
    }
  }

  lemma DecimalDigits(v: nat, upper: bool)
    requires v < U64
    ensures |Digits(v, 10, upper, NTOA_BUFFER)| < NTOA_BUFFER
  {
    hide Pow;
    PowTen();
    PowAdd(10, 4, 4);
    PowAdd(10, 8, 8);
    PowAdd(10, 16, 8);
    DigitsBelow(v, 10, upper, NTOA_BUFFER, 24);
  }

  lemma PowTen()
    ensures Pow(10, 4) == 10000
  {
    assert Pow(10, 2) == 100;
  }

  /** The most significant digit of a positive number that fits is not zero. */
  lemma {:induction false} TopDigitOf(v: nat, upper: bool, room: nat)
    requires 0 < v < Pow(10, room) && room > 0
    ensures var s := Digits(v, 10, upper, room); '1' <= s[|s| - 1] <= '9'
    decreases room
  {
    RestBelow(v, 10, room);
    if Rest(v, 10) > 0 {
      TopDigitOf(Rest(v, 10), upper, room - 1);
    }
  }

  lemma TopDigit(v: nat, upper: bool)
    requires 0 < v < U32
    ensures var t := Reverse(Digits(v, 10, upper, NTOA_BUFFER)); t != "" && '1' <= t[0] <= '9'
  {
    hide Pow;
    hide Digits;
    PowTwo();
    PowMono(2, 10, NTOA_BUFFER);
    TopDigitOf(v, upper, NTOA_BUFFER);
  }

  // ----- _atoi -----------------------------------------------------------------------

  predicate IsDigit(c: char) { '0' <= c <= '9' }

  predicate AllDigits(s: string) { forall k :: 0 <= k < |s| ==> IsDigit(s[k]) }

  /** The number a digit string denotes, most significant digit first. */
  function Decimal(s: string): nat {
    if s == "" then 0 else Decimal(s[..|s| - 1]) * 10 + DigitValue(s[|s| - 1])
  }

  /** The end of the run of digits from index `i`. */
  function DigitsEnd(s: string, i: nat): (j: nat)
    requires i <= |s|
    ensures i <= j <= |s| && AllDigits(s[i..j]) && (j < |s| ==> !IsDigit(s[j]))
    decreases |s| - i
  {
    if i == |s| || !IsDigit(s[i]) then i else DigitsEnd(s, i + 1)
  }

  /** What `_atoi` returns at index `i`: the digits there, as a 32-bit number. */
  function AtoiAt(s: string, i: nat): (n: nat)
    requires i <= |s|
    ensures n < U32
  {
    Decimal(s[i..DigitsEnd(s, i)]) % U32
  }

  /** One more digit. */
  lemma AtoiStep(s: string, i0: nat, i: nat)
    requires i0 <= i < |s| && IsDigit(s[i])
    ensures (Decimal(s[i0..i]) % U32 * 10 + (s[i] - '0') as nat) % U32 == Decimal(s[i0..i + 1]) % U32
    ensures DigitsEnd(s, i) == DigitsEnd(s, i + 1)
  {
    var a, d := Decimal(s[i0..i]), DigitValue(s[i]);
    assert s[i0..i + 1][..i - i0] == s[i0..i];
    ModAddMultiple(a % U32 * 10 + d, a / U32 * 10, U32);
  }

  /** `_atoi`. */
  method Atoi(s: string, i0: nat) returns (n: nat, i: nat)
    requires i0 <= |s|
    ensures n == AtoiAt(s, i0) && i == DigitsEnd(s, i0)
  {
    hide Decimal;
    n, i := 0, i0;
    AtoiNone(s, i0);
    while i < |s| && IsDigit(s[i])
      invariant i0 <= i <= |s| && DigitsEnd(s, i) == DigitsEnd(s, i0)
      invariant n == Decimal(s[i0..i]) % U32
    {
      AtoiStep(s, i0, i);
      n := (n * 10 + (s[i] - '0') as nat) % U32;
      i := i + 1;
    }
  }

  lemma AtoiNone(s: string, i: nat)
    requires i <= |s|
    ensures Decimal(s[i..i]) % U32 == 0
  {
  }

  lemma {:induction false} DecimalReverse(t: string)
    ensures Decimal(Reverse(t)) == Positional(t, 10)
  {
    if t != "" {
      assert Reverse(t)[..|t| - 1] == Reverse(t[1..]);
      DecimalReverse(t[1..]);
    }
  }

  lemma {:induction false} DigitsAreDigits(v: nat, base: nat, upper: bool, room: nat)
    requires 2 <= base <= 10
    ensures AllDigits(Digits(v, base, upper, room))
    decreases room
  {
    if room > 0 && Rest(v, base) != 0 {
      DigitsAreDigits(Rest(v, base), base, upper, room - 1);
    }
  }

  lemma TextIsDigits(v: nat, upper: bool)
    ensures AllDigits(Reverse(Digits(v, 10, upper, NTOA_BUFFER)))
  {
    hide Digits;
    DigitsAreDigits(v, 10, upper, NTOA_BUFFER);
  }

  /** A run of digits that stands in a string and goes no further is what `_atoi` reads. */
  lemma DigitsEndIn(before: string, text: string, after: string)
    requires AllDigits(text) && (after != "" ==> !IsDigit(after[0]))
    ensures DigitsEnd(before + text + after, |before|) == |before| + |text|
    ensures (before + text + after)[|before|..|before| + |text|] == text
  {
    hide IsDigit;
    hide DigitsEnd;
    var s, i := before + text + after, |before|;
    Between(before, text, after);
    forall k | i <= k < i + |text| ensures IsDigit(s[k]) {
      assert s[k] == s[i..i + |text|][k - i];
    }
    DigitsEndUnique(s, i, i + |text|);
  }

  lemma Between(before: string, text: string, after: string)
    ensures var s := before + text + after;
            |s| == |before| + |text| + |after| && s[|before|..|before| + |text|] == text
            && (after != "" ==> s[|before| + |text|] == after[0])
  {
  }

  lemma DigitsEndUnique(s: string, i: nat, j: nat)
    requires i <= j <= |s| && (forall k :: i <= k < j ==> IsDigit(s[k])) && (j < |s| ==> !IsDigit(s[j]))
    ensures DigitsEnd(s, i) == j
  {
  }

  /** `_atoi` gets back every 32-bit number from its decimal digits, wherever they stand in a string. */
  lemma AtoiInverts(v: nat, upper: bool, before: string, after: string)
    requires v < U32 && (after != "" ==> !IsDigit(after[0]))
    ensures var text := Reverse(Digits(v, 10, upper, NTOA_BUFFER));
            AtoiAt(before + text + after, |before|) == v
              && DigitsEnd(before + text + after, |before|) == |before| + |text|
  {
    hide Digits;
    hide Reverse;
    hide AtoiAt;
    hide DigitsEnd;
    hide Decimal;
    hide AllDigits;
    TextIsDigits(v, upper);
    DecimalIs(v, upper);
    AtoiText(before, Reverse(Digits(v, 10, upper, NTOA_BUFFER)), after);
    ModSmall(v, U32);
  }

  lemma AtoiText(before: string, text: string, after: string)
    requires AllDigits(text) && (after != "" ==> !IsDigit(after[0]))
    ensures AtoiAt(before + text + after, |before|) == Decimal(text) % U32
    ensures DigitsEnd(before + text + after, |before|) == |before| + |text|
  {
    hide DigitsEnd;
    hide Decimal;
    hide AllDigits;
    DigitsEndIn(before, text, after);
  }

  lemma DecimalIs(v: nat, upper: bool)
    requires v < U64
    ensures Decimal(Reverse(Digits(v, 10, upper, NTOA_BUFFER))) == v
  {
    hide Digits;
    hide Reverse;
    hide Decimal;
    hide Positional;
    DecimalReverse(Digits(v, 10, upper, NTOA_BUFFER));
    SixtyFourBits(v, 10, upper);
  }

  // ----- The field -------------------------------------------------------------------

  function Sign(negative: bool, fl: Flags): (s: string)
    ensures |s| <= 1
  {
    if negative then "-" else if fl.plus then "+" else if fl.space then " " else ""
  }

  /** Sign, `zeros` zeros, digits. */
  ghost function Body(digits: string, negative: bool, zeros: int, fl: Flags): string {
    Sign(negative, fl) + Repeat('0', zeros) + Reverse(digits)
  }

  /** The field as a reader expects it: `prec` digits at least, `width` characters at least, filled on the side
      the flags name. `applied` is the precision in force. */
  ghost function Expected(digits: string, negative: bool, applied: nat, width: nat, fl: Flags): string {
    var sign := |Sign(negative, fl)|;
    if fl.left then
      var body := Body(digits, negative, applied - |digits|, fl);
      body + Repeat(' ', width - |body|)
    else if fl.zeropad then Body(digits, negative, Max(applied - |digits|, width - sign - |digits|), fl)
    else
      var body := Body(digits, negative, applied - |digits|, fl);
      Repeat(' ', width - |body|) + body
  }

  lemma ReverseConcat(s: string, t: string)
    ensures Reverse(s + t) == Reverse(t) + Reverse(s)
  {
  }

  lemma ReverseRepeat(c: char, n: int)
    ensures Reverse(Repeat(c, n)) == Repeat(c, n)
  {
  }

  lemma PadPad(s: string, m: nat, n: nat)
    requires m <= NTOA_BUFFER && n <= NTOA_BUFFER
    ensures Pad(Pad(s, m), n) == s + Repeat('0', Max(m, n) - |s|)
  {
  }

  /** The zeros `_ntoa_format` puts before the digits. */
  function ZerosIn(digits: string, negative: bool, prec: nat, width: nat, fl: Flags): int {
    if fl.left then -|digits|
    else if fl.zeropad then Max(prec - |digits|, width - |Sign(negative, fl)| - |digits|)
    else prec - |digits|
  }

  /** In the buffer stand the digits, then zeros, then the sign. */
  lemma ReversedIs(digits: string, negative: bool, base: nat, prec: nat, width: nat, fl: Flags)
    requires !fl.hash && |digits| + |Sign(negative, fl)| <= NTOA_BUFFER
    requires fl.left || prec <= |digits| || prec + |Sign(negative, fl)| <= NTOA_BUFFER
    requires fl.zeropad && !fl.left ==> width <= NTOA_BUFFER
    ensures Reversed(digits, negative, base, prec, width, fl)
         == digits + Repeat('0', ZerosIn(digits, negative, prec, width, fl)) + Sign(negative, fl)
  {
    if !fl.left && fl.zeropad {
      PadPad(digits, prec, DigitWidth(negative, width, fl));
    }
  }

  /** Without '#', and with precision and zeros within the digit buffer, `_ntoa_format` writes the expected field,
      except that it drops the precision of a left-justified number. */
  lemma FieldIs(digits: string, negative: bool, base: nat, prec: nat, width: nat, fl: Flags)
    requires !fl.hash && |digits| + |Sign(negative, fl)| <= NTOA_BUFFER
    requires fl.left || prec <= |digits| || prec + |Sign(negative, fl)| <= NTOA_BUFFER
    requires fl.zeropad && !fl.left ==> width <= NTOA_BUFFER
    ensures Field(digits, negative, base, prec, width, fl)
         == Expected(digits, negative, if fl.left then 0 else prec, width, fl)
  {
    hide Reversed;
    hide Reverse;
    hide Repeat;
    hide Body;
    var zeros := ZerosIn(digits, negative, prec, width, fl);
    ReversedIs(digits, negative, base, prec, width, fl);
    ReversedBody(digits, negative, zeros, fl);
    var body := Body(digits, negative, zeros, fl);
    if fl.left {
      assert "" + body + Repeat(' ', width - |body|) == body + Repeat(' ', width - |body|);
    } else {
      assert body + "" == body;
      assert Repeat(' ', width - |body|) + body + "" == Repeat(' ', width - |body|) + body;
    }
  }

  lemma ReversedBody(digits: string, negative: bool, zeros: int, fl: Flags)
    ensures Reverse(digits + Repeat('0', zeros) + Sign(negative, fl)) == Body(digits, negative, zeros, fl)
  {
    var sign := Sign(negative, fl);
    ReverseConcat(digits + Repeat('0', zeros), sign);
    ReverseConcat(digits, Repeat('0', zeros));
    ReverseRepeat('0', zeros);
    assert Reverse(sign) == sign;
  }

  lemma {:induction false} NoSpaces(value: nat, base: nat, upper: bool, room: nat)
    requires 2 <= base <= 36
    ensures ' ' !in Digits(value, base, upper, room)
    decreases room
  {
    if room > 0 && Rest(value, base) != 0 {
      NoSpaces(Rest(value, base), base, upper, room - 1);
    }
  }

  /** For every width and precision: the field is as expected exactly if, left-justified, the number has the digits of
      its precision anyway; filled with zeros, the width is within the digit buffer; and else the digits and the sign
      are, or only a sign is missing that looks like the space in its place. */
  lemma ExpectedIff(value: nat, negative: bool, base: nat, prec: nat, width: nat, fl: Flags)
    requires 2 <= base <= 36 && !fl.hash && (fl.zeropad ==> prec == 0)
    requires Sign(negative, fl) == "" || (base == 10 && value < U64)
    ensures var digits, sign := Digits(value, base, fl.upper, NTOA_BUFFER), Sign(negative, fl);
            Field(digits, negative, base, prec, width, fl) == Expected(digits, negative, prec, width, fl)
            <==> if fl.left then prec <= |digits|
                 else if fl.zeropad then width <= NTOA_BUFFER
                 else prec <= |digits| || prec + |sign| <= NTOA_BUFFER
                      || (sign == " " && prec == NTOA_BUFFER < width)
  {
    hide Digits;
    hide Field;
    hide Expected;
    var digits, sign := Digits(value, base, fl.upper, NTOA_BUFFER), Sign(negative, fl);
    if sign != "" {
      DecimalDigits(value, fl.upper);
    }
    NoSpaces(value, base, fl.upper, NTOA_BUFFER);
    if fl.left {
      FieldIs(digits, negative, base, prec, width, fl);
      ShortDiffers(digits, negative, prec, width, fl);
    } else if fl.zeropad && width > NTOA_BUFFER {
      ZerosShort(digits, negative, base, width, fl);
    } else if prec <= |digits| || prec + |sign| <= NTOA_BUFFER {
      FieldIs(digits, negative, base, prec, width, fl);
    } else {
      PrecisionShort(digits, negative, base, prec, width, fl);
    }
  }

  /** With zeros for a width beyond the buffer, the buffer is full of digits, without a sign. */
  lemma ZerosShort(digits: string, negative: bool, base: nat, width: nat, fl: Flags)
    requires !fl.hash && fl.zeropad && !fl.left && width > NTOA_BUFFER && |digits| <= NTOA_BUFFER
    ensures Field(digits, negative, base, 0, width, fl) == Reverse(digits + Repeat('0', NTOA_BUFFER - |digits|))
    ensures |Field(digits, negative, base, 0, width, fl)| == NTOA_BUFFER < |Expected(digits, negative, 0, width, fl)|
  {
    hide Reverse;
    PadPad(digits, 0, NTOA_BUFFER);
    var s := digits + Repeat('0', NTOA_BUFFER - |digits|);
    assert Pad(Pad(digits, 0), DigitWidth(negative, width, fl)) == s;
    assert Reversed(digits, negative, base, 0, width, fl) == s;
    assert "" + Reverse(s) + "" == Reverse(s);
  }

  /** "%033d" prints -5 as 5, with 31 zeros. */
  lemma ZerosLoseSign()
    ensures Field("5", true, 10, 0, 33, NO_FLAGS.(zeropad := true)) == Repeat('0', 31) + "5"
  {
    var fl := NO_FLAGS.(zeropad := true);
    ZerosShort("5", true, 10, 33, fl);
    ReverseConcat("5", Repeat('0', 31));
    ReverseRepeat('0', 31);
    assert Reverse("5") == "5";
  }

  /** With a precision that leaves no room for the sign, or none for all its digits, both are cut off. */
  lemma PrecisionShort(digits: string, negative: bool, base: nat, prec: nat, width: nat, fl: Flags)
    requires !fl.hash && !fl.zeropad && !fl.left && |digits| <= NTOA_BUFFER
    requires |digits| < prec && prec + |Sign(negative, fl)| > NTOA_BUFFER
    ensures Field(digits, negative, base, prec, width, fl) == Expected(digits, negative, prec, width, fl)
            <==> Sign(negative, fl) == " " && prec == NTOA_BUFFER < width
  {
    hide Reverse;
    hide Repeat;
    hide Reversed;
    var zeros := NTOA_BUFFER - |digits|;
    var s := digits + Repeat('0', zeros);
    ReverseConcat(digits, Repeat('0', zeros));
    ReverseRepeat('0', zeros);
    BufferFull(digits, negative, base, prec, width, fl);
    assert Repeat(' ', width - |s|) + Reverse(s) + "" == Repeat(' ', width - |s|) + Reverse(s);
    FullBuffer(Reverse(digits), Sign(negative, fl), prec, width);
  }

  lemma BufferFull(digits: string, negative: bool, base: nat, prec: nat, width: nat, fl: Flags)
    requires !fl.hash && !fl.zeropad && !fl.left && |digits| <= NTOA_BUFFER
    requires |digits| < prec && prec + |Sign(negative, fl)| > NTOA_BUFFER
    ensures Reversed(digits, negative, base, prec, width, fl) == digits + Repeat('0', NTOA_BUFFER - |digits|)
  {
    hide Repeat;
  }

  /** A full buffer of digits is what is expected only if all that is missing is a space among spaces. */
  lemma FullBuffer(digits: string, sign: string, prec: nat, width: nat)
    requires |digits| < prec && |digits| <= NTOA_BUFFER < prec + |sign| && sign in ["", "-", "+", " "]
    ensures var body := sign + Repeat('0', prec - |digits|) + digits;
            Repeat(' ', width - NTOA_BUFFER) + (Repeat('0', NTOA_BUFFER - |digits|) + digits)
              == Repeat(' ', width - |body|) + body
            <==> sign == " " && prec == NTOA_BUFFER < width
  {
    var body := sign + Repeat('0', prec - |digits|) + digits;
    var text := Repeat(' ', width - NTOA_BUFFER) + (Repeat('0', NTOA_BUFFER - |digits|) + digits);
    var expected := Repeat(' ', width - |body|) + body;
    if sign == " " && prec == NTOA_BUFFER < width {
      assert Repeat(' ', width - NTOA_BUFFER) == Repeat(' ', width - |body|) + " ";
    } else if |text| == |expected| {
      var k := |text| - NTOA_BUFFER - 1;
      assert text[k] == ' ';
      assert expected[k] == if prec == NTOA_BUFFER then sign[0] else '0';
    }
  }

  /** Zeros that are missing show. */
  lemma ShortDiffers(digits: string, negative: bool, prec: nat, width: nat, fl: Flags)
    requires ' ' !in digits && fl.left
    ensures Expected(digits, negative, 0, width, fl) == Expected(digits, negative, prec, width, fl)
            <==> prec <= |digits|
  {
    var s, t := Expected(digits, negative, 0, width, fl), Expected(digits, negative, prec, width, fl);
    var n := |Sign(negative, fl)| + |digits|;
    if prec > |digits| && |s| == |t| {
      assert s[n] == ' ';
      assert t[n] != ' ';
    }
  }

  /** The length of a field is its width or the length it has without, whichever is more. */
  lemma FieldLength(digits: string, negative: bool, base: nat, prec: nat, width: nat, fl: Flags)
    requires !fl.hash && |digits| + |Sign(negative, fl)| <= NTOA_BUFFER
    requires fl.left || prec <= |digits| || prec + |Sign(negative, fl)| <= NTOA_BUFFER
    requires fl.zeropad && !fl.left ==> width <= NTOA_BUFFER
    ensures |Field(digits, negative, base, prec, width, fl)|
         == Max(width, |Sign(negative, fl)| + Max(|digits|, if fl.left then 0 else prec))
  {
    FieldIs(digits, negative, base, prec, width, fl);
  }

  // ----- The '#' prefix --------------------------------------------------------------

  function HashPrefix(base: nat, fl: Flags): string {
    if base == 16 then (if fl.upper then "0X" else "0x") else if base == 2 then "0b" else "0"
  }

  /** How many characters '#' takes off a number that fills the width exactly. */
  function CutCount(length: nat, base: nat, width: nat, fl: Flags): nat {
    if !fl.precision && length == width then (if base == 16 && length > 1 then 2 else 1) else 0
  }

  /** The zeros before `n` digits, without a sign. */
  function PadCount(n: nat, prec: nat, width: nat, fl: Flags): nat {
    Max(0, if fl.left then 0 else Min(NTOA_BUFFER, if fl.zeropad then Max(prec, width) else prec) - n)
  }

  /** No digit is taken off, and the prefix has room; the "0" of base 8 may be a zero that stands there anyway. */
  predicate HashKeeps(n: nat, base: nat, prec: nat, width: nat, fl: Flags) {
    var zeros := PadCount(n, prec, width, fl);
    var cut := CutCount(n + zeros, base, width, fl);
    cut <= zeros && (n + zeros - cut + |HashPrefix(base, fl)| <= NTOA_BUFFER || (base == 8 && cut < zeros))
  }

  /** Prefix, zeros and all the digits. */
  ghost predicate HashRight(text: string, digits: string, base: nat, fl: Flags) {
    exists z: nat :: text == HashPrefix(base, fl) + Repeat('0', z) + Reverse(digits)
  }

  /** The settings an integer conversion passes on: no '0' flag with a precision, no precision without the flag. */
  predicate HashSettings(base: nat, prec: nat, width: nat, fl: Flags) {
    fl.hash && !fl.plus && !fl.space && base in {2, 8, 16}
    && (if fl.precision then !fl.zeropad else prec == 0)
  }

  /** What stands in the buffer after the cut. */
  lemma CutIs(digits: string, base: nat, prec: nat, width: nat, fl: Flags)
    requires digits != "" && |digits| <= NTOA_BUFFER && HashSettings(base, prec, width, fl)
    ensures var n := |digits|;
            var zeros := PadCount(n, prec, width, fl);
            var cut := CutCount(n + zeros, base, width, fl);
            var t := Cut(ZeroPadded(digits, false, prec, width, fl), base, prec, width, fl);
            |t| == n + zeros - cut && |t| <= NTOA_BUFFER && (cut <= zeros ==> t == digits + Repeat('0', zeros - cut))
  {
    var n := |digits|;
    var zeros := PadCount(n, prec, width, fl);
    var s := ZeroPadded(digits, false, prec, width, fl);
    assert s == digits + Repeat('0', zeros) by {
      if !fl.left && fl.zeropad {
        assert Pad(Pad(digits, prec), width) == Pad(Pad(digits, Min(prec, NTOA_BUFFER)), Min(width, NTOA_BUFFER));
        PadPad(digits, Min(prec, NTOA_BUFFER), Min(width, NTOA_BUFFER));
      }
    }
  }

  /** With '#' a number stands with its prefix and all its digits exactly if none of the digits is cut off and the
      prefix has room. */
  lemma HashIff(digits: string, base: nat, prec: nat, width: nat, fl: Flags)
    requires digits != "" && |digits| <= NTOA_BUFFER && HashSettings(base, prec, width, fl)
    ensures HashRight(Reverse(Reversed(digits, false, base, prec, width, fl)), digits, base, fl)
       <==> HashKeeps(|digits|, base, prec, width, fl)
  {
    hide Cut;
    hide ZeroPadded;
    hide HashRight;
    hide HashPrefix;
    hide Repeat;
    hide Reverse;
    hide Pushed;
    hide PadCount;
    hide CutCount;
    var n := |digits|;
    var zeros := PadCount(n, prec, width, fl);
    var cut := CutCount(n + zeros, base, width, fl);
    var t := Cut(ZeroPadded(digits, false, prec, width, fl), base, prec, width, fl);
    CutIs(digits, base, prec, width, fl);
    PrefixText(t, base, fl);
    if HashKeeps(n, base, prec, width, fl) {
      if |t| + |HashPrefix(base, fl)| <= NTOA_BUFFER {
        HashText(digits, zeros - cut, base, fl);
      } else {
        OctalFull(t, digits, zeros - cut, fl);
      }
    } else {
      HashFails(t, digits, zeros, cut, base, prec, width, fl);
    }
  }

  /** The buffer with the prefix, turned round. */
  ghost function WithPrefix(t: string, base: nat, fl: Flags): string {
    var u := if base == 16 then Pushed(t, if fl.upper then 'X' else 'x') else if base == 2 then Pushed(t, 'b') else t;
    Reverse(Pushed(u, '0'))
  }

  lemma PrefixText(t: string, base: nat, fl: Flags)
    requires |t| <= NTOA_BUFFER
    ensures |WithPrefix(t, base, fl)| <= NTOA_BUFFER && |WithPrefix(t, base, fl)| <= |t| + |HashPrefix(base, fl)|
    ensures |t| + |HashPrefix(base, fl)| <= NTOA_BUFFER ==>
              WithPrefix(t, base, fl) == HashPrefix(base, fl) + Reverse(t)
  {
  }

  lemma HashText(digits: string, z: nat, base: nat, fl: Flags)
    ensures HashRight(HashPrefix(base, fl) + Reverse(digits + Repeat('0', z)), digits, base, fl)
  {
    ReverseConcat(digits, Repeat('0', z));
    ReverseRepeat('0', z);
    var p, zs, ds := HashPrefix(base, fl), Repeat('0', z), Reverse(digits);
    assert p + (zs + ds) == p + zs + ds;
  }

  /** With the buffer full of zeros and octal digits, the first zero is the prefix. */
  lemma OctalFull(t: string, digits: string, z: nat, fl: Flags)
    requires t == digits + Repeat('0', z) && |t| <= NTOA_BUFFER < |t| + |HashPrefix(8, fl)| && z > 0
    ensures HashRight(WithPrefix(t, 8, fl), digits, 8, fl)
  {
    ReverseConcat(digits, Repeat('0', z));
    ReverseRepeat('0', z);
    assert WithPrefix(t, 8, fl) == Reverse(t);
    assert Repeat('0', z) == "0" + Repeat('0', z - 1);
    assert HashPrefix(8, fl) == "0";
    assert WithPrefix(t, 8, fl) == HashPrefix(8, fl) + Repeat('0', z - 1) + Reverse(digits);
  }

  lemma HashFails(t: string, digits: string, zeros: nat, cut: nat, base: nat, prec: nat, width: nat, fl: Flags)
    requires digits != "" && |digits| <= NTOA_BUFFER && HashSettings(base, prec, width, fl)
    requires zeros == PadCount(|digits|, prec, width, fl) && cut == CutCount(|digits| + zeros, base, width, fl)
    requires |t| == |digits| + zeros - cut && (cut <= zeros ==> t == digits + Repeat('0', zeros - cut))
    requires !HashKeeps(|digits|, base, prec, width, fl)
    ensures !HashRight(WithPrefix(t, base, fl), digits, base, fl)
  {
    var text, p := WithPrefix(t, base, fl), HashPrefix(base, fl);
    PrefixText(t, base, fl);
    if z: nat :| text == p + Repeat('0', z) + Reverse(digits) {
      assert |text| >= |p| + |digits|;
      assert text[..|p|] == p;
      NoRoom(t, digits, zeros, cut, base, fl);
    }
  }

  lemma NoRoom(t: string, digits: string, zeros: nat, cut: nat, base: nat, fl: Flags)
    requires cut <= zeros && t == digits + Repeat('0', zeros - cut) && |t| <= NTOA_BUFFER && base in {2, 16}
    requires |digits| + 2 <= NTOA_BUFFER < |t| + 2
    ensures WithPrefix(t, base, fl)[..2] != HashPrefix(base, fl)
  {
    var text := WithPrefix(t, base, fl);
    if |t| == NTOA_BUFFER {
      assert text[1] == t[NTOA_BUFFER - 2] == '0';
    } else {
      assert text[0] != '0';
    }
  }

  /** A number as wide as its field loses digits: "%#4x" prints 0x1234 as "0x34". */
  lemma HashLosesDigits()
    ensures Field("4321", false, 16, 0, 4, NO_FLAGS.(hash := true)) == "0x34"
    ensures !HashKeeps(4, 16, 0, 4, NO_FLAGS.(hash := true))
  {
    var fl := NO_FLAGS.(hash := true);
    assert Cut("4321", 16, 0, 4, fl) == "43";
    assert Pushed("43", 'x') == "43x" && Pushed("43x", '0') == "43x0";
    assert Reverse("43x0") == "0x34";
  }
}
