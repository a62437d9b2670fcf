/** Integer conversion (`_ntoa_long`, `_ntoa_long_long`, `_ntoa_format` of `printf.c`). */
module PrintfNtoa {
  import opened Common
  import opened PrintfOut

  const NTOA_BUFFER := 32

  /** The flags of a conversion. */
  datatype Flags = Flags(zeropad: bool, left: bool, plus: bool, space: bool, hash: bool, upper: bool, precision: bool)

  const NO_FLAGS := Flags(false, false, false, false, false, false, false)

  // ----- Digits ----------------------------------------------------------------------

  function DigitChar(d: nat, upper: bool): char
    requires d < 36
  {
    if d < 10 then '0' + d as char else (if upper then 'A' else 'a') + (d - 10) as char
  }

  function Low(value: nat, base: nat): (d: nat)
    requires 2 <= base
    ensures d < base
  {
    value % base
  }

  function Rest(value: nat, base: nat): nat
    requires 2 <= base
  {
    value / base
  }

  /** The digits of `value`, least significant first, at least one, at most `room`. */
  function Digits(value: nat, base: nat, upper: bool, room: nat): (s: string)
    requires 2 <= base <= 36
    ensures |s| <= room && (room > 0 ==> s != [])
    decreases room
  {
    if room == 0 then ""
    else
      var rest := Rest(value, base);
      [DigitChar(Low(value, base), upper)] + if rest == 0 then "" else Digits(rest, base, upper, room - 1)
  }

  /** The digits still to come. */
  function MoreDigits(value: nat, base: nat, upper: bool, room: nat): string
    requires 2 <= base <= 36
  {
    if value == 0 then "" else Digits(value, base, upper, room)
  }

  lemma DigitsStep(value: nat, base: nat, upper: bool, room: nat)
    requires 2 <= base <= 36 && room > 0
    ensures Digits(value, base, upper, room)
         == [DigitChar(Low(value, base), upper)] + MoreDigits(Rest(value, base), base, upper, room - 1)
  {
  }

  lemma DigitsNone(value: nat, base: nat, upper: bool)
    requires 2 <= base <= 36
    ensures Digits(value, base, upper, 0) == ""
  {
  }

  // ----- Field -----------------------------------------------------------------------

  function Pad(s: string, n: nat): (r: string)
    ensures |r| == if |s| < Min(n, NTOA_BUFFER) then Min(n, NTOA_BUFFER) else |s|
  {
    s + Repeat('0', Min(n, NTOA_BUFFER) - |s|)
  }

  /** The width left for digits when a sign takes one place of a zero-padded field. */
  function DigitWidth(negative: bool, width: nat, fl: Flags): nat {
    if !fl.left && width > 0 && fl.zeropad && (negative || fl.plus || fl.space) then width - 1 else width
  }

  function ZeroPadded(digits: string, negative: bool, prec: nat, width: nat, fl: Flags): string {
    if fl.left then digits
    else
      var s := Pad(digits, prec);
      if fl.zeropad then Pad(s, DigitWidth(negative, width, fl)) else s
  }

  /** A character more, if there is room for it. */
  function Pushed(s: string, c: char): (r: string)
    ensures |s| <= NTOA_BUFFER ==> |r| <= NTOA_BUFFER
  {
    if |s| < NTOA_BUFFER then s + [c] else s
  }

  /** Leading zeros give way to the prefix when they were what filled the precision or width. */
  function Cut(s: string, base: nat, prec: nat, width: nat, fl: Flags): (r: string)
    ensures |r| <= |s|
  {
    if !fl.precision && s != [] && (|s| == prec || |s| == width)
    then s[..|s| - if |s| > 1 && base == 16 then 2 else 1] else s
  }

  function Prefixed(s: string, base: nat, prec: nat, width: nat, fl: Flags): (r: string)
    ensures |s| <= NTOA_BUFFER ==> |r| <= NTOA_BUFFER
  {
    if !fl.hash then s
    else
      var t := Cut(s, base, prec, width, fl);
      var u := if base == 16 then Pushed(t, if fl.upper then 'X' else 'x') else if base == 2 then Pushed(t, 'b') else t;
      Pushed(u, '0')
  }

  function WithSign(s: string, negative: bool, fl: Flags): (r: string)
    ensures |s| <= NTOA_BUFFER ==> |r| <= NTOA_BUFFER
  {
    if negative then Pushed(s, '-') else if fl.plus then Pushed(s, '+') else if fl.space then Pushed(s, ' ') else s
  }

  /** The number as it stands reversed in the buffer, before spaces. */
  function Reversed(digits: string, negative: bool, base: nat, prec: nat, width: nat, fl: Flags): (r: string) {
    var padded := ZeroPadded(digits, negative, prec, width, fl);
    WithSign(Prefixed(padded, base, prec, DigitWidth(negative, width, fl), fl), negative, fl)
  }

  /** The reversed text turned round, with spaces up to `width` on the side the flags name. */
  ghost function Spaced(s: string, width: nat, fl: Flags): string {
    (if !fl.left && !fl.zeropad then Repeat(' ', width - |s|) else "")
    + Reverse(s)
    + if fl.left then Repeat(' ', width - |s|) else ""
  }

  /** The whole field. */
  ghost function Field(digits: string, negative: bool, base: nat, prec: nat, width: nat, fl: Flags): string {
    Spaced(Reversed(digits, negative, base, prec, width, fl), DigitWidth(negative, width, fl), fl)
  }

  /** An integer conversion: no prefix for zero, and nothing for zero with a precision. */
  ghost function IntField(value: nat, negative: bool, base: nat, prec: nat, width: nat, fl0: Flags): string
    requires 2 <= base <= 36
  {
    var fl := if value == 0 then fl0.(hash := false) else fl0;
    var digits := if fl.precision && value == 0 then "" else Digits(value, base, fl.upper, NTOA_BUFFER);
    Field(digits, negative, base, prec, width, fl)
  }

  // ----- The C functions -------------------------------------------------------------

  /** The padding loop `while (len < n && len < 32) buf[len++] = '0'`. */
  method PadZeros(buf: array<char>, len0: nat, n: nat) returns (len: nat)
    requires buf.Length == NTOA_BUFFER && len0 <= NTOA_BUFFER
    modifies buf
    ensures len <= NTOA_BUFFER && buf[..len] == Pad(old(buf[..len0]), n)
  {
    len := len0;
    while len < n && len < NTOA_BUFFER
      invariant len0 <= len <= NTOA_BUFFER && (len > len0 ==> len <= n)
      invariant buf[..len] == old(buf[..len0]) + Repeat('0', len - len0)
    {
      buf[len] := '0';
      len := len + 1;
      assert buf[..len] == buf[..len - 1] + ['0'];
    }
  }

  /** The guarded store `if (len < 32) buf[len++] = c`. */
  method Push(buf: array<char>, len0: nat, c: char) returns (len: nat)
    requires buf.Length == NTOA_BUFFER && len0 <= NTOA_BUFFER
    modifies buf
    ensures len <= NTOA_BUFFER && buf[..len] == Pushed(old(buf[..len0]), c)
  {
    len := len0;
    if len < NTOA_BUFFER {
      buf[len] := c;
      len := len + 1;
    }
  }

  /** The leading zeros of `_ntoa_format`; `width` loses the place of a sign. */
  method PadField(buf: array<char>, len0: nat, negative: bool, prec: nat, width0: nat, fl: Flags)
    returns (len: nat, width: nat)
    requires buf.Length == NTOA_BUFFER && len0 <= NTOA_BUFFER
    modifies buf
    ensures len <= NTOA_BUFFER && buf[..len] == ZeroPadded(old(buf[..len0]), negative, prec, width0, fl)
    ensures width == DigitWidth(negative, width0, fl)
  {
    hide Pad;
    len, width := len0, width0;
    if !fl.left {
      if width > 0 && fl.zeropad && (negative || fl.plus || fl.space) {
        width := width - 1;
      }
      len := PadZeros(buf, len, prec);
      if fl.zeropad {
        len := PadZeros(buf, len, width);
      }
    }
  }

  /** The '#' prefix, reversed. */
  method AddPrefix(buf: array<char>, len0: nat, base: nat, prec: nat, width: nat, fl: Flags) returns (len: nat)
    requires buf.Length == NTOA_BUFFER && len0 <= NTOA_BUFFER
    modifies buf
    ensures len <= NTOA_BUFFER && buf[..len] == Prefixed(old(buf[..len0]), base, prec, width, fl)
  {
    hide Pushed;
    len := len0;
    if fl.hash {
      if !fl.precision && len > 0 && (len == prec || len == width) {
        len := len - 1;
        if len > 0 && base == 16 {
          len := len - 1;
        }
      }
      assert buf[..len] == Cut(old(buf[..len0]), base, prec, width, fl);
      if base == 16 {
        len := Push(buf, len, if fl.upper then 'X' else 'x');
      } else if base == 2 {
        len := Push(buf, len, 'b');
      }
      len := Push(buf, len, '0');
    }
  }

  method AddSign(buf: array<char>, len0: nat, negative: bool, fl: Flags) returns (len: nat)
    requires buf.Length == NTOA_BUFFER && len0 <= NTOA_BUFFER
    modifies buf
    ensures len <= NTOA_BUFFER && buf[..len] == WithSign(old(buf[..len0]), negative, fl)
  {
    hide Pushed;
    len := len0;
    if negative {
      len := Push(buf, len, '-');
    } else if fl.plus {
      len := Push(buf, len, '+');
    } else if fl.space {
      len := Push(buf, len, ' ');
    }
  }

  /** The output half of `_ntoa_format`: the reversed text between spaces. */
  method PutField(buffer: array?<char>, idx: nat, maxlen: nat, buf: array<char>, len: nat, width: nat, fl: Flags,
                  ghost log: seq<nat>) returns (idx': nat, ghost log': seq<nat>)
    requires len <= buf.Length && buf != buffer && Fits(buffer, maxlen, idx + |Spaced(buf[..len], width, fl)|)
    modifies buffer
    ensures idx' == idx + |Spaced(old(buf[..len]), width, fl)|
    ensures Now(buffer, log')
         == Emit(old(Now(buffer, log)), idx, Spaced(old(buf[..len]), width, fl), Bound(buffer, maxlen))
  {
    hide Repeat;
    hide Emit;
    hide Now;
    hide Reverse;
    ghost var sink, bound, s := Now(buffer, log), Bound(buffer, maxlen), buf[..len];
    ghost var lead := if !fl.left && !fl.zeropad then Repeat(' ', width - len) else "";
    idx', log' := idx, log;
    EmitNothing(sink, idx, bound);
    if !fl.left && !fl.zeropad {
      idx', log' := OutRepeat(' ', width - len, buffer, idx', maxlen, log');
    }
    EmitConcat(sink, idx, lead, Reverse(s), bound);
    idx', log' := OutReversed(buf, len, buffer, idx', maxlen, log');
    if !fl.left {
      assert Spaced(s, width, fl) == lead + Reverse(s);
    } else {
      EmitConcat(sink, idx, lead + Reverse(s), Repeat(' ', width - len), bound);
    }
    if fl.left {
      idx', log' := OutRepeat(' ', width - (idx' - idx), buffer, idx', maxlen, log');
    }
  }

  /** `_ntoa_format`. */
  method NtoaFormat(buffer: array?<char>, idx: nat, maxlen: nat, buf: array<char>, len0: nat, negative: bool, base: nat,
                    prec: nat, width0: nat, fl: Flags, ghost log: seq<nat>) returns (idx': nat, ghost log': seq<nat>)
    requires buf.Length == NTOA_BUFFER && len0 <= NTOA_BUFFER && buf != buffer
    requires Fits(buffer, maxlen, idx + |Field(buf[..len0], negative, base, prec, width0, fl)|)
    modifies buffer, buf
    ensures var field := Field(old(buf[..len0]), negative, base, prec, width0, fl);
            idx' == idx + |field|
            && Now(buffer, log') == Emit(old(Now(buffer, log)), idx, field, Bound(buffer, maxlen))
  {
    hide Emit;
    hide ZeroPadded;
    hide Prefixed;
    hide WithSign;
    hide Spaced;
    var len, width := PadField(buf, len0, negative, prec, width0, fl);
    len := AddPrefix(buf, len, base, prec, width, fl);
    len := AddSign(buf, len, negative, fl);
    idx', log' := PutField(buffer, idx, maxlen, buf, len, width, fl, log);
  }

  /** `_ntoa_long` and `_ntoa_long_long`, which differ only in the type of `value`. */
  method Ntoa(buffer: array?<char>, idx: nat, maxlen: nat, value: nat, negative: bool, base: nat, prec: nat, width: nat,
              fl0: Flags, ghost log: seq<nat>) returns (idx': nat, ghost log': seq<nat>)
    requires 2 <= base <= 36
    requires Fits(buffer, maxlen, idx + |IntField(value, negative, base, prec, width, fl0)|)
    modifies buffer
    ensures var field := IntField(value, negative, base, prec, width, fl0);
            idx' == idx + |field|
            && Now(buffer, log') == Emit(old(Now(buffer, log)), idx, field, Bound(buffer, maxlen))
  {
    hide Emit;
    hide Field;
    hide Digits;
    var buf := new char[NTOA_BUFFER];
    var len, fl := 0, fl0;
    if value == 0 {
      fl := fl.(hash := false);
    }
    if !fl.precision || value != 0 {
      len := PutDigits(buf, value, base, fl.upper);
    }
    idx', log' := NtoaFormat(buffer, idx, maxlen, buf, len, negative, base, prec, width, fl, log);
  }

  /** The do-while loop over the digits. */
  method PutDigits(buf: array<char>, value0: nat, base: nat, upper: bool) returns (len: nat)
    requires buf.Length == NTOA_BUFFER && 2 <= base <= 36
    modifies buf
    ensures len <= NTOA_BUFFER && buf[..len] == Digits(value0, base, upper, NTOA_BUFFER)
  {
    hide MoreDigits;
    hide Digits;
    hide DigitChar;
    hide Low;
    hide Rest;
    var value: nat := value0;
    DigitsStep(value, base, upper, NTOA_BUFFER);
    buf[0] := DigitChar(Low(value, base), upper);
    len := 1;
    value := Rest(value, base);
    assert buf[..len] == [buf[0]];
    while value != 0 && len < NTOA_BUFFER
      invariant 1 <= len <= NTOA_BUFFER
      invariant Digits(value0, base, upper, NTOA_BUFFER)
                == buf[..len] + MoreDigits(value, base, upper, NTOA_BUFFER - len)
      decreases NTOA_BUFFER - len
    {
      ghost var before, c := buf[..len], DigitChar(Low(value, base), upper);
      MoreStep(value, base, upper, NTOA_BUFFER - len, before);
      buf[len] := DigitChar(Low(value, base), upper);
      len := len + 1;
      value := Rest(value, base);
      assert buf[..len] == before + [c];
    }
    NoMore(value, base, upper, NTOA_BUFFER - len);
    assert buf[..len] + "" == buf[..len];
  }

  lemma MoreStep(value: nat, base: nat, upper: bool, room: nat, before: string)
    requires 2 <= base <= 36 && value != 0 && room > 0
    ensures before + MoreDigits(value, base, upper, room)
         == before + [DigitChar(Low(value, base), upper)] + MoreDigits(Rest(value, base), base, upper, room - 1)
  {
    hide Digits;
    hide DigitChar;
    DigitsStep(value, base, upper, room);
  }

  lemma NoMore(value: nat, base: nat, upper: bool, room: nat)
    requires 2 <= base <= 36 && (value == 0 || room == 0)
    ensures MoreDigits(value, base, upper, room) == ""
  {
  }
}
