/** The boot ROM images (`gen_rom.py`): a C array of 32-bit words and a SystemVerilog array of 64-bit words. */
module BootRom {
  import opened Arith
  import opened Common

  // ----- Numbers and text ------------------------------------------------------------

  /** The number that bytes denote, least significant byte first. */
  function Little(bytes: seq<byte>): nat {
    if bytes == [] then 0 else bytes[0] + 0x100 * Little(bytes[1..])
  }

  function HexDigit(d: nat): char
    requires d < 16
  {
    "0123456789abcdef"[d]
  }

  /** `bytes.hex()` */
  function Hex(bytes: seq<byte>): string {
    if bytes == [] then ""
    else
      var b := bytes[|bytes| - 1];
      Hex(bytes[..|bytes| - 1]) + [HexDigit(b / 16), HexDigit(b % 16)]
  }

  function HexDigitValue(c: char): nat {
    if '0' <= c <= '9' then (c - '0') as nat else if 'a' <= c <= 'f' then (c - 'a') as nat + 10 else 0
  }

  /** The number a hexadecimal literal denotes; underscores do not count. */
  function HexValue(text: string): nat {
    if text == "" then 0
    else if text[|text| - 1] == '_' then HexValue(text[..|text| - 1])
    else HexValue(text[..|text| - 1]) * 16 + HexDigitValue(text[|text| - 1])
  }

  lemma HexDigitIs(d: nat)
    requires d < 16
    ensures HexDigitValue(HexDigit(d)) == d && HexDigit(d) != '_'
  {
  }

  lemma ValueSnoc(text: string, c: char)
    ensures HexValue(text + [c]) == if c == '_' then HexValue(text) else HexValue(text) * 16 + HexDigitValue(c)
  {
    assert (text + [c])[..|text|] == text;
  }

  /** What reading a literal is, digit by digit. */
  lemma HexValueIs(text: string, d: nat)
    requires d < 16
    ensures HexValue("") == 0 && HexValue(text + "_") == HexValue(text)
    ensures HexValue(text + ["0123456789abcdef"[d]]) == HexValue(text) * 16 + d
  {
    hide HexValue;
    ValueSnoc(text, '_');
    ValueSnoc(text, "0123456789abcdef"[d]);
    HexDigitIs(d);
    NoDigits();
  }

  lemma NoDigits()
    ensures HexValue("") == 0
  {
  }

  /** The digits of one more byte. */
  lemma ValueByte(text: string, b: byte)
    ensures HexValue(text + [HexDigit(b / 16), HexDigit(b % 16)]) == HexValue(text) * 0x100 + b
  {
    hide HexValue;
    hide HexDigit;
    var hi, lo := HexDigit(b / 16), HexDigit(b % 16);
    HexDigitIs(b / 16);
    HexDigitIs(b % 16);
    ValueSnoc(text, hi);
    ValueSnoc(text + [hi], lo);
    assert text + [hi, lo] == text + [hi] + [lo];
  }

  /** Hexadecimal digits of bytes after a prefix. */
  lemma {:induction false} HexAppend(prefix: string, bytes: seq<byte>)
    ensures HexValue(prefix + Hex(Reverse(bytes))) == HexValue(prefix) * Pow(0x100, |bytes|) + Little(bytes)
  {
    hide HexValue;
    hide HexDigit;
    hide Hex;
    hide Little;
    hide Pow;
    HexStep(bytes);
    PowUnfold(0x100, |bytes|);
    if bytes == [] {
      assert prefix + "" == prefix;
    } else {
      var b, rest, h := bytes[0], bytes[1..], HexValue(prefix);
      var digits, two := Hex(Reverse(rest)), [HexDigit(b / 16), HexDigit(b % 16)];
      HexAppend(prefix, rest);
      ValueByte(prefix + digits, b);
      assert prefix + (digits + two) == prefix + digits + two;
      OneByteMore(h, Pow(0x100, |rest|), Little(rest), b);
    }
  }

  lemma HexStep(bytes: seq<byte>)
    ensures bytes == [] ==> Hex(Reverse(bytes)) == "" && Little(bytes) == 0
    ensures bytes != [] ==>
              Hex(Reverse(bytes)) == Hex(Reverse(bytes[1..])) + [HexDigit(bytes[0] / 16), HexDigit(bytes[0] % 16)]
              && Little(bytes) == bytes[0] + 0x100 * Little(bytes[1..])
  {
    hide HexDigit;
    if bytes != [] {
      assert Reverse(bytes)[..|bytes| - 1] == Reverse(bytes[1..]);
    }
  }

  lemma OneByteMore(h: nat, p: nat, low: nat, b: byte)
    ensures (h * p + low) * 0x100 + b == h * (0x100 * p) + (b + 0x100 * low)
  {
    MulAssoc(h, p, 0x100);
    assert p * 0x100 == 0x100 * p;
  }

  lemma HexIs(bytes: seq<byte>)
    ensures HexValue(Hex(Reverse(bytes))) == Little(bytes)
  {
    hide Hex;
    hide Reverse;
    hide Little;
    hide Pow;
    HexAppend("", bytes);
    assert "" + Hex(Reverse(bytes)) == Hex(Reverse(bytes));
  }

  // ----- The script ------------------------------------------------------------------

  /** The image filled up with zeros to a multiple of eight bytes. */
  function Padded(image: seq<byte>): (rom: seq<byte>)
    ensures |rom| % 8 == 0 && |image| <= |rom| < |image| + 8
    ensures rom[..|image|] == image && forall i :: |image| <= i < |rom| ==> rom[i] == 0
  {
    image + seq((|image| + 7) / 8 * 8 - |image|, _ => 0)
  }

  /** `read_bin` */
  method ReadBin(image: seq<byte>) returns (rom: seq<byte>)
    ensures rom == Padded(image)
  {
    rom := image;
    var align := (|image| + 7) / 8 * 8;
    for i := |image| to align
      invariant rom == image + seq(i - |image|, _ => 0)
    {
      rom := rom + [0];
    }
  }

  /** The word of the C array at index `i`. */
  function Word32(rom: seq<byte>, i: nat): nat
    requires 4 * i + 4 <= |rom|
  {
    Little(rom[4 * i..4 * i + 4])
  }

  /** The word of the SystemVerilog array at index `k`. */
  function Word64(rom: seq<byte>, k: nat): nat
    requires 8 * k + 8 <= |rom|
  {
    Little(rom[8 * k..8 * k + 8])
  }

  /** `generate_h`: the literals of the C array without their "0x". */
  method GenerateH(rom: seq<byte>) returns (entries: seq<string>)
    ensures |entries| == |rom| / 4 && forall i :: 0 <= i < |entries| ==> HexValue(entries[i]) == Word32(rom, i)
  {
    hide HexValue;
    hide Hex;
    hide Little;
    hide Reverse;
    entries := [];
    for i := 0 to |rom| / 4
      invariant |entries| == i && forall j :: 0 <= j < i ==> HexValue(entries[j]) == Word32(rom, j)
    {
      var word := rom[i * 4..i * 4 + 4];
      HexIs(word);
      entries := entries + [Hex(Reverse(word))];
    }
  }

  /** `generate_sv`: the literals without their "64'h". In the concatenation that initialises `mem`, the first
      literal is the element of the highest index. */
  method GenerateSv(rom0: seq<byte>) returns (entries: seq<string>)
    requires |rom0| % 8 == 0
    ensures |entries| == |rom0| / 8
    ensures forall k :: 0 <= k < |entries| ==> HexValue(entries[|entries| - 1 - k]) == Word64(rom0, k)
  {
    hide HexValue;
    hide Hex;
    hide Little;
    entries := [];
    var rom := Reverse(rom0);
    var n := |rom| / 8;
    for i := 0 to n
      invariant |entries| == i && forall j :: 0 <= j < i ==> HexValue(entries[j]) == Word64(rom0, n - 1 - j)
    {
      SvEntry(rom0, i);
      entries := entries + [Hex(rom[i * 8..i * 8 + 4]) + "_" + Hex(rom[i * 8 + 4..i * 8 + 8])];
    }
  }

  lemma SvEntry(rom: seq<byte>, i: nat)
    requires |rom| % 8 == 0 && i < |rom| / 8
    ensures var back := Reverse(rom);
            HexValue(Hex(back[i * 8..i * 8 + 4]) + "_" + Hex(back[i * 8 + 4..i * 8 + 8]))
              == Word64(rom, |rom| / 8 - 1 - i)
  {
    hide HexValue;
    hide Hex;
    hide Little;
    hide Pow;
    var k := 8 * (|rom| / 8 - 1 - i);
    var lo, hi := rom[k..k + 4], rom[k + 4..k + 8];
    BackSlice(rom, i * 8, 4);
    BackSlice(rom, i * 8 + 4, 4);
    HexIs(hi);
    ValueSnoc(Hex(Reverse(hi)), '_');
    HexAppend(Hex(Reverse(hi)) + "_", lo);
    LittleConcat(lo, hi);
    assert rom[k..k + 8] == lo + hi;
  }

  lemma BackSlice(rom: seq<byte>, i: nat, n: nat)
    requires i + n <= |rom|
    ensures Reverse(rom)[i..i + n] == Reverse(rom[|rom| - i - n..|rom| - i])
  {
    var l, r := Reverse(rom)[i..i + n], Reverse(rom[|rom| - i - n..|rom| - i]);
    forall k | 0 <= k < n ensures l[k] == r[k] {
      assert l[k] == Reverse(rom)[i + k] == rom[|rom| - 1 - (i + k)];
      assert r[k] == rom[|rom| - i - n..|rom| - i][n - 1 - k];
    }
  }

  lemma {:induction false} LittleConcat(a: seq<byte>, b: seq<byte>)
    ensures Little(a + b) == Little(a) + Pow(0x100, |a|) * Little(b)
  {
    if a == [] {
      assert a + b == b;
    } else {
      LittleConcat(a[1..], b);
      assert (a + b)[1..] == a[1..] + b;
      assert 0x100 * (Pow(0x100, |a| - 1) * Little(b)) == 0x100 * Pow(0x100, |a| - 1) * Little(b);
    }
  }

  /** A 64-bit word is two words of the C array. */
  lemma WordPair(rom: seq<byte>, k: nat)
    requires 8 * k + 8 <= |rom|
    ensures Word64(rom, k) == Word32(rom, 2 * k) + U32 * Word32(rom, 2 * k + 1)
  {
    var lo, hi := rom[8 * k..8 * k + 4], rom[8 * k + 4..8 * k + 8];
    LittleConcat(lo, hi);
    assert rom[8 * k..8 * k + 8] == lo + hi;
    assert Pow(0x100, 2) == 0x1_0000;
    assert Pow(0x100, 4) == U32;
  }

  // ----- Decoding --------------------------------------------------------------------

  /** The `n` low bytes of a word. */
  function BytesOf(word: nat, n: nat): (r: seq<byte>)
    ensures |r| == n
  {
    if n == 0 then [] else [word % 0x100] + BytesOf(word / 0x100, n - 1)
  }

  /** Byte `k` of a word, counted from its low end. */
  lemma {:induction false} BytesOfAt(word: nat, n: nat, k: nat)
    requires k < n
    ensures BytesOf(word, n)[k] == word / Pow(0x100, k) % 0x100
    decreases k
  {
    hide Pow;
    PowUnfold(0x100, k);
    if k > 0 {
      BytesOfAt(word / 0x100, n - 1, k - 1);
      DivTwice(word, 0x100, Pow(0x100, k - 1));
    } else {
      assert word / 1 == word;
    }
  }

  lemma DivTwice(n: nat, a: nat, b: nat)
    requires 0 < a && 0 < b
    ensures 0 < a * b && n / a / b == n / (a * b)
  {
    var q, r := n / a, n % a;
    var q', r' := q / b, q % b;
    MulAssoc(q', b, a);
    assert n == q * a + r && q == q' * b + r';
    assert q * a == q' * (a * b) + r' * a;
    MulMono(r' + 1, b, a);
    assert (r' + 1) * a == r' * a + a;
    DivUnique(n, a * b, q', r' * a + r);
  }

  lemma {:induction false} BytesOfLittle(bytes: seq<byte>)
    ensures BytesOf(Little(bytes), |bytes|) == bytes
  {
    if bytes != [] {
      BytesOfLittle(bytes[1..]);
      LowByte(bytes[0], Little(bytes[1..]));
      assert bytes == [bytes[0]] + bytes[1..];
    }
  }

  lemma LowByte(b: byte, rest: nat)
    ensures (b + 0x100 * rest) % 0x100 == b && (b + 0x100 * rest) / 0x100 == rest
  {
  }

  /** Both arrays hold the padded image: byte `j` of word `i` is byte `4i + j` or `8i + j` of it. */
  lemma Decodes(rom: seq<byte>, at: nat)
    requires |rom| % 8 == 0 && at < |rom|
    ensures BytesOf(Word32(rom, at / 4), 4)[at % 4] == rom[at]
    ensures BytesOf(Word64(rom, at / 8), 8)[at % 8] == rom[at]
  {
    hide Little;
    hide BytesOf;
    var i, k := at / 4, at / 8;
    BytesOfLittle(rom[4 * i..4 * i + 4]);
    BytesOfLittle(rom[8 * k..8 * k + 8]);
  }

  /** Byte `at` of the ROM as the C array has it. */
  function Byte32(resetVec: seq<string>, at: nat): byte
    requires at / 4 < |resetVec|
  {
    BytesOf(HexValue(resetVec[at / 4]), 4)[at % 4]
  }

  /** Byte `at` of the ROM as the SystemVerilog array has it, whose literals are listed last element first. */
  function Byte64(mem: seq<string>, at: nat): byte
    requires at / 8 < |mem|
  {
    BytesOf(HexValue(mem[|mem| - 1 - at / 8]), 8)[at % 8]
  }

  lemma ReadsBack(rom: seq<byte>, mem: seq<string>, resetVec: seq<string>, at: nat)
    requires |rom| % 8 == 0 && at < |rom| && |resetVec| == |rom| / 4 && |mem| == |rom| / 8
    requires HexValue(resetVec[at / 4]) == Word32(rom, at / 4)
             && HexValue(mem[|mem| - 1 - at / 8]) == Word64(rom, at / 8)
    ensures Byte32(resetVec, at) == rom[at] && Byte64(mem, at) == rom[at]
  {
    hide HexValue;
    hide BytesOf;
    hide Word32;
    hide Word64;
    Decodes(rom, at);
  }

  /** `main`: what the two generated files say of one image. Each has all its bytes, and then zeros. */
  method Generate(image: seq<byte>) returns (mem: seq<string>, resetVec: seq<string>)
    ensures |mem| == (|image| + 7) / 8 && |resetVec| == 2 * |mem|
    ensures forall k :: 0 <= k < |mem| ==>
              HexValue(mem[|mem| - 1 - k]) == HexValue(resetVec[2 * k]) + U32 * HexValue(resetVec[2 * k + 1])
    ensures forall at :: 0 <= at < 8 * |mem| ==> Byte32(resetVec, at) == if at < |image| then image[at] else 0
    ensures forall at :: 0 <= at < 8 * |mem| ==> Byte64(mem, at) == if at < |image| then image[at] else 0
  {
    hide HexValue;
    hide Byte32;
    hide Byte64;
    hide Word32;
    hide Word64;
    hide Padded;
    var rom := ReadBin(image);
    mem := GenerateSv(rom);
    resetVec := GenerateH(rom);
    PaddedLength(image);
    forall k | 0 <= k < |mem|
      ensures HexValue(mem[|mem| - 1 - k]) == HexValue(resetVec[2 * k]) + U32 * HexValue(resetVec[2 * k + 1])
    {
      WordPair(rom, k);
    }
    forall at | 0 <= at < 8 * |mem|
      ensures Byte32(resetVec, at) == Byte64(mem, at) == if at < |image| then image[at] else 0
    {
      PaddedAt(image, at);
      ReadsBack(rom, mem, resetVec, at);
    }
  }

  lemma PaddedLength(image: seq<byte>)
    ensures |Padded(image)| / 8 == (|image| + 7) / 8 && |Padded(image)| / 4 == 2 * (|Padded(image)| / 8)
    ensures |Padded(image)| == 8 * (|Padded(image)| / 8)
  {
  }

  lemma PaddedAt(image: seq<byte>, at: nat)
    requires at < |Padded(image)|
    ensures Padded(image)[at] == if at < |image| then image[at] else 0
  {
  }
}
