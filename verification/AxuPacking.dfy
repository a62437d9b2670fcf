/** Operand rows of the AXU: packed by `gen_input_data_axu.py`, written to the banked buffers by the test program
    (`my_axu_test/main.c`, `my_axu.h`). */
module AxuPacking {
  import opened Arith
  import opened MemRoutines

  const BANKS := 8
  const ROWS := 256
  const TOKENS_PER_BANK := 8
  const TOKENS_PER_ROW := 64

  // ----- Packing ---------------------------------------------------------------------

  /** A 16-bit token at place `k` of a word. */
  function Lane(v: bv64, k: nat): bv64
    requires k < 4
  {
    match k
    case 0 => v
    case 1 => v << 16
    case 2 => v << 32
    case _ => v << 48
  }

  function LaneOf(w: bv64, k: nat): bv64
    requires k < 4
  {
    match k
    case 0 => w & 0xFFFF
    case 1 => (w >> 16) & 0xFFFF
    case 2 => (w >> 32) & 0xFFFF
    case _ => (w >> 48) & 0xFFFF
  }

  /** A word with a token put in place `k`. */
  function WithLane(w: bv64, v: bv64, k: nat): bv64
    requires k < 4
  {
    w | Lane(v, k)
  }

  /** The low 16 bits of a number. */
  function Low16(tok: bv64): bv64 { tok & 0xFFFF }

  /** A token of 16 bits is kept as it is; of a longer one the low 16 bits. */
  lemma Low16Is(tok: bv64)
    ensures tok < 0x1_0000 ==> Low16(tok) == tok
    ensures Low16(tok) == tok % 0x1_0000
  {
    assert tok % 0x1_0000 == tok & 0xFFFF;
    assert tok < 0x1_0000 ==> tok & 0xFFFF == tok;
  }

  lemma OrLane(w: bv64, v: bv64, k: nat, j: nat)
    requires k < 4 && j < 4 && LaneOf(w, k) == 0
    ensures LaneOf(WithLane(w, Low16(v), k), j) == if j == k then Low16(v) else LaneOf(w, j)
  {
    hide WithLane;
    hide LaneOf;
    hide Low16;
    match k {
      case 0 => OrLane0(w, v);
      case 1 => OrLane1(w, v);
      case 2 => OrLane2(w, v);
      case _ => OrLane3(w, v);
    }
  }

  lemma OrLane0(w: bv64, v: bv64)
    requires LaneOf(w, 0) == 0
    ensures var u := WithLane(w, Low16(v), 0);
            LaneOf(u, 0) == Low16(v) && LaneOf(u, 1) == LaneOf(w, 1) && LaneOf(u, 2) == LaneOf(w, 2)
              && LaneOf(u, 3) == LaneOf(w, 3)
  {
  }

  lemma OrLane1(w: bv64, v: bv64)
    requires LaneOf(w, 1) == 0
    ensures var u := WithLane(w, Low16(v), 1);
            LaneOf(u, 0) == LaneOf(w, 0) && LaneOf(u, 1) == Low16(v) && LaneOf(u, 2) == LaneOf(w, 2)
              && LaneOf(u, 3) == LaneOf(w, 3)
  {
  }

  lemma OrLane2(w: bv64, v: bv64)
    requires LaneOf(w, 2) == 0
    ensures var u := WithLane(w, Low16(v), 2);
            LaneOf(u, 0) == LaneOf(w, 0) && LaneOf(u, 1) == LaneOf(w, 1) && LaneOf(u, 2) == Low16(v)
              && LaneOf(u, 3) == LaneOf(w, 3)
  {
  }

  lemma OrLane3(w: bv64, v: bv64)
    requires LaneOf(w, 3) == 0
    ensures var u := WithLane(w, Low16(v), 3);
            LaneOf(u, 0) == LaneOf(w, 0) && LaneOf(u, 1) == LaneOf(w, 1) && LaneOf(u, 2) == LaneOf(w, 2)
              && LaneOf(u, 3) == Low16(v)
  {
  }

  /** The two 64-bit words of a bank, low half first. */
  datatype Packed = Packed(lo: bv64, hi: bv64) {
    function Half(h: nat): bv64 { if h == 0 then lo else hi }
  }

  function Token(p: Packed, i: nat): bv64
    requires i < TOKENS_PER_BANK
  {
    LaneOf(p.Half(i / 4), i % 4)
  }

  /** One more token where there was none yet. */
  lemma PutToken(p: Packed, v: bv64, idx: nat, i: nat)
    requires idx < TOKENS_PER_BANK && i < TOKENS_PER_BANK && Token(p, idx) == 0
    ensures var q := if idx < 4 then p.(lo := WithLane(p.lo, Low16(v), idx))
                     else p.(hi := WithLane(p.hi, Low16(v), idx - 4));
            Token(q, i) == if i == idx then Low16(v) else Token(p, i)
  {
    hide WithLane;
    hide LaneOf;
    hide Low16;
    if i / 4 == idx / 4 {
      OrLane(p.Half(i / 4), v, idx % 4, i % 4);
    }
  }

  lemma NoTokens()
    ensures forall i :: 0 <= i < TOKENS_PER_BANK ==> Token(Packed(0, 0), i) == 0
  {
  }

  /** `pack_bank_tokens` */
  method PackBank(tokens: seq<bv64>) returns (p: Packed)
    requires |tokens| == TOKENS_PER_BANK
    ensures forall i :: 0 <= i < TOKENS_PER_BANK ==> Token(p, i) == Low16(tokens[i])
  {
    hide Token;
    hide Low16;
    p := Packed(0, 0);
    NoTokens();
    for idx := 0 to TOKENS_PER_BANK
      invariant forall i :: 0 <= i < TOKENS_PER_BANK ==> Token(p, i) == if i < idx then Low16(tokens[i]) else 0
    {
      var value := Low16(tokens[idx]);
      ghost var q := if idx < 4 then p.(lo := WithLane(p.lo, value, idx)) else p.(hi := WithLane(p.hi, value, idx - 4));
      forall i | 0 <= i < TOKENS_PER_BANK ensures Token(q, i) == if i == idx then value else Token(p, i) {
        PutToken(p, tokens[idx], idx, i);
      }
      if idx < 4 {
        p := p.(lo := WithLane(p.lo, value, idx));
      } else {
        p := p.(hi := WithLane(p.hi, value, idx - 4));
      }
    }
  }

  /** A packed row holds the tokens of a row. */
  ghost predicate Packs(row: seq<bv64>, p: seq<Packed>) {
    |row| == TOKENS_PER_ROW && |p| == BANKS
    && forall i :: 0 <= i < TOKENS_PER_ROW ==> Token(p[i / 8], i % 8) == Low16(row[i])
  }

  /** `pack_row` */
  method PackRow(row: seq<bv64>) returns (p: seq<Packed>)
    requires |row| == TOKENS_PER_ROW
    ensures Packs(row, p)
  {
    hide Token;
    hide Low16;
    p := [];
    for bank := 0 to BANKS
      invariant |p| == bank && forall i :: 0 <= i < bank * 8 ==> Token(p[i / 8], i % 8) == Low16(row[i])
    {
      var tokens := row[bank * 8..bank * 8 + 8];
      var q := PackBank(tokens);
      forall i | 0 <= i < bank * 8 + 8
        ensures Token((p + [q])[i / 8], i % 8) == Low16(row[i])
      {
        if i >= bank * 8 {
          assert i / 8 == bank && i % 8 == i - bank * 8 && tokens[i - bank * 8] == row[i];
        }
      }
      p := p + [q];
    }
  }

  // ----- The buffers -----------------------------------------------------------------

  const WORDS := 4096

  /** `axu_buf_word_offset`: each field is masked to its width, and the fields do not overlap. */
  function WordOffset(bank: nat, row: nat, half: nat): (off: nat)
    ensures off % WORD == 0 && off / WORD == WordNumber(bank % BANKS, row, half % 2)
  {
    bank % BANKS * 4096 + row % ROWS * 16 + half % 2 * WORD
  }

  /** The or of the fields, as `axu_buf_word_offset` writes it in 32 bits, is their sum: each is masked to its width,
      and no two overlap. */
  lemma FieldsApart(bank: bv32, row: bv32, half: bv32)
    ensures ((bank & 0x7) << 12) | ((row & 0xFF) << 4) | ((half & 0x1) << 3)
         == bank % 8 * 4096 + row % 256 * 16 + half % 2 * 8
  {
    assert bank % 8 == bank & 0x7 && row % 256 == row & 0xFF && half % 2 == half & 0x1;
    var b, r, h := bank & 0x7, row & 0xFF, half & 0x1;
    assert b * 4096 == b << 12 && r * 16 == r << 4 && h * 8 == h << 3;
  }

  /** The place of a word among the words of the buffer. */
  function WordNumber(bank: nat, row: nat, half: nat): (j: nat)
    requires bank < BANKS && half < 2
    ensures j < WORDS && j / 512 == bank && j / 2 % ROWS == row % ROWS && j % 2 == half
  {
    bank * 512 + row % ROWS * 2 + half
  }

  /** The buffer as words. */
  function Words(m: seq<bv8>): (ws: seq<bv64>)
    requires |m| == WORDS * WORD
    ensures |ws| == WORDS
  {
    seq(WORDS, j requires 0 <= j < WORDS => WordAt(m, j * WORD))
  }

  lemma StoreWord(m: seq<bv8>, j: nat, w: bv64)
    requires |m| == WORDS * WORD && j < WORDS
    ensures Words(Stored(m, j * WORD, w)) == Words(m)[j := w]
  {
    hide ByteOf;
    hide Word;
    WholeWord(w);
    forall i | 0 <= i < WORDS
      ensures Words(Stored(m, j * WORD, w))[i] == Words(m)[j := w][i]
    {
    }
  }

  lemma WholeWord(w: bv64)
    ensures Word(ByteOf(w, 0), ByteOf(w, 1), ByteOf(w, 2), ByteOf(w, 3), ByteOf(w, 4), ByteOf(w, 5), ByteOf(w, 6),
                 ByteOf(w, 7)) == w
  {
  }

  /** The buffer with the banks of a row put in their places. */
  function RowPut(ws: seq<bv64>, r: nat, row: seq<Packed>): (t: seq<bv64>)
    requires |ws| == WORDS
    ensures |t| == WORDS
  {
    seq(WORDS, j requires 0 <= j < WORDS =>
      if j / 2 % ROWS == r % ROWS && j / 512 < |row| then row[j / 512].Half(j % 2) else ws[j])
  }

  /** The buffer with rows put in it, one after another. */
  function RowsPut(ws: seq<bv64>, data: seq<seq<Packed>>): (t: seq<bv64>)
    requires |ws| == WORDS
    ensures |t| == WORDS
  {
    if data == [] then ws else RowPut(RowsPut(ws, data[..|data| - 1]), |data| - 1, data[|data| - 1])
  }

  lemma BankPut(ws: seq<bv64>, r: nat, row: seq<Packed>, b: nat)
    requires |ws| == WORDS && b < |row| <= BANKS
    ensures RowPut(ws, r, row[..b + 1])
         == RowPut(ws, r, row[..b])[WordNumber(b, r, 0) := row[b].lo][WordNumber(b, r, 1) := row[b].hi]
  {
    var t := RowPut(ws, r, row[..b + 1]);
    var u := RowPut(ws, r, row[..b])[WordNumber(b, r, 0) := row[b].lo][WordNumber(b, r, 1) := row[b].hi];
    forall j | 0 <= j < WORDS ensures t[j] == u[j] {
      BankPutAt(ws, r, row, b, j);
    }
  }

  lemma BankPutAt(ws: seq<bv64>, r: nat, row: seq<Packed>, b: nat, j: nat)
    requires |ws| == WORDS && b < |row| <= BANKS && j < WORDS
    ensures RowPut(ws, r, row[..b + 1])[j]
         == RowPut(ws, r, row[..b])[WordNumber(b, r, 0) := row[b].lo][WordNumber(b, r, 1) := row[b].hi][j]
  {
    hide WordNumber;
    PlaceOf(b, r, j);
    assert |row[..b + 1]| == b + 1 && |row[..b]| == b;
  }

  /** A word's place says which bank, row and half it belongs to. */
  lemma PlaceOf(b: nat, r: nat, j: nat)
    requires b < BANKS && j < WORDS
    ensures (j == WordNumber(b, r, 0) || j == WordNumber(b, r, 1)) <==> j / 512 == b && j / 2 % ROWS == r % ROWS
    ensures j == WordNumber(b, r, 0) ==> j % 2 == 0
    ensures j == WordNumber(b, r, 1) ==> j % 2 == 1
  {
    if j / 512 == b && j / 2 % ROWS == r % ROWS {
      assert j == 512 * (j / 512) + 2 * (j / 2 % ROWS) + j % 2;
    }
  }

  /** A store through `axu_buf64`. */
  method Put(buf: array<bv8>, bank: nat, row: nat, half: nat, w: bv64)
    requires buf.Length == WORDS * WORD && bank < BANKS && half < 2
    modifies buf
    ensures Words(buf[..]) == Words(old(buf[..]))[WordNumber(bank, row, half) := w]
  {
    hide Words;
    hide Stored;
    StoreWord(buf[..], WordNumber(bank, row, half), w);
    Store(buf, WordOffset(bank, row, half), w);
  }

  /** One buffer of `write_all_input_buffers`. */
  method WriteBuffer(buf: array<bv8>, data: seq<seq<Packed>>)
    requires buf.Length == WORDS * WORD && forall r :: 0 <= r < |data| ==> |data[r]| == BANKS
    modifies buf
    ensures Words(buf[..]) == RowsPut(Words(old(buf[..])), data)
  {
    hide Words;
    hide RowPut;
    hide WordNumber;
    ghost var ws := Words(buf[..]);
    for row := 0 to |data|
      invariant Words(buf[..]) == RowsPut(ws, data[..row])
    {
      ghost var before := Words(buf[..]);
      RowNone(before, row, data[row]);
      for b := 0 to BANKS
        invariant Words(buf[..]) == RowPut(before, row, data[row][..b])
      {
        BankPut(before, row, data[row], b);
        Put(buf, b, row, 0, data[row][b].lo);
        Put(buf, b, row, 1, data[row][b].hi);
      }
      assert data[row][..BANKS] == data[row];
      assert data[..row + 1][..row] == data[..row];
    }
    assert data[..|data|] == data;
  }

  lemma RowNone(ws: seq<bv64>, r: nat, row: seq<Packed>)
    requires |ws| == WORDS
    ensures RowPut(ws, r, row[..0]) == ws
  {
  }

  lemma RowPutAt(ws: seq<bv64>, n: nat, row: seq<Packed>, r: nat, b: nat, h: nat)
    requires |ws| == WORDS && |row| == BANKS && b < BANKS && h < 2
    ensures var j := WordNumber(b, r, h);
            RowPut(ws, n, row)[j] == if n % ROWS == r % ROWS then row[b].Half(h) else ws[j]
  {
  }

  lemma OtherPlace(n: nat, r: nat)
    requires r < n < r + ROWS
    ensures n % ROWS != r % ROWS
  {
  }

  /** A row is in the buffer if no later row has the same number modulo 256. */
  lemma {:induction false} RowKept(ws: seq<bv64>, data: seq<seq<Packed>>, r: nat, b: nat, h: nat)
    requires |ws| == WORDS && (forall i :: 0 <= i < |data| ==> |data[i]| == BANKS)
    requires r < |data| <= r + ROWS && b < BANKS && h < 2
    ensures RowsPut(ws, data)[WordNumber(b, r, h)] == data[r][b].Half(h)
    decreases |data|
  {
    hide RowPut;
    hide WordNumber;
    var n := |data| - 1;
    RowPutAt(RowsPut(ws, data[..n]), n, data[n], r, b, h);
    if r < n {
      RowKept(ws, data[..n], r, b, h);
      OtherPlace(n, r);
    }
  }

  /** A row is no longer in the buffer once 256 more have been written: a later one stands in its place. */
  lemma {:induction false} RowReplaced(ws: seq<bv64>, data: seq<seq<Packed>>, r: nat, b: nat, h: nat)
    returns (later: nat)
    requires |ws| == WORDS && (forall i :: 0 <= i < |data| ==> |data[i]| == BANKS)
    requires r + ROWS < |data| && b < BANKS && h < 2
    ensures r < later < |data| && RowsPut(ws, data)[WordNumber(b, r, h)] == data[later][b].Half(h)
    decreases |data|
  {
    hide RowPut;
    hide WordNumber;
    var n := |data| - 1;
    RowPutAt(RowsPut(ws, data[..n]), n, data[n], r, b, h);
    if n % ROWS == r % ROWS {
      later := n;
    } else {
      later := RowReplaced(ws, data[..n], r, b, h);
    }
  }

  /** All rows are in the buffer. */
  ghost predicate AllKept(ws: seq<bv64>, data: seq<seq<Packed>>)
    requires |ws| == WORDS && forall i :: 0 <= i < |data| ==> |data[i]| == BANKS
  {
    forall r, b, h :: 0 <= r < |data| && 0 <= b < BANKS && 0 <= h < 2 ==>
      RowsPut(ws, data)[WordNumber(b, r, h)] == data[r][b].Half(h)
  }

  function Uniform(w: bv64): (row: seq<Packed>)
    ensures |row| == BANKS && row[0] == Packed(w, w)
  {
    seq(BANKS, _ => Packed(w, w))
  }

  function FirstDiffers(n: nat): (data: seq<seq<Packed>>)
    ensures |data| == n && forall i :: 0 <= i < n ==> data[i] == Uniform(if i == 0 then 1 else 0)
  {
    seq(n, i => Uniform(if i == 0 then 1 else 0))
  }

  /** `n` rows all stay, whatever they hold, exactly if there are no more than 256. */
  lemma AllKeptIff(n: nat)
    ensures (forall ws: seq<bv64>, data: seq<seq<Packed>> ::
               |ws| == WORDS && |data| == n && (forall i :: 0 <= i < n ==> |data[i]| == BANKS) ==> AllKept(ws, data))
            <==> n <= ROWS
  {
    hide RowsPut;
    if n <= ROWS {
      forall ws: seq<bv64>, data: seq<seq<Packed>>
        | |ws| == WORDS && |data| == n && forall i :: 0 <= i < n ==> |data[i]| == BANKS
        ensures AllKept(ws, data)
      {
        forall r, b, h | 0 <= r < |data| && 0 <= b < BANKS && 0 <= h < 2
          ensures RowsPut(ws, data)[WordNumber(b, r, h)] == data[r][b].Half(h)
        {
          RowKept(ws, data, r, b, h);
        }
      }
    } else {
      FirstLost(n);
      assert |FirstDiffers(n)| == n;
    }
  }

  lemma FirstLost(n: nat)
    requires n > ROWS
    ensures !AllKept(seq(WORDS, _ => 0), FirstDiffers(n))
  {
    hide RowsPut;
    var ws, data := seq(WORDS, _ => 0), FirstDiffers(n);
    var later := RowReplaced(ws, data, 0, 0, 0);
    assert data[later][0].Half(0) == 0 && data[0][0].Half(0) == 1;
  }

  // ----- The tokens in memory --------------------------------------------------------

  function LowByte(v: bv64): bv8 { (v & 0xFF) as bv8 }

  function HighByte(v: bv64): bv8 { ((v >> 8) & 0xFF) as bv8 }

  lemma LowBytes(tok: bv64)
    ensures LowByte(Low16(tok)) == (tok & 0xFF) as bv8 && HighByte(Low16(tok)) == ((tok >> 8) & 0xFF) as bv8
  {
    assert (tok & 0xFFFF) & 0xFF == tok & 0xFF;
    assert ((tok & 0xFFFF) >> 8) & 0xFF == (tok >> 8) & 0xFF;
  }

  lemma LaneBytes(w: bv64, k: nat)
    requires k < 4
    ensures ByteOf(w, 2 * k) == LowByte(LaneOf(w, k)) && ByteOf(w, 2 * k + 1) == HighByte(LaneOf(w, k))
  {
    match k {
      case 0 => assert (w >> 8) & 0xFF == ((w & 0xFFFF) >> 8) & 0xFF;
      case 1 =>
      case 2 =>
      case _ =>
    }
  }

  /** Token `i` of row `r` stands in the buffer, low byte first, at 4096(i/8) + 16r + 2(i%8). */
  lemma TokenBytes(m: seq<bv8>, ws: seq<bv64>, rows: seq<seq<bv64>>, data: seq<seq<Packed>>, r: nat, i: nat)
    requires |m| == WORDS * WORD && |ws| == WORDS && |rows| == |data| <= ROWS && r < |rows| && i < TOKENS_PER_ROW
    requires (forall k :: 0 <= k < |data| ==> |data[k]| == BANKS) && Packs(rows[r], data[r])
    requires Words(m) == RowsPut(ws, data)
    ensures var at := 4096 * (i / 8) + 16 * r + 2 * (i % 8);
            && m[at] == LowByte(Low16(rows[r][i])) && m[at + 1] == HighByte(Low16(rows[r][i]))
            && m[at] == (rows[r][i] & 0xFF) as bv8 && m[at + 1] == ((rows[r][i] >> 8) & 0xFF) as bv8
  {
    hide RowsPut;
    hide WordAt;
    hide LaneOf;
    hide Low16;
    hide ByteOf;
    hide WordNumber;
    hide LowByte;
    hide HighByte;
    hide Words;
    hide Packs;
    hide Token;
    var bank, half, k := i / 8, i % 8 / 4, i % 4;
    TokenPlace(r, i);
    PackedLane(rows[r], data[r], i);
    LowBytes(rows[r][i]);
    LaneBytes(data[r][bank].Half(half), k);
    ByteInBuffer(m, ws, data, r, bank, half, 2 * k);
    ByteInBuffer(m, ws, data, r, bank, half, 2 * k + 1);
  }

  lemma PackedLane(row: seq<bv64>, p: seq<Packed>, i: nat)
    requires Packs(row, p) && i < TOKENS_PER_ROW
    ensures |row| == TOKENS_PER_ROW && |p| == BANKS
    ensures LaneOf(p[i / 8].Half(i % 8 / 4), i % 4) == Low16(row[i])
  {
    hide LaneOf;
    hide Low16;
    assert Token(p[i / 8], i % 8) == Low16(row[i]);
    assert i % 8 % 4 == i % 4;
  }

  lemma ByteInBuffer(m: seq<bv8>, ws: seq<bv64>, data: seq<seq<Packed>>, r: nat, bank: nat, half: nat, k: nat)
    requires |m| == WORDS * WORD && |ws| == WORDS && r < |data| <= ROWS && bank < BANKS && half < 2 && k < WORD
    requires (forall i :: 0 <= i < |data| ==> |data[i]| == BANKS) && Words(m) == RowsPut(ws, data)
    ensures WordNumber(bank, r, half) * WORD + k < |m|
    ensures m[WordNumber(bank, r, half) * WORD + k] == ByteOf(data[r][bank].Half(half), k)
  {
    hide RowsPut;
    hide WordAt;
    hide ByteOf;
    hide WordNumber;
    var j := WordNumber(bank, r, half);
    RowKept(ws, data, r, bank, half);
    assert WordAt(m, j * WORD) == Words(m)[j];
    WordAtBytes(m, j * WORD);
  }

  lemma TokenPlace(r: nat, i: nat)
    requires r < ROWS && i < TOKENS_PER_ROW
    ensures 4096 * (i / 8) + 16 * r + 2 * (i % 8) == WordNumber(i / 8, r, i % 8 / 4) * WORD + 2 * (i % 4)
  {
    var half, k := i % 8 / 4, i % 4;
    assert i % 8 == 4 * half + k;
    assert r % ROWS == r by { ModSmall(r, ROWS); }
  }

  // ----- Compact rows ----------------------------------------------------------------

  predicate Increasing(rows: seq<nat>) { forall i, j :: 0 <= i < j < |rows| ==> rows[i] < rows[j] }

  /** `{old: new for new, old in enumerate(rows)}` */
  method IndexMap(rows: seq<nat>) returns (m: map<nat, nat>)
    ensures m.Keys == set r | r in rows
    ensures forall r :: r in m ==> m[r] < |rows| && rows[m[r]] == r
  {
    m := map[];
    for i := 0 to |rows|
      invariant m.Keys == set r | r in rows[..i]
      invariant forall r :: r in m ==> m[r] < i && rows[m[r]] == r
    {
      assert rows[..i + 1] == rows[..i] + [rows[i]];
      m := m[rows[i] := i];
    }
    assert rows[..|rows|] == rows;
  }

  /** The rows a case needs, without the others. */
  function Compact<T>(full: seq<T>, rows: seq<nat>): (c: seq<T>)
    requires forall i :: 0 <= i < |rows| ==> rows[i] < |full|
    ensures |c| == |rows|
  {
    seq(|rows|, i requires 0 <= i < |rows| => full[rows[i]])
  }

  /** A run of consecutive rows is still consecutive in the compact array. */
  lemma {:induction false} RunStays<T>(full: seq<T>, rows: seq<nat>, at: nat, n: nat)
    requires Increasing(rows) && (forall i :: 0 <= i < |rows| ==> rows[i] < |full|) && at < |rows|
    requires forall r :: rows[at] <= r <= rows[at] + n ==> r in rows
    ensures at + n < |rows| && rows[at + n] == rows[at] + n && Compact(full, rows)[at + n] == full[rows[at] + n]
  {
    if n > 0 {
      RunStays(full, rows, at, n - 1);
      assert rows[at] + n in rows;
      var j :| 0 <= j < |rows| && rows[j] == rows[at] + n;
      assert j > at + n - 1;
    }
  }
}
