/** MD5_body of scripts/mkhash.c on one block, against section 3.4 of RFC 1321. */
module Md5Block {
  import opened BlockHash
  import opened Words

  /** The four registers. */
  datatype Regs<+W> = Regs(a: W, b: W, c: W, d: W)

  // ---------- The order of the steps, for any mixing of words ----------

  /** Which word of the block step t takes. */
  function Index(t: nat): (k: nat)
    ensures k < 16
  {
    if t < 16 then t
    else if t < 32 then (5 * t + 1) % 16
    else if t < 48 then (3 * t + 5) % 16
    else 7 * t % 16
  }

  /** Index of n steps from t on. */
  function Indices(t: nat, n: nat): seq<nat> {
    seq<nat>(n, i requires 0 <= i < n => Index(t + i))
  }

  /** The words of the last three rounds in order, as section 3.4 of RFC 1321 lists them. */
  lemma SecondRound()
    ensures Indices(16, 16) == [1, 6, 11, 0, 5, 10, 15, 4, 9, 14, 3, 8, 13, 2, 7, 12]
  {}

  lemma ThirdRound()
    ensures Indices(32, 16) == [5, 8, 11, 14, 1, 4, 7, 10, 13, 0, 3, 6, 9, 12, 15, 2]
  {}

  lemma FourthRound()
    ensures Indices(48, 16) == [0, 7, 14, 5, 12, 3, 10, 1, 8, 15, 6, 13, 4, 11, 2, 9]
  {}

  /** t steps, each of which replaces one register and passes the others on. */
  function Steps<W>(mix: (nat, W, W, W, W, W) -> W, x: seq<W>, init: Regs<W>, t: nat): Regs<W>
    requires |x| == 16
  {
    if t == 0 then init
    else
      var r := Steps(mix, x, init, t - 1);
      Regs(r.d, mix(t - 1, r.a, r.b, r.c, r.d, x[Index(t - 1)]), r.b, r.c)
  }

  /** The 64 steps: each writes over one register, and the registers take turns. */
  method StepsInPlace<W>(mix: (nat, W, W, W, W, W) -> W, x: seq<W>, init: Regs<W>) returns (r: Regs<W>)
    requires |x| == 16
    ensures r == Steps(mix, x, init, 64)
  {
    var (a, b, c, d) := (init.a, init.b, init.c, init.d);
    var t := 0;
    while t < 64
      invariant 0 <= t <= 64 && t % 4 == 0
      invariant Regs(a, b, c, d) == Steps(mix, x, init, t)
    {
      FourTurns(mix, x, init, t);
      a := mix(t, a, b, c, d, x[Index(t)]);
      d := mix(t + 1, d, a, b, c, x[Index(t + 1)]);
      c := mix(t + 2, c, d, a, b, x[Index(t + 2)]);
      b := mix(t + 3, b, c, d, a, x[Index(t + 3)]);
      t := t + 4;
    }
    r := Regs(a, b, c, d);
  }

  /** After four steps every register is back in its place. */
  lemma FourTurns<W>(mix: (nat, W, W, W, W, W) -> W, x: seq<W>, init: Regs<W>, t: nat)
    requires |x| == 16
    ensures var r := Steps(mix, x, init, t);
      var a := mix(t, r.a, r.b, r.c, r.d, x[Index(t)]);
      var d := mix(t + 1, r.d, a, r.b, r.c, x[Index(t + 1)]);
      var c := mix(t + 2, r.c, d, a, r.b, x[Index(t + 2)]);
      var b := mix(t + 3, r.b, c, d, a, x[Index(t + 3)]);
      Steps(mix, x, init, t + 4) == Regs(a, b, c, d)
  {
    var r := Steps(mix, x, init, t);
    var r1 := Steps(mix, x, init, t + 1);
    var r2 := Steps(mix, x, init, t + 2);
    var r3 := Steps(mix, x, init, t + 3);
    assert r1 == Regs(r.d, mix(t, r.a, r.b, r.c, r.d, x[Index(t)]), r.b, r.c);
    assert r2 == Regs(r1.d, mix(t + 1, r1.a, r1.b, r1.c, r1.d, x[Index(t + 1)]), r1.b, r1.c);
    assert r3 == Regs(r2.d, mix(t + 2, r2.a, r2.b, r2.c, r2.d, x[Index(t + 2)]), r2.b, r2.c);
  }

  lemma {:induction false} StepsSame<W>(f: (nat, W, W, W, W, W) -> W, g: (nat, W, W, W, W, W) -> W, x: seq<W>,
                                        init: Regs<W>, t: nat)
    requires |x| == 16 && forall k: nat, a, b, c, d, w :: f(k, a, b, c, d, w) == g(k, a, b, c, d, w)
    ensures Steps(f, x, init, t) == Steps(g, x, init, t)
  {
    if t > 0 {
      StepsSame(f, g, x, init, t - 1);
    }
  }

  // ---------- Words ----------

  function Constant(table: seq<word>, t: nat): word {
    if t < |table| then table[t] else 0
  }

  /** How far step t rotates. */
  function Shift(t: nat): (s: bv8)
    ensures 0 < s < 32
  {
    var row: seq<bv8> := if t < 16 then [7, 12, 17, 22] else if t < 32 then [5, 9, 14, 20]
      else if t < 48 then [4, 11, 16, 23] else [6, 10, 15, 21];
    row[t % 4]
  }

  function Rotl(x: word, n: bv8): word
    requires 0 < n < 32
  {
    (x << n) | (x >> (32 - n))
  }

  /** Section 3.4 of RFC 1321. */
  function F(x: word, y: word, z: word): word {
    (x & y) | (!x & z)
  }

  function G(x: word, y: word, z: word): word {
    (x & z) | (y & !z)
  }

  function H(x: word, y: word, z: word): word {
    (x ^ y) ^ z
  }

  function I(x: word, y: word, z: word): word {
    y ^ (x | !z)
  }

  /** The truth tables of the four functions of section 3.4: for every choice of three bits, one bit. */
  lemma TruthTables()
    ensures F(0xf0f0_f0f0, 0xcccc_cccc, 0xaaaa_aaaa) == 0xcaca_caca
    ensures G(0xf0f0_f0f0, 0xcccc_cccc, 0xaaaa_aaaa) == 0xe4e4_e4e4
    ensures H(0xf0f0_f0f0, 0xcccc_cccc, 0xaaaa_aaaa) == 0x9696_9696
    ensures I(0xf0f0_f0f0, 0xcccc_cccc, 0xaaaa_aaaa) == 0x3939_3939
  {}

  /** How far the steps of each round rotate, as section 3.4 lists them. */
  lemma Rotations(t: nat)
    requires t < 64 && t % 4 == 0
    ensures [Shift(t), Shift(t + 1), Shift(t + 2), Shift(t + 3)] ==
            if t < 16 then [7, 12, 17, 22] else if t < 32 then [5, 9, 14, 20]
            else if t < 48 then [4, 11, 16, 23] else [6, 10, 15, 21]
    ensures Rotl(0x8000_0001, 4) == 0x18
  {}

  /** The program's forms. */
  function FastF(x: word, y: word, z: word): word {
    z ^ (x & (y ^ z))
  }

  function FastG(x: word, y: word, z: word): word {
    y ^ (z & (x ^ y))
  }

  function H2(x: word, y: word, z: word): word {
    x ^ (y ^ z)
  }

  lemma FastFParts(x: word, y: word, z: word, m: word)
    requires m == x & (y ^ z)
    ensures FastF(x, y, z) == m ^ z
  {}

  lemma FParts(x: word, y: word, z: word, p: word, q: word)
    requires p == x & y
    requires q == !x & z
    ensures F(x, y, z) == p | q
  {}

  lemma NoCommonBits(x: word, y: word, z: word, p: word, q: word)
    requires p == x & y
    requires q == !x & z
    ensures p & q == 0
  {}

  lemma FSame(x: word, y: word, z: word)
    ensures FastF(x, y, z) == F(x, y, z)
  {
    var m, p, q := x & (y ^ z), x & y, !x & z;
    FastFParts(x, y, z, m);
    MixedParts(x, y, z, m, p, q);
    NoCommonBits(x, y, z, p, q);
    Disjoint(p, q);
    FParts(x, y, z, p, q);
  }

  lemma MixedParts(x: word, y: word, z: word, m: word, p: word, q: word)
    requires m == x & (y ^ z)
    requires p == x & y
    requires q == !x & z
    ensures m ^ z == p ^ q
  {
    AndOverXor(x, y, z);
    XorAssociative(x & y, x & z, z);
    AndXorSelf(x, z);
  }

  lemma GTurned(x: word, y: word, z: word)
    ensures G(x, y, z) == F(z, x, y)
  {}

  lemma GSame(x: word, y: word, z: word)
    ensures FastG(x, y, z) == G(x, y, z)
  {
    FSame(z, x, y);
    GTurned(x, y, z);
  }

  lemma HSame(x: word, y: word, z: word)
    ensures H2(x, y, z) == H(x, y, z)
  {}

  function Auxiliary(t: nat, x: word, y: word, z: word): word {
    if t < 16 then F(x, y, z) else if t < 32 then G(x, y, z) else if t < 48 then H(x, y, z) else I(x, y, z)
  }

  /** The odd steps of the third round associate the other way. */
  function FastAuxiliary(t: nat, x: word, y: word, z: word): word {
    if t < 16 then FastF(x, y, z)
    else if t < 32 then FastG(x, y, z)
    else if t < 48 then (if t % 2 == 0 then H(x, y, z) else H2(x, y, z))
    else I(x, y, z)
  }

  lemma AuxiliarySame(t: nat, x: word, y: word, z: word)
    ensures FastAuxiliary(t, x, y, z) == Auxiliary(t, x, y, z)
  {
    if t < 16 {
      FSame(x, y, z);
    } else if t < 32 {
      GSame(x, y, z);
    } else if t < 48 {
      HSame(x, y, z);
    }
  }

  function RfcSum(a: word, f: word, x: word, t: word): word {
    a + f + x + t
  }

  function StepSum(a: word, f: word, x: word, t: word): word {
    a + (f + x + t)
  }

  lemma SumsSame(a: word, f: word, x: word, t: word)
    ensures StepSum(a, f, x, t) == RfcSum(a, f, x, t)
  {}

  lemma SumTurn(x: word, y: word)
    ensures Sum(x, y) == Sum(y, x)
  {}

  /** The new value of a register, as the RFC has it. */
  function Mix(table: seq<word>, t: nat, a: word, b: word, c: word, d: word, x: word): word {
    Sum(b, Rotl(RfcSum(a, Auxiliary(t, b, c, d), x, Constant(table, t)), Shift(t)))
  }

  /** STEP: the register is added to, rotated and added to. */
  function FastMix(table: seq<word>, t: nat, a: word, b: word, c: word, d: word, x: word): word {
    Sum(Rotl(StepSum(a, FastAuxiliary(t, b, c, d), x, Constant(table, t)), Shift(t)), b)
  }

  lemma MixSame(table: seq<word>, t: nat, a: word, b: word, c: word, d: word, x: word)
    ensures FastMix(table, t, a, b, c, d, x) == Mix(table, t, a, b, c, d, x)
  {
    AuxiliarySame(t, b, c, d);
    SumsSame(a, Auxiliary(t, b, c, d), x, Constant(table, t));
    SumTurn(b, Rotl(RfcSum(a, Auxiliary(t, b, c, d), x, Constant(table, t)), Shift(t)));
  }

  function Mixing(table: seq<word>): (nat, word, word, word, word, word) -> word {
    (t: nat, a, b, c, d, x) => Mix(table, t, a, b, c, d, x)
  }

  function FastMixing(table: seq<word>): (nat, word, word, word, word, word) -> word {
    (t: nat, a, b, c, d, x) => FastMix(table, t, a, b, c, d, x)
  }

  // ---------- A block ----------

  /** Four bytes as a number, the lowest first. */
  function Number(b0: byte, b1: byte, b2: byte, b3: byte): (n: nat)
    ensures n < WORD
  {
    ((b3 as nat * 256 + b2) * 256 + b1) * 256 + b0
  }

  /** The bytes of the number in that order. */
  lemma NumberBytes(b0: byte, b1: byte, b2: byte, b3: byte)
    ensures LittleEndian(Number(b0, b1, b2, b3), 4) == [b0, b1, b2, b3]
  {
    var x := b3 as nat * 256 + b2;
    var y := x * 256 + b1;
    var n := y * 256 + b0;
    assert n % 256 == b0 && n / 256 == y && y % 256 == b1 && y / 256 == x && x % 256 == b2 && x / 256 == b3;
    assert LittleEndian(b3, 1) == [b3] && LittleEndian(x, 2) == [b2, b3] && LittleEndian(y, 3) == [b1, b2, b3];
  }

  /** SET. */
  function Decode32(b0: byte, b1: byte, b2: byte, b3: byte): word {
    Number(b0, b1, b2, b3) as word
  }

  /** The registers come out in order, each with its low byte first. */
  lemma EncodeExact(r: Regs<word>)
    ensures Encode(r)[..4] == LittleEndian(r.a as nat, 4) && Encode(r)[4..8] == LittleEndian(r.b as nat, 4)
    ensures Encode(r)[8..12] == LittleEndian(r.c as nat, 4) && Encode(r)[12..] == LittleEndian(r.d as nat, 4)
    ensures LittleEndian(0x0403_0201, 4) == [1, 2, 3, 4]
  {}

  function Decode(block: seq<byte>): (x: seq<word>)
    requires |block| == BLOCK
    ensures |x| == 16
  {
    seq(16, i requires 0 <= i < 16 => Decode32(block[4 * i], block[4 * i + 1], block[4 * i + 2], block[4 * i + 3]))
  }

  function AddAll<W>(add: (W, W) -> W, r: Regs<W>, s: Regs<W>): Regs<W> {
    Regs(add(r.a, s.a), add(r.b, s.b), add(r.c, s.c), add(r.d, s.d))
  }

  /** What the RFC makes of the registers with one block. */
  function Compress(table: seq<word>, state: Regs<word>, block: seq<byte>): Regs<word> {
    if |block| == BLOCK then AddAll(Sum, Steps(Mixing(table), Decode(block), state, 64), state) else state
  }

  function Compression(table: seq<word>): (Regs<word>, seq<byte>) -> Regs<word> {
    (state, block) => Compress(table, state, block)
  }

  /** The body of the loop in MD5_body. */
  method Body(table: seq<word>, state: Regs<word>, block: seq<byte>) returns (r: Regs<word>)
    requires |block| == BLOCK
    ensures r == Compression(table)(state, block)
  {
    forall t: nat, a, b, c, d, x
      ensures FastMix(table, t, a, b, c, d, x) == Mix(table, t, a, b, c, d, x)
    {
      MixSame(table, t, a, b, c, d, x);
    }
    StepsSame(FastMixing(table), Mixing(table), Decode(block), state, 64);
    r := StepsInPlace(FastMixing(table), Decode(block), state);
    r := AddAll(Sum, r, state);
  }

  /** Section 3.5 of RFC 1321: the registers as bytes, each from its low byte on. */
  function Encode(r: Regs<word>): (s: seq<byte>)
    ensures |s| == 16
  {
    LittleEndian(r.a as nat, 4) + LittleEndian(r.b as nat, 4) + LittleEndian(r.c as nat, 4)
    + LittleEndian(r.d as nat, 4)
  }
}
