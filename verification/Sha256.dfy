/** SHA256_Transform on 32-bit words (scripts/mkhash.c) against sections 4.1.2 and 6.2.2 of
    FIPS 180-4, for any table of round constants. */
module Sha256 {
  import opened Sha256Rounds
  import opened Words

  function Rotr(x: word, n: bv8): word
    requires 0 < n < 32
  {
    (x >> n) | (x << (32 - n))
  }

  function BigSigma0(x: word): word {
    Rotr(x, 2) ^ Rotr(x, 13) ^ Rotr(x, 22)
  }

  function BigSigma1(x: word): word {
    Rotr(x, 6) ^ Rotr(x, 11) ^ Rotr(x, 25)
  }

  function SmallSigma0(x: word): word {
    Rotr(x, 7) ^ Rotr(x, 18) ^ (x >> 3)
  }

  function SmallSigma1(x: word): word {
    Rotr(x, 17) ^ Rotr(x, 19) ^ (x >> 10)
  }

  /** Where single bits go, as section 4.1.2 of FIPS 180-4 has it: all four are made of moved bits. */
  lemma SigmaBits()
    ensures BigSigma0(1) == 0x4008_0400 && BigSigma1(1) == 0x0420_0080
    ensures SmallSigma0(1) == 0x0200_4000 && SmallSigma0(0x8000_0000) == 0x1100_2000
    ensures SmallSigma1(1) == 0x0000_a000 && SmallSigma1(0x8000_0000) == 0x0020_5000
  {}

  // ---------- The standard's Ch and Maj, and the program's ----------

  function Ch(x: word, y: word, z: word): word {
    (x & y) ^ (!x & z)
  }

  function Maj(x: word, y: word, z: word): word {
    (x & y) ^ (x & z) ^ (y & z)
  }

  function FastCh(x: word, y: word, z: word): word {
    (x & (y ^ z)) ^ z
  }

  function FastMaj(x: word, y: word, z: word): word {
    (x & (y | z)) | (y & z)
  }

  /** The majority from the bits where x counts and those where y and z agree. */
  lemma MajParts(x: word, y: word, z: word, p: word, q: word)
    requires p == x & (y ^ z)
    requires q == y & z
    ensures Maj(x, y, z) == p ^ q
  {}

  lemma FastMajParts(x: word, y: word, z: word, p: word, q: word)
    requires p == x & (y ^ z)
    requires q == y & z
    ensures FastMaj(x, y, z) == p | q
  {}

  lemma PartsDisjoint(x: word, y: word, z: word, p: word, q: word)
    requires p == x & (y ^ z)
    requires q == y & z
    ensures p & q == 0
  {}

  /** The program's choose is the standard's. */
  lemma ChSame(x: word, y: word, z: word)
    ensures FastCh(x, y, z) == Ch(x, y, z)
  {
    AndOverXor(x, y, z);
    XorAssociative(x & y, x & z, z);
    AndXorSelf(x, z);
  }

  /** The program's majority is the standard's. */
  lemma MajSame(x: word, y: word, z: word)
    ensures FastMaj(x, y, z) == Maj(x, y, z)
  {
    var p, q := x & (y ^ z), y & z;
    PartsDisjoint(x, y, z, p, q);
    Disjoint(p, q);
    MajParts(x, y, z, p, q);
    FastMajParts(x, y, z, p, q);
  }

  // ---------- Sums ----------

  function StandardSum(h: word, s: word, c: word, k: word, w: word): word {
    h + s + c + k + w
  }

  /** The macro adds to h the sum of the rest, with K and W added first. */
  function ProgramSum(h: word, s: word, c: word, k: word, w: word): word {
    h + (s + c + (w + k))
  }

  lemma SumsSame(h: word, s: word, c: word, k: word, w: word)
    ensures ProgramSum(h, s, c, k, w) == StandardSum(h, s, c, k, w)
  {}

  function T1(h: word, e: word, f: word, g: word, k: word, w: word): word {
    StandardSum(h, BigSigma1(e), Ch(e, f, g), k, w)
  }

  function T2(a: word, b: word, c: word): word {
    Sum(BigSigma0(a), Maj(a, b, c))
  }

  function FastT1(h: word, e: word, f: word, g: word, k: word, w: word): word {
    ProgramSum(h, BigSigma1(e), FastCh(e, f, g), k, w)
  }

  function FastT2(a: word, b: word, c: word): word {
    Sum(BigSigma0(a), FastMaj(a, b, c))
  }

  lemma T1Same(h: word, e: word, f: word, g: word, k: word, w: word)
    ensures FastT1(h, e, f, g, k, w) == T1(h, e, f, g, k, w)
  {
    ChSame(e, f, g);
    SumsSame(h, BigSigma1(e), Ch(e, f, g), k, w);
  }

  lemma T2Same(a: word, b: word, c: word)
    ensures FastT2(a, b, c) == T2(a, b, c)
  {
    MajSame(a, b, c);
  }

  function NextWord(w2: word, w7: word, w15: word, w16: word): word {
    SmallSigma1(w2) + w7 + SmallSigma0(w15) + w16
  }

  /** The first and the last round for the message "abc", whose digest is an example to FIPS 180-4, and
      the last word of its schedule. */
  lemma RoundExample()
    ensures T1(0x5be0_cd19, 0x510e_527f, 0x9b05_688c, 0x1f83_d9ab, 0x428a_2f98, 0x6162_6380) == 0x54da_50e8
    ensures T2(0x6a09_e667, 0xbb67_ae85, 0x3c6e_f372) == 0x0890_9ae5
    ensures T1(0xb21b_ad3d, 0xfb12_1210, 0x948d_25b6, 0x961f_4894, 0xc671_78f2, 0x12b1_edeb) == 0xa846_7f25
    ensures T2(0xd39a_2165, 0x04d2_4d6c, 0xb85e_2ce9) == 0xa827_b133
    ensures NextWord(0x668b_2ff8, 0xef57_b9cd, 0xfb3e_89cb, 0x065c_43da) == 0x12b1_edeb
  {}

  function Fips(): Arith<word> {
    Arith(T1, T2, Sum, NextWord)
  }

  function Program(): Arith<word> {
    Arith(FastT1, FastT2, Sum, NextWord)
  }

  /** The registers after the first round for "abc". */
  lemma FirstRound(v: seq<word>)
    requires v == [0x6a09_e667, 0xbb67_ae85, 0x3c6e_f372, 0xa54f_f53a, 0x510e_527f, 0x9b05_688c, 0x1f83_d9ab,
                   0x5be0_cd19]
    ensures Round(Fips(), v, 0x428a_2f98, 0x6162_6380) ==
            [0x5d6a_ebcd, 0x6a09_e667, 0xbb67_ae85, 0x3c6e_f372, 0xfa2a_4622, 0x510e_527f, 0x9b05_688c, 0x1f83_d9ab]
  {}

  /** The first words that its schedule adds. */
  lemma FirstWords(m: seq<word>)
    requires m == [0x6162_6380, 0, 0, 0, 0, 0, 0, 0, 0, 0, 0, 0, 0, 0, 0, 0x18]
    ensures Schedule(Fips(), m, 18) == m + [0x6162_6380, 0x000f_0000]
  {
    assert Schedule(Fips(), m, 16) == m;
    assert Schedule(Fips(), m, 17) == m + [0x6162_6380];
  }

  lemma RoundSame(v: seq<word>, k: word, w: word)
    requires |v| == 8
    ensures Round(Program(), v, k, w) == Round(Fips(), v, k, w)
  {
    T1Same(v[7], v[4], v[5], v[6], k, w);
    T2Same(v[0], v[1], v[2]);
  }

  lemma {:induction false} RoundsSame(k: seq<word>, w: seq<word>, init: seq<word>, t: nat)
    requires |k| == 64 && t <= |w| && t <= 64 && |init| == 8
    ensures Rounds(Program(), k, w, init, t) == Rounds(Fips(), k, w, init, t)
  {
    if t > 0 {
      RoundsSame(k, w, init, t - 1);
      RoundSame(Rounds(Program(), k, w, init, t - 1), k[t - 1], w[t - 1]);
    }
  }

  lemma {:induction false} ScheduleSame(m: seq<word>, n: nat)
    requires |m| == 16 && n >= 16
    ensures Schedule(Program(), m, n) == Schedule(Fips(), m, n)
  {
    if n > 16 {
      ScheduleSame(m, n - 1);
    }
  }

  /** SHA256_Transform is the standard's compression of one block. */
  method Sha256Transform(k: seq<word>, state: array<word>, m: seq<word>)
    requires |k| == 64 && state.Length == 8 && |m| == 16
    modifies state
    ensures state[..] == Transformed(Fips(), k, old(state[..]), m)
  {
    ScheduleSame(m, 64);
    RoundsSame(k, Schedule(Fips(), m, 64), state[..], 64);
    AddAllSame(state[..], Rounds(Fips(), k, Schedule(Fips(), m, 64), state[..], 64));
    Transform(Program(), k, state, m);
  }

  lemma AddAllSame(x: seq<word>, y: seq<word>)
    requires |x| == |y|
    ensures AddAll(Program(), x, y) == AddAll(Fips(), x, y)
  {}
}
