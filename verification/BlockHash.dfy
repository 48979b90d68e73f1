/** What MD5 and SHA-256 have in common: a block function folded over a padded message.
    The block function is any function, so what is proved holds of both. */
module BlockHash {
  import opened Options

  type byte = b: int | 0 <= b < 256

  const BLOCK: nat := 64

  /** The block function over data whose length is a multiple of 64. */
  function Blocks<S>(body: (S, seq<byte>) -> S, init: S, data: seq<byte>): S {
    if |data| < BLOCK then init
    else body(Blocks(body, init, data[..|data| - BLOCK]), data[|data| - BLOCK..])
  }

  /** The registers s stand for the whole blocks of data. */
  ghost predicate Stands<S>(body: (S, seq<byte>) -> S, init: S, data: seq<byte>, s: S) {
    |data| % BLOCK == 0 && s == Blocks(body, init, data)
  }

  lemma StandsNext<S>(body: (S, seq<byte>) -> S, init: S, data: seq<byte>, s: S, block: seq<byte>, next: seq<byte>)
    requires Stands(body, init, data, s) && |block| == BLOCK && next == data + block
    ensures Stands(body, init, next, body(s, block))
  {
    assert next[..|data|] == data && next[|data|..] == block;
  }

  function Zeros(n: nat): (s: seq<byte>)
    ensures |s| == n && forall i | 0 <= i < n :: s[i] == 0
  {
    seq(n, _ => 0)
  }

  /** Zero bytes between the 0x80 and the length, to end on a block boundary. */
  function Gap(n: nat): nat {
    (55 - n) % 64
  }

  /** Sections 3.1 and 3.2 of RFC 1321 and section 5.1.1 of FIPS 180-4: a one bit, zeros, and
      the length in bits modulo 2^64 as eight bytes. */
  function Padded(msg: seq<byte>, length: seq<byte>): seq<byte> {
    msg + [0x80] + Zeros(Gap(|msg|)) + length
  }

  /** What the padding is for: whole blocks, from which the message can be told, as long as the length
      field tells its length. */
  lemma PaddedBack(m1: seq<byte>, l1: seq<byte>, m2: seq<byte>, l2: seq<byte>)
    requires |l1| == |l2| == 8 && Padded(m1, l1) == Padded(m2, l2) && (l1 == l2 ==> |m1| == |m2|)
    ensures |Padded(m1, l1)| % BLOCK == 0 && m1 == m2
  {
    var (p, q) := (Padded(m1, l1), Padded(m2, l2));
    assert p[|p| - 8..] == l1 && q[|q| - 8..] == l2;
    assert p[..|m1|] == m1 && q[..|m2|] == m2;
  }

  /** Moving a whole block from the front of what is left. */
  lemma Regroup(done: seq<byte>, left: seq<byte>, n: nat)
    requires n <= |left|
    ensures done + left == (done + left[..n]) + left[n..]
  {}

  /** The front of a chunk completes the rest of the message before. */
  lemma Filled(whole: seq<byte>, rest: seq<byte>, chunk: seq<byte>, n: nat)
    requires n <= |chunk|
    ensures whole + (rest + chunk[..n]) + chunk[n..] == (whole + rest) + chunk
  {
    assert chunk == chunk[..n] + chunk[n..];
  }

  /** The padding that completes a message whose last, partial block is rest. */
  function Tail(rest: seq<byte>, length: seq<byte>): seq<byte>
    requires |rest| < BLOCK && |length| == 8
  {
    rest + [0x80] + Zeros(Gap(|rest|)) + length
  }

  lemma PaddedTail(whole: seq<byte>, rest: seq<byte>, length: seq<byte>)
    requires |whole| % BLOCK == 0 && |rest| < BLOCK && |length| == 8
    ensures Padded(whole + rest, length) == whole + Tail(rest, length)
  {
    assert Gap(|whole + rest|) == Gap(|rest|);
  }

  /** The padding fits in the last block, or spills into one more that starts with zeros. */
  lemma TailBlocks(rest: seq<byte>, length: seq<byte>)
    requires |rest| < BLOCK && |length| == 8
    ensures |rest| < 56 ==> Tail(rest, length) == rest + [0x80] + Zeros(55 - |rest|) + length
    ensures |rest| >= 56 ==>
              Tail(rest, length) == (rest + [0x80] + Zeros(63 - |rest|)) + (Zeros(56) + length)
  {
    if |rest| >= 56 {
      assert Zeros(Gap(|rest|)) == Zeros(63 - |rest|) + Zeros(56);
    }
  }

  /** Where the padding does not fit behind the rest. */
  lemma SpillTail(before: seq<byte>, after: seq<byte>, r: seq<byte>, length: seq<byte>)
    requires 56 <= |r| < BLOCK && |length| == 8
    requires after == before + (r + [0x80] + Zeros(63 - |r|))
    ensures after + Zeros(56) + length == before + Tail(r, length)
  {
    TailBlocks(r, length);
    var first := r + [0x80] + Zeros(63 - |r|);
    assert before + first + Zeros(56) + length == before + (first + (Zeros(56) + length));
  }

  // ---------- Numbers as bytes ----------

  function LittleEndian(v: nat, k: nat): (s: seq<byte>)
    ensures |s| == k
  {
    if k == 0 then [] else [v % 256] + LittleEndian(v / 256, k - 1)
  }

  function BigEndian(v: nat, k: nat): (s: seq<byte>)
    ensures |s| == k
  {
    if k == 0 then [] else BigEndian(v / 256, k - 1) + [v % 256]
  }

  function Pow256(k: nat): (p: nat)
    ensures p > 0
  {
    if k == 0 then 1 else 256 * Pow256(k - 1)
  }

  lemma DivModPow(low: nat, high: nat, p: nat)
    requires p > 0
    ensures (low + 256 * p * high) % 256 == low % 256
    ensures (low + 256 * p * high) / 256 == low / 256 + p * high
  {
    var x := p * high;
    assert 256 * p * high == 256 * x;
    assert low + 256 * x == 256 * (low / 256 + x) + low % 256;
  }

  /** A number put together from a low and a high half is written half by half. */
  lemma {:induction false} LittleEndianHalves(low: nat, high: nat, k: nat, m: nat)
    requires low < Pow256(k)
    ensures LittleEndian(low + Pow256(k) * high, k + m) == LittleEndian(low, k) + LittleEndian(high, m)
  {
    if k == 0 {
      assert low + Pow256(k) * high == high;
    } else {
      var p := Pow256(k - 1);
      DivModPow(low, high, p);
      LittleEndianHalves(low / 256, high, k - 1, m);
    }
  }

  lemma {:induction false} LittleEndianBack(v: nat, w: nat, k: nat)
    requires LittleEndian(v, k) == LittleEndian(w, k) && v < Pow256(k) && w < Pow256(k)
    ensures v == w
  {
    if k > 0 {
      assert LittleEndian(v, k)[0] == v % 256 && LittleEndian(w, k)[0] == w % 256;
      assert LittleEndian(v, k)[1..] == LittleEndian(v / 256, k - 1);
      assert LittleEndian(w, k)[1..] == LittleEndian(w / 256, k - 1);
      LittleEndianBack(v / 256, w / 256, k - 1);
    }
  }

  lemma {:induction false} BigEndianBack(v: nat, w: nat, k: nat)
    requires BigEndian(v, k) == BigEndian(w, k) && v < Pow256(k) && w < Pow256(k)
    ensures v == w
  {
    if k > 0 {
      assert BigEndian(v, k)[k - 1] == v % 256 && BigEndian(w, k)[k - 1] == w % 256;
      assert BigEndian(v, k)[..k - 1] == BigEndian(v / 256, k - 1);
      assert BigEndian(w, k)[..k - 1] == BigEndian(w / 256, k - 1);
      BigEndianBack(v / 256, w / 256, k - 1);
    }
  }

  lemma FieldIsEightBytes()
    ensures Pow256(FIELD) == WORD * WORD
  {
    WordIsFourBytes();
    assert Pow256(6) == 256 * (256 * Pow256(4));
    assert Pow256(8) == 256 * (256 * Pow256(6));
  }

  lemma {:induction false} BigEndianHalves(low: nat, high: nat, k: nat, m: nat)
    requires low < Pow256(k)
    ensures BigEndian(low + Pow256(k) * high, k + m) == BigEndian(high, m) + BigEndian(low, k)
  {
    if k == 0 {
      assert low + Pow256(k) * high == high;
    } else {
      var p := Pow256(k - 1);
      DivModPow(low, high, p);
      BigEndianHalves(low / 256, high, k - 1, m);
    }
  }

  const WORD: nat := 0x1_0000_0000     // a uint32_t
  const FIELD: nat := 8                // bytes in the length
  const HALF: nat := 4

  lemma WordIsFourBytes()
    ensures Pow256(HALF) == WORD
  {
    assert Pow256(2) == 65536;
    assert Pow256(4) == 256 * (256 * Pow256(2));
  }

  // ---------- A digest in print ----------

  function HexDigit(d: nat): char
    requires d < 16
  {
    "0123456789abcdef"[d]
  }

  /** 0 to 9, then a to f. */
  lemma HexDigitExact(d: nat)
    requires d < 16
    ensures HexDigit(d) as int == if d < 10 then '0' as int + d else 'a' as int + d - 10
  {}

  /** Two digits for every byte. */
  function Hex(s: seq<byte>): (r: string)
    ensures |r| == 2 * |s|
  {
    if s == [] then "" else Hex(s[..|s| - 1]) + [HexDigit(s[|s| - 1] / 16), HexDigit(s[|s| - 1] % 16)]
  }

  lemma DigitsDiffer(d: nat, e: nat)
    requires d < 16 && e < 16 && HexDigit(d) == HexDigit(e)
    ensures d == e
  {
    var digits := "0123456789abcdef";
    assert forall i, j | 0 <= i < j < 16 :: digits[i] < digits[j];
  }

  /** Different digests print differently. */
  lemma {:induction false} HexInjective(s: seq<byte>, t: seq<byte>)
    requires Hex(s) == Hex(t)
    ensures s == t
  {
    if s != [] && t != [] {
      var (a, b, m, n) := (s[|s| - 1], t[|t| - 1], |s| - 1, |t| - 1);
      assert Hex(s)[..2 * m] == Hex(s[..m]) && Hex(t)[..2 * n] == Hex(t[..n]);
      assert Hex(s)[2 * m] == HexDigit(a / 16) && Hex(s)[2 * m + 1] == HexDigit(a % 16);
      assert Hex(t)[2 * n] == HexDigit(b / 16) && Hex(t)[2 * n + 1] == HexDigit(b % 16);
      HexInjective(s[..m], t[..n]);
      DigitsDiffer(a / 16, b / 16);
      DigitsDiffer(a % 16, b % 16);
      assert s == s[..m] + [a] && t == t[..n] + [b];
    } else {
      assert |s| == |t|;
    }
  }

  const STRING_ROOM: nat := 65

  /** hash_string: None if there is no room for the digits and a NUL. */
  method HashString(buf: seq<byte>) returns (r: Option<string>)
    ensures r == if 2 * |buf| + 1 > STRING_ROOM then None else Some(Hex(buf))
  {
    if 2 * |buf| + 1 > STRING_ROOM {
      return None;
    }
    var str := "";
    for i := 0 to |buf|
      invariant str == Hex(buf[..i])
    {
      assert buf[..i + 1][..i] == buf[..i];
      str := str + [HexDigit(buf[i] / 16), HexDigit(buf[i] % 16)];
    }
    assert buf[..|buf|] == buf;
    r := Some(str);
  }
}
