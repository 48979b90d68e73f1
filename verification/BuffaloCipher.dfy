/** The stream cipher of the Buffalo firmware container (tools/firmware-utils/src/buffalo-lib.c):
    bcrypt_init, bcrypt_process and bcrypt_buf.  Bytes are integers below 256. */
module BuffaloCipher {

  type byte = x: int | 0 <= x < 256

  // ---------- Exclusive or ----------

  function Xor(a: nat, b: nat): nat
    decreases a + b
  {
    if a == 0 && b == 0 then 0 else (a + b) % 2 + 2 * Xor(a / 2, b / 2)
  }

  lemma {:induction false} XorBelow(a: nat, b: nat, limit: nat)
    requires a < limit && b < limit && (limit == 1 || limit % 2 == 0)
    requires limit > 1 ==> PowerOfTwo(limit)
    ensures Xor(a, b) < limit
    decreases a + b
  {
    if a != 0 || b != 0 {
      XorBelow(a / 2, b / 2, limit / 2);
    }
  }

  ghost predicate PowerOfTwo(n: nat) {
    n == 1 || (n > 1 && n % 2 == 0 && PowerOfTwo(n / 2))
  }

  lemma XorParts(a: nat, b: nat)
    ensures Xor(a, b) / 2 == Xor(a / 2, b / 2)
    ensures Xor(a, b) % 2 == (a + b) % 2
  {}

  lemma SameParts(a: nat, b: nat)
    requires a / 2 == b / 2 && a % 2 == b % 2
    ensures a == b
  {}

  lemma ParityTwice(a: nat, k: nat)
    ensures ((a + k) % 2 + k) % 2 == a % 2
  {}

  lemma ParityOfParity(x: nat, k: nat)
    ensures (x % 2 + k) % 2 == (x + k) % 2
  {}

  /** Applying the same mask twice changes nothing. */
  lemma {:induction false} XorTwice(a: nat, k: nat)
    ensures Xor(Xor(a, k), k) == a
    decreases a + k
  {
    if a != 0 || k != 0 {
      var x := Xor(a, k);
      XorTwice(a / 2, k / 2);
      XorParts(a, k);
      XorParts(x, k);
      ParityOfParity(x, k);
      ParityTwice(a, k);
      SameParts(Xor(x, k), a);
    }
  }

  function XorByte(a: byte, b: byte): byte {
    XorBelow(a, b, 256);
    Xor(a, b)
  }

  // ---------- Remainders ----------

  /** The remainder of a by n, by repeated subtraction: see ModIsRemainder. */
  function Mod(a: nat, n: nat): (r: nat)
    requires n > 0
    ensures r < n && r <= a
  {
    if a < n then a else Mod(a - n, n)
  }

  function AddMod(a: nat, b: nat, n: nat): (r: nat)
    requires n > 0
    ensures r < n
  {
    Mod(a + b, n)
  }

  lemma {:induction false} ModWitness(a: nat, n: nat) returns (q: nat)
    requires n > 0
    ensures a == q * n + Mod(a, n)
  {
    if a < n {
      q := 0;
    } else {
      q := ModWitness(a - n, n);
      assert (q + 1) * n == q * n + n;
      q := q + 1;
    }
  }

  lemma AtLeastOne(p: int, q: int, n: nat)
    requires p > q
    ensures p * n >= q * n + n
  {
    assert (p - q - 1) * n >= 0;
  }

  lemma ModIsRemainder(a: nat, n: nat)
    requires n > 0
    ensures Mod(a, n) == a % n
  {
    var q := ModWitness(a, n);
    var p := a / n;
    assert a == p * n + a % n;
    if p > q {
      AtLeastOne(p, q, n);
    } else if q > p {
      AtLeastOne(q, p, n);
    }
  }

  lemma {:induction false} ModNext(m: nat, n: nat)
    requires n > 0
    ensures Mod(Mod(m, n) + 1, n) == Mod(m + 1, n)
  {
    if m >= n {
      ModNext(m - n, n);
    }
  }

  // ---------- Any stream cipher ----------

  /** The state after k steps. */
  function After<C>(next: C -> C, c: C, k: nat): C
    decreases k
  {
    if k == 0 then c else next(After(next, c, k - 1))
  }

  /** A text encrypted: each byte is masked by the state of its step. */
  function Crypt<C>(next: C -> C, mask: (C, byte) -> byte, c: C, src: seq<byte>): (dst: seq<byte>)
    ensures |dst| == |src|
    decreases |src|
  {
    if src == [] then []
    else
      var k := |src| - 1;
      Crypt(next, mask, c, src[..k]) + [mask(After(next, c, k + 1), src[k])]
  }

  lemma CryptNext<C>(next: C -> C, mask: (C, byte) -> byte, c: C, src: seq<byte>, k: nat)
    requires k < |src|
    ensures Crypt(next, mask, c, src[..k + 1]) == Crypt(next, mask, c, src[..k]) + [mask(After(next, c, k + 1), src[k])]
  {
    assert src[..k + 1][..k] == src[..k];
  }

  /** The key stream does not depend on the text, so a cipher whose masks undo themselves is
      its own inverse. */
  lemma {:induction false} CryptTwice<C(!new)>(next: C -> C, mask: (C, byte) -> byte, c: C, src: seq<byte>)
    requires forall d: C, b: byte :: mask(d, mask(d, b)) == b
    ensures Crypt(next, mask, c, Crypt(next, mask, c, src)) == src
    decreases |src|
  {
    if src != [] {
      var (k, dst) := (|src| - 1, Crypt(next, mask, c, src));
      CryptTwice(next, mask, c, src[..k]);
      assert dst[..k] == Crypt(next, mask, c, src[..k]);
    }
  }

  lemma {:induction false} AfterKeeps<C(!new), P>(next: C -> C, part: C -> P, c: C, k: nat)
    requires forall d: C :: part(next(d)) == part(d)
    ensures part(After(next, c, k)) == part(c)
    decreases k
  {
    if k > 0 {
      AfterKeeps(next, part, c, k - 1);
    }
  }

  // ---------- The cipher as a function ----------

  function Swap(s: seq<byte>, a: nat, b: nat): (r: seq<byte>)
    requires a < |s| && b < |s|
    ensures |r| == |s|
  {
    s[a := s[b]][b := s[a]]
  }

  function Bag(s: seq<byte>): multiset<byte> {
    multiset(s)
  }

  lemma SwapBag(s: seq<byte>, a: nat, b: nat)
    requires a < |s| && b < |s|
    ensures Bag(Swap(s, a, b)) == Bag(s)
  {}

  /** The indices are bytes, also when the state is longer than that. */
  datatype Cipher = Cipher(i: byte, j: byte, state: seq<byte>)

  predicate Ready(c: Cipher) {
    c.i < |c.state| && c.j < |c.state|
  }

  function Initial(n: nat): (s: seq<byte>)
    ensures |s| == n
  {
    seq(n, i requires 0 <= i < n => i % 256)
  }

  /** Place m of the state trades its byte for one that the key picks. */
  function MixStep(key: seq<byte>, m: nat, st: (seq<byte>, nat)): (r: (seq<byte>, nat))
    requires key != [] && m < |st.0|
    ensures |r.0| == |st.0|
  {
    var k := Mod(st.1 + key[Mod(m, |key|)] + st.0[m], |st.0|);
    (Swap(st.0, m, k), k)
  }

  /** The state and its running index after the key was mixed into the first m places. */
  function Mixed(key: seq<byte>, n: nat, m: nat): (r: (seq<byte>, nat))
    requires key != [] && m <= n
    ensures |r.0| == n
  {
    if m == 0 then (Initial(n), 0) else MixStep(key, m - 1, Mixed(key, n, m - 1))
  }

  function Keyed(key: seq<byte>, n: nat): Cipher
    requires key != []
  {
    Cipher(0, 0, Mixed(key, n, n).0)
  }

  /** One step.  Without a state, there is none: bcrypt_process is then asked for no bytes. */
  function Next(c: Cipher): (r: Cipher)
    ensures |r.state| == |c.state|
    ensures c.state != [] ==> Ready(r)
  {
    var n := |c.state|;
    if n == 0 then c
    else
      var i := AddMod(c.i, 1, n) % 256;
      var j := AddMod(c.j, c.state[i], n) % 256;
      Cipher(i, j, Swap(c.state, i, j))
  }

  /** The byte of key stream that a step ends with. */
  function Output(c: Cipher): byte
    requires Ready(c)
  {
    c.state[AddMod(c.state[c.i], c.state[c.j], |c.state|)]
  }

  function Mask(c: Cipher, b: byte): byte {
    if Ready(c) then XorByte(b, Output(c)) else b
  }

  lemma MaskTwice(c: Cipher, b: byte)
    ensures Mask(c, Mask(c, b)) == b
  {
    if Ready(c) {
      XorTwice(b, Output(c));
    }
  }

  lemma NextBag(c: Cipher)
    ensures Bag(Next(c).state) == Bag(c.state)
  {
    if c.state != [] {
      SwapBag(c.state, Next(c).i, Next(c).j);
    }
  }

  /** A step can be taken back: what it did to the indices and the state is known afterwards. */
  lemma StepBack(c: Cipher)
    requires Ready(c) && |c.state| <= 256
    ensures var (d, n) := (Next(c), |c.state|);
      && Swap(d.state, d.i, d.j) == c.state
      && c.i == (d.i - 1) % n && c.j == (d.j - c.state[d.i]) % n
  {
    var (d, n) := (Next(c), |c.state|);
    IndexBack(c.i, 1, n);
    IndexBack(c.j, c.state[d.i], n);
    SwapTwice(c.state, d.i, d.j);
  }

  lemma IndexBack(a: nat, b: nat, n: nat)
    requires a < n <= 256
    ensures AddMod(a, b, n) % 256 == AddMod(a, b, n) && (AddMod(a, b, n) - b) % n == a
  {
    ModIsRemainder(a + b, n);
    TakenBack(a, b, n);
  }

  lemma SwapTwice(s: seq<byte>, a: nat, b: nat)
    requires a < |s| && b < |s|
    ensures Swap(Swap(s, a, b), a, b) == s
  {}

  lemma TakenBack(a: nat, b: nat, n: nat)
    requires a < n
    ensures ((a + b) % n - b) % n == a
  {
    var q := (a + b) / n;
    assert (a + b) % n - b == a - q * n;
    WholeTurns(a, q, n);
  }

  lemma {:induction false} WholeTurns(a: nat, q: nat, n: nat)
    requires a < n
    ensures (a - q * n) % n == a
  {
    if q > 0 {
      WholeTurns(a, q - 1, n);
      var m := a - (q - 1) * n;
      assert a - q * n == m - n;
      LessOne(m, n);
    }
  }

  lemma LessOne(m: int, n: nat)
    requires n > 0
    ensures (m - n) % n == m % n
  {
    var (p, q) := (m / n, (m - n) / n);
    assert m == p * n + m % n && m - n == q * n + (m - n) % n;
    assert (p - 1) * n + m % n == q * n + (m - n) % n;
    if p - 1 > q {
      AtLeastOne(p - 1, q, n);
    } else if q > p - 1 {
      AtLeastOne(q, p - 1, n);
    }
  }

  lemma MixStepBag(key: seq<byte>, m: nat, st: (seq<byte>, nat))
    requires key != [] && m < |st.0|
    ensures Bag(MixStep(key, m, st).0) == Bag(st.0)
  {
    SwapBag(st.0, m, MixStep(key, m, st).1);
  }

  lemma {:induction false} MixedKeeps<P>(part: seq<byte> -> P, key: seq<byte>, n: nat, m: nat)
    requires key != [] && m <= n
    requires forall l: nat, st: (seq<byte>, nat) | l < |st.0| :: part(MixStep(key, l, st).0) == part(st.0)
    ensures part(Mixed(key, n, m).0) == part(Initial(n))
  {
    if m > 0 {
      MixedKeeps(part, key, n, m - 1);
    }
  }

  /** One place of five mixed. */
  lemma MixedTo(key: seq<byte>, m: nat, s: seq<byte>, k: nat, k': nat, s': seq<byte>)
    requires |key| == 3 && m < 5 && Mixed(key, 5, m) == (s, k) && |s| == 5
    requires k' == (k + key[m % 3] + s[m]) % 5 && s' == Swap(s, m, k')
    ensures Mixed(key, 5, m + 1) == (s', k')
  {
    ModIsRemainder(m, 3);
    ModIsRemainder(k + key[m % 3] + s[m], 5);
  }

  /** The key 1, 2, 3 mixed into five places. */
  lemma KeyExample(key: seq<byte>)
    requires key == [1, 2, 3]
    ensures Mixed(key, 5, 5).0 == [1, 2, 4, 3, 0]
  {
    assert Initial(5) == [0, 1, 2, 3, 4];
    assert Swap([0, 1, 2, 3, 4], 0, 1) == [1, 0, 2, 3, 4];
    MixedTo(key, 0, [0, 1, 2, 3, 4], 0, 1, [1, 0, 2, 3, 4]);
    assert Swap([1, 0, 2, 3, 4], 1, 3) == [1, 3, 2, 0, 4];
    MixedTo(key, 1, [1, 0, 2, 3, 4], 1, 3, [1, 3, 2, 0, 4]);
    assert Swap([1, 3, 2, 0, 4], 2, 3) == [1, 3, 0, 2, 4];
    MixedTo(key, 2, [1, 3, 2, 0, 4], 3, 3, [1, 3, 0, 2, 4]);
    assert Swap([1, 3, 0, 2, 4], 3, 1) == [1, 2, 0, 3, 4];
    MixedTo(key, 3, [1, 3, 0, 2, 4], 3, 1, [1, 2, 0, 3, 4]);
    assert Swap([1, 2, 0, 3, 4], 4, 2) == [1, 2, 4, 3, 0];
    MixedTo(key, 4, [1, 2, 0, 3, 4], 1, 2, [1, 2, 4, 3, 0]);
  }

  /** The first steps after that. */
  lemma StepExample()
    ensures Next(Cipher(0, 0, [1, 2, 4, 3, 0])) == Cipher(1, 2, [1, 4, 2, 3, 0])
    ensures Next(Cipher(1, 2, [1, 4, 2, 3, 0])) == Cipher(2, 4, [1, 4, 0, 3, 2])
    ensures Next(Cipher(2, 4, [1, 4, 0, 3, 2])) == Cipher(3, 2, [1, 4, 3, 0, 2])
    ensures Output(Cipher(1, 2, [1, 4, 2, 3, 0])) == 4 && Output(Cipher(2, 4, [1, 4, 0, 3, 2])) == 0
    ensures Output(Cipher(3, 2, [1, 4, 3, 0, 2])) == 0
  {
    assert Swap([1, 2, 4, 3, 0], 1, 2) == [1, 4, 2, 3, 0];
    assert Swap([1, 4, 2, 3, 0], 2, 4) == [1, 4, 0, 3, 2];
    assert Swap([1, 4, 0, 3, 2], 3, 2) == [1, 4, 3, 0, 2];
  }

  /** However far it ran, the state is a rearrangement of 0, 1, 2, ... modulo 256. */
  lemma StateMultiset(key: seq<byte>, n: nat, k: nat)
    requires key != []
    ensures multiset(After(Next, Keyed(key, n), k).state) == multiset(Initial(n))
  {
    forall l: nat, st: (seq<byte>, nat) | l < |st.0|
      ensures Bag(MixStep(key, l, st).0) == Bag(st.0)
    {
      MixStepBag(key, l, st);
    }
    MixedKeeps(Bag, key, n, n);
    forall d: Cipher
      ensures Bag(Next(d).state) == Bag(d.state)
    {
      NextBag(d);
    }
    AfterKeeps(Next, (d: Cipher) => Bag(d.state), Keyed(key, n), k);
  }

  // ---------- The cipher in place ----------

  /** k of len places at src were worked off into done, at dst; nothing else changed. */
  ghost predicate Moving<T>(whole: seq<T>, now: seq<T>, src: nat, dst: nat, len: nat, k: nat, done: seq<T>) {
    && |now| == |whole| && dst <= src && src + len <= |whole| && k <= len
    && now[dst..dst + k] == done
    && now[src + k..src + len] == whole[src + k..src + len]
    && now[..dst] == whole[..dst] && now[dst + len..] == whole[dst + len..]
  }

  lemma MovingNext<T>(whole: seq<T>, now: seq<T>, src: nat, dst: nat, len: nat, k: nat, done: seq<T>, v: T)
    requires Moving(whole, now, src, dst, len, k, done) && k < len
    ensures now[src + k] == whole[src..src + len][k]
    ensures Moving(whole, now[dst + k := v], src, dst, len, k + 1, done + [v])
  {
    var next := now[dst + k := v];
    assert now[src + k] == now[src + k..src + len][0] == whole[src + k..src + len][0];
    assert next[dst..dst + k + 1] == now[dst..dst + k] + [v];
    assert next[src + k + 1..src + len] == now[src + k..src + len][1..];
    assert next[dst + len..] == now[dst + len..];
    assert next[..dst] == now[..dst];
  }

  /** k bytes of the text were encrypted. */
  ghost predicate Worked<C>(next: C -> C, mask: (C, byte) -> byte, c: C, whole: seq<byte>,
                            src: nat, dst: nat, len: nat, k: nat, now: seq<byte>, cur: C)
    requires src + len <= |whole| && k <= len
  {
    cur == After(next, c, k) && Moving(whole, now, src, dst, len, k, Crypt(next, mask, c, whole[src..src + len][..k]))
  }

  lemma Progress<C>(next: C -> C, mask: (C, byte) -> byte, c: C, whole: seq<byte>,
                    src: nat, dst: nat, len: nat, k: nat, now: seq<byte>, cur: C, now': seq<byte>, cur': C)
    requires src + len <= |whole| && k < len && Worked(next, mask, c, whole, src, dst, len, k, now, cur)
    requires cur' == next(cur) && now' == now[dst + k := mask(cur', now[src + k])]
    ensures Worked(next, mask, c, whole, src, dst, len, k + 1, now', cur')
  {
    var text := whole[src..src + len];
    CryptNext(next, mask, c, text, k);
    MovingNext(whole, now, src, dst, len, k, Crypt(next, mask, c, text[..k]), mask(cur', text[k]));
  }

  lemma Finished<C>(next: C -> C, mask: (C, byte) -> byte, c: C, whole: seq<byte>,
                    src: nat, dst: nat, len: nat, now: seq<byte>, cur: C)
    requires src + len <= |whole| && Worked(next, mask, c, whole, src, dst, len, len, now, cur)
    ensures cur == After(next, c, len) && |now| == |whole| && dst <= src
    ensures now[dst..dst + len] == Crypt(next, mask, c, whole[src..src + len])
    ensures now[..dst] == whole[..dst] && now[dst + len..] == whole[dst + len..]
  {
    assert whole[src..src + len][..len] == whole[src..src + len];
  }

  class BcryptCtx {
    var i: byte
    var j: byte
    var state: array<byte>

    ghost function Value(): Cipher
      reads this, state
    {
      Cipher(i, j, state[..])
    }

    /** bcrypt_init. */
    constructor (key: seq<byte>, stateLen: nat)
      requires key != []
      ensures fresh(state) && Value() == Keyed(key, stateLen)
    {
      i, j := 0, 0;
      state := new byte[stateLen];
      new;
      for m := 0 to stateLen
        invariant fresh(state) && state.Length == stateLen && i == 0 && j == 0
        invariant forall l | 0 <= l < m :: state[l] == l % 256
      {
        state[m] := m % 256;
      }
      assert state[..] == Initial(stateLen);
      MixKey(key);
    }

    /** The second loop of bcrypt_init. */
    method MixKey(key: seq<byte>)
      requires key != [] && state[..] == Initial(state.Length)
      modifies state
      ensures state[..] == Mixed(key, state.Length, state.Length).0
    {
      var n, m, l, k := state.Length, 0, 0, 0;
      while m < n
        invariant 0 <= m <= n && l == Mod(m, |key|)
        invariant (state[..], k) == Mixed(key, n, m)
      {
        k := MixPlace(key, m, l, k);
        ModNext(m, |key|);
        m, l := m + 1, Mod(l + 1, |key|);
      }
    }

    method MixPlace(key: seq<byte>, m: nat, l: nat, k0: nat) returns (k: nat)
      requires key != [] && m < state.Length && l == Mod(m, |key|)
      modifies state
      ensures (state[..], k) == MixStep(key, m, (old(state[..]), k0))
    {
      var t := state[m];
      k := Mod(k0 + key[l] + t, state.Length);
      state[m] := state[k];
      state[k] := t;
    }

    /** The body of bcrypt_process's loop up to the byte of key stream. */
    method Step() returns (mask: byte)
      requires state.Length > 0
      modifies this`i, this`j, state
      ensures Value() == Next(old(Value())) && mask == Output(Value())
    {
      var n := state.Length;
      i := AddMod(i, 1, n) % 256;
      j := AddMod(j, state[i], n) % 256;
      var t := state[j];
      state[j] := state[i];
      state[i] := t;
      mask := state[AddMod(state[i], state[j], n)];
    }

    /** The body of bcrypt_process's loop. */
    method Round(buf: array<byte>, from: nat, to: nat)
      requires buf != state && state.Length > 0 && from < buf.Length && to < buf.Length
      modifies this`i, this`j, state, buf
      ensures Value() == Next(old(Value()))
      ensures buf[..] == old(buf[..])[to := Mask(Value(), old(buf[from]))]
    {
      var mask := Step();
      buf[to] := XorByte(buf[from], mask);
    }

    /** bcrypt_process on two parts of one buffer, which may overlap if the target does not
        run ahead of the source. */
    method Process(buf: array<byte>, src: nat, dst: nat, len: nat)
      requires buf != state && (len > 0 ==> state.Length > 0)
      requires dst <= src && src + len <= buf.Length
      modifies this`i, this`j, state, buf
      ensures Value() == After(Next, old(Value()), len)
      ensures buf[dst..dst + len] == Crypt(Next, Mask, old(Value()), old(buf[src..src + len]))
      ensures buf[..dst] == old(buf[..dst]) && buf[dst + len..] == old(buf[dst + len..])
    {
      ghost var (c, whole) := (Value(), buf[..]);
      ProcessAll(buf, src, dst, len, c, whole);
      Finished(Next, Mask, c, whole, src, dst, len, buf[..], Value());
      assert buf[..][dst..dst + len] == buf[dst..dst + len] && whole[src..src + len] == old(buf[src..src + len]);
    }

    /** Its loop. */
    method ProcessAll(buf: array<byte>, src: nat, dst: nat, len: nat, ghost c: Cipher, ghost whole: seq<byte>)
      requires buf != state && (len > 0 ==> state.Length > 0)
      requires dst <= src && src + len <= buf.Length && c == Value() && whole == buf[..]
      modifies this`i, this`j, state, buf
      ensures Worked(Next, Mask, c, whole, src, dst, len, len, buf[..], Value())
    {
      for k := 0 to len
        invariant Worked(Next, Mask, c, whole, src, dst, len, k, buf[..], Value())
      {
        ghost var (before, cur) := (buf[..], Value());
        Round(buf, src + k, dst + k);
        Progress(Next, Mask, c, whole, src, dst, len, k, before, cur, buf[..], Value());
      }
    }
  }

  // ---------- bcrypt_buf ----------

  const DEFAULT_STATE_LEN: nat := 256
  const MAX_KEYLEN: nat := 254

  function StateLen(len: nat, longstate: bool): nat {
    if longstate then len else DEFAULT_STATE_LEN
  }

  /** A text encrypted, or decrypted, under a seed and a key. */
  function Coded(seed: byte, key: seq<byte>, longstate: bool, src: seq<byte>): (dst: seq<byte>)
    ensures |dst| == |src|
  {
    Crypt(Next, Mask, Keyed([seed] + key, StateLen(|src|, longstate)), src)
  }

  lemma CodedTwice(seed: byte, key: seq<byte>, longstate: bool, src: seq<byte>)
    ensures Coded(seed, key, longstate, Coded(seed, key, longstate, src)) == src
  {
    forall d: Cipher, b: byte
      ensures Mask(d, Mask(d, b)) == b
    {
      MaskTwice(d, b);
    }
    CryptTwice(Next, Mask, Keyed([seed] + key, StateLen(|src|, longstate)), src);
  }

  /** bcrypt_buf, from one place in a buffer to the same or an earlier one. */
  method BcryptBuf(seed: byte, key: seq<byte>, longstate: bool, buf: array<byte>, src: nat, dst: nat, len: nat)
    requires |key| <= MAX_KEYLEN && dst <= src && src + len <= buf.Length
    modifies buf
    ensures buf[dst..dst + len] == Coded(seed, key, longstate, old(buf[src..src + len]))
    ensures buf[..dst] == old(buf[..dst]) && buf[dst + len..] == old(buf[dst + len..])
  {
    var ctx := new BcryptCtx([seed] + key, StateLen(len, longstate));
    ctx.Process(buf, src, dst, len);
  }
}
