/** The shape of SHA256_Transform (scripts/mkhash.c): registers that stay in place while
    their roles rotate, and a message schedule extended sixteen words at a time.  It is
    compared with the plain algorithm of section 6.2.2 of FIPS 180-4, for any word
    arithmetic. */
module Sha256Rounds {

  /** T1 of h, e, f, g, K and W; T2 of a, b and c; addition; the schedule's next word from
      those 2, 7, 15 and 16 places back. */
  datatype Arith<!W> = Arith(t1: (W, W, W, W, W, W) -> W, t2: (W, W, W) -> W, add: (W, W) -> W,
                             next: (W, W, W, W) -> W)

  // ---------- The standard ----------

  /** The first n words of the message schedule. */
  function Schedule<W>(f: Arith<W>, m: seq<W>, n: nat): (w: seq<W>)
    requires |m| == 16 && n >= 16
    ensures |w| == n
  {
    if n == 16 then m
    else
      var w := Schedule(f, m, n - 1);
      w + [f.next(w[n - 3], w[n - 8], w[n - 16], w[n - 17])]
  }

  /** One round on the working variables a to h. */
  function Round<W>(f: Arith<W>, v: seq<W>, k: W, w: W): (r: seq<W>)
    requires |v| == 8
    ensures |r| == 8
  {
    var t1 := f.t1(v[7], v[4], v[5], v[6], k, w);
    var t2 := f.t2(v[0], v[1], v[2]);
    [f.add(t1, t2), v[0], v[1], v[2], f.add(v[3], t1), v[4], v[5], v[6]]
  }

  /** The working variables after t rounds. */
  function Rounds<W>(f: Arith<W>, k: seq<W>, w: seq<W>, init: seq<W>, t: nat): (v: seq<W>)
    requires |k| == 64 && t <= |w| && t <= 64 && |init| == 8
    ensures |v| == 8
  {
    if t == 0 then init else Round(f, Rounds(f, k, w, init, t - 1), k[t - 1], w[t - 1])
  }

  function AddAll<W>(f: Arith<W>, x: seq<W>, y: seq<W>): (r: seq<W>)
    requires |x| == |y|
    ensures |r| == |x| && forall i | 0 <= i < |x| :: r[i] == f.add(x[i], y[i])
  {
    seq(|x|, i requires 0 <= i < |x| => f.add(x[i], y[i]))
  }

  /** The whole transformation of the hash value by one block. */
  function Transformed<W>(f: Arith<W>, k: seq<W>, init: seq<W>, m: seq<W>): (r: seq<W>)
    requires |k| == 64 && |init| == 8 && |m| == 16
    ensures |r| == 8
  {
    AddAll(f, init, Rounds(f, k, Schedule(f, m, 64), init, 64))
  }

  // ---------- The program ----------

  /** Where working variable j stands after t rounds. */
  function Place(t: nat, j: nat): nat {
    (64 + j - t % 16) % 8
  }

  /** The array holds the working variables, rotated. */
  ghost predicate Rotated<W>(s: seq<W>, v: seq<W>, t: nat) {
    |s| == 8 && |v| == 8 && forall j | 0 <= j < 8 :: s[Place(t, j)] == v[j]
  }

  /** After a round every variable's place is its predecessor's old one. */
  lemma Turn(t: nat, j: nat)
    requires j < 8
    ensures Place(t + 1, j) == Place(t, if j == 0 then 7 else j - 1)
  {
    var r := t % 16;
    assert (t + 1) % 16 == if r == 15 then 0 else r + 1;
  }

  lemma Apart(t: nat, i: nat, j: nat)
    requires i < 8 && j < 8 && i != j
    ensures Place(t, i) != Place(t, j)
  {}

  /** A round overwrites d and h, and nothing else moves. */
  lemma RotatedNext<W>(f: Arith<W>, s: seq<W>, s': seq<W>, v: seq<W>, t: nat, k: W, w: W)
    requires Rotated(s, v, t) && |s'| == 8
    requires forall j | 0 <= j < 8 && j != 3 && j != 7 :: s'[Place(t, j)] == v[j]
    requires s'[Place(t, 3)] == Round(f, v, k, w)[4] && s'[Place(t, 7)] == Round(f, v, k, w)[0]
    ensures Rotated(s', Round(f, v, k, w), t + 1)
  {
    var v' := Round(f, v, k, w);
    forall j | 0 <= j < 8
      ensures s'[Place(t + 1, j)] == v'[j]
    {
      Turn(t, j);
    }
  }

  /** The round macro on the variables a to h of the moment. */
  method RoundInPlace<W>(f: Arith<W>, s: array<W>, t: nat, k: W, w: W, ghost v: seq<W>)
    requires s.Length == 8 && Rotated(s[..], v, t)
    modifies s
    ensures Rotated(s[..], Round(f, v, k, w), t + 1)
  {
    var d, h := Place(t, 3), Place(t, 7);
    forall j | 0 <= j < 8
      ensures (j != 3 ==> Place(t, j) != d) && (j != 7 ==> Place(t, j) != h)
    {
      if j != 3 {
        Apart(t, j, 3);
      }
      if j != 7 {
        Apart(t, j, 7);
      }
    }
    ghost var before := s[..];
    s[h] := f.t1(s[h], s[Place(t, 4)], s[Place(t, 5)], s[Place(t, 6)], k, w);
    s[d] := f.add(s[d], s[h]);
    s[h] := f.add(s[h], f.t2(s[Place(t, 0)], s[Place(t, 1)], s[Place(t, 2)]));
    RotatedNext(f, before, s[..], v, t, k, w);
  }

  lemma {:induction false} SchedulePrefix<W>(f: Arith<W>, m: seq<W>, k: nat, n: nat)
    requires |m| == 16 && 16 <= k <= n
    ensures Schedule(f, m, n)[..k] == Schedule(f, m, k)
  {
    if k < n {
      SchedulePrefix(f, m, k, n - 1);
      assert Schedule(f, m, n)[..k] == Schedule(f, m, n - 1)[..k];
    }
  }

  /** Sixteen more words of the schedule. */
  method Extend<W>(f: Arith<W>, w: array<W>, i: nat, ghost m: seq<W>)
    requires |m| == 16 && w.Length == 64 && i + 32 <= 64
    requires w[..i + 16] == Schedule(f, m, i + 16)
    modifies w
    ensures w[..i + 32] == Schedule(f, m, i + 32)
  {
    for r := 0 to 16
      invariant w[..i + r + 16] == Schedule(f, m, i + r + 16)
    {
      ghost var (n, known) := (i + r + 17, w[..i + r + 16]);
      assert known[n - 3] == w[i + r + 14] && known[n - 8] == w[i + r + 9];
      assert known[n - 16] == w[i + r + 1] && known[n - 17] == w[i + r];
      w[i + r + 16] := f.next(w[i + r + 14], w[i + r + 9], w[i + r + 1], w[i + r]);
      assert w[..n] == known + [w[n - 1]];
    }
  }

  /** Sixteen rounds. */
  method SixteenRounds<W>(f: Arith<W>, k: seq<W>, w: array<W>, s: array<W>, i: nat,
                          ghost full: seq<W>, ghost init: seq<W>)
    requires |k| == 64 && w.Length == 64 && s.Length == 8 && w != s && i + 16 <= 64 && |init| == 8
    requires |full| == 64 && w[..i + 16] == full[..i + 16]
    requires Rotated(s[..], Rounds(f, k, full, init, i), i)
    modifies s
    ensures Rotated(s[..], Rounds(f, k, full, init, i + 16), i + 16)
  {
    for r := 0 to 16
      invariant Rotated(s[..], Rounds(f, k, full, init, i + r), i + r)
    {
      assert w[i + r] == w[..i + 16][i + r] == full[i + r];
      RoundInPlace(f, s, i + r, k[i + r], w[i + r], Rounds(f, k, full, init, i + r));
    }
  }

  /** SHA256_Transform on a block already decoded into sixteen words. */
  method Transform<W(0)>(f: Arith<W>, k: seq<W>, state: array<W>, m: seq<W>)
    requires |k| == 64 && state.Length == 8 && |m| == 16
    modifies state
    ensures state[..] == Transformed(f, k, old(state[..]), m)
  {
    var w, s := Prepare(state, m);
    ghost var v := Rounds(f, k, Schedule(f, m, 64), state[..], 64);
    Mix(f, k, w, s, m);
    AddWorking(f, state, s, v);
  }

  /** The first part of the schedule, and the working variables. */
  method Prepare<W(0)>(state: array<W>, m: seq<W>) returns (w: array<W>, s: array<W>)
    requires state.Length == 8 && |m| == 16
    ensures fresh(w) && fresh(s) && w != s && w.Length == 64 && s.Length == 8
    ensures w[..16] == m && s[..] == state[..]
  {
    w, s := new W[64], new W[8];
    forall j | 0 <= j < 16 {
      w[j] := m[j];
    }
    forall j | 0 <= j < 8 {
      s[j] := state[j];
    }
  }

  /** The loop's state at the start of a pass: the words that the rounds up to i need, and the
      registers after them. */
  ghost predicate Mixed<W>(f: Arith<W>, k: seq<W>, m: seq<W>, init: seq<W>, w: seq<W>, s: seq<W>, i: nat)
    requires |k| == 64 && |m| == 16 && |init| == 8
  {
    && |w| == 64 && i + 16 <= 64
    && w[..i + 16] == Schedule(f, m, i + 16)
    && Rotated(s, Rounds(f, k, Schedule(f, m, 64), init, i), i)
  }

  /** Sixteen rounds and, but after the last ones, sixteen more words. */
  method Pass<W>(f: Arith<W>, k: seq<W>, w: array<W>, s: array<W>, i: nat, ghost m: seq<W>, ghost init: seq<W>)
    requires |k| == 64 && |m| == 16 && |init| == 8 && w.Length == 64 && s.Length == 8 && w != s
    requires Mixed(f, k, m, init, w[..], s[..], i) && i % 16 == 0
    modifies w, s
    ensures i == 48 ==> Rotated(s[..], Rounds(f, k, Schedule(f, m, 64), init, 64), 64)
    ensures i < 48 ==> Mixed(f, k, m, init, w[..], s[..], i + 16)
  {
    SchedulePrefix(f, m, i + 16, 64);
    assert w[..][..i + 16] == w[..i + 16];
    SixteenRounds(f, k, w, s, i, Schedule(f, m, 64), init);
    if i < 48 {
      Extend(f, w, i, m);
      assert w[..][..i + 32] == w[..i + 32];
    }
  }

  /** The main loop. */
  method Mix<W>(f: Arith<W>, k: seq<W>, w: array<W>, s: array<W>, ghost m: seq<W>)
    requires |k| == 64 && |m| == 16 && w.Length == 64 && s.Length == 8 && w != s
    requires w[..16] == m
    modifies w, s
    ensures Rotated(s[..], Rounds(f, k, Schedule(f, m, 64), old(s[..]), 64), 64)
  {
    ghost var init := s[..];
    assert w[..][..16] == m;
    var i := 0;
    while i < 64
      invariant i == 0 || i == 16 || i == 32 || i == 48 || i == 64
      invariant i < 64 ==> Mixed(f, k, m, init, w[..], s[..], i)
      invariant i == 64 ==> Rotated(s[..], Rounds(f, k, Schedule(f, m, 64), init, 64), 64)
    {
      Pass(f, k, w, s, i, m, init);
      i := i + 16;
    }
  }

  /** Mixing the working variables into the state; after 64 rounds they stand in order again. */
  method AddWorking<W>(f: Arith<W>, state: array<W>, s: array<W>, ghost v: seq<W>)
    requires state.Length == 8 && s.Length == 8 && state != s && Rotated(s[..], v, 64)
    modifies state
    ensures state[..] == AddAll(f, old(state[..]), v)
  {
    for j := 0 to 8
      invariant forall l | 0 <= l < j :: state[l] == f.add(old(state[l]), v[l])
      invariant forall l | j <= l < 8 :: state[l] == old(state[l])
    {
      assert s[..][Place(64, j)] == v[j] && Place(64, j) == j;
      state[j] := f.add(state[j], s[j]);
    }
  }
}
