/** SHA-256 over a stream of chunks (scripts/mkhash.c: SHA256_Init, SHA256_Update, SHA256_Pad,
    SHA256_Final), for any table of round constants and any initial registers. */
module Sha256Stream {
  import opened BlockHash
  import opened Words
  import opened Sha256
  import opened Sha256Block

  const BITS: nat := 0x1_0000_0000_0000_0000    // the counter is a uint64_t

  /** The bit length modulo 2^64, high byte first. */
  function LengthField(n: nat): (s: seq<byte>)
    ensures |s| == 8
  {
    BigEndian((8 * n) % BITS, FIELD)
  }

  /** The standard's one-shot definition, up to the output of the registers. */
  function Digest<S>(transform: (S, seq<byte>) -> S, init: S, msg: seq<byte>): S {
    Blocks(transform, init, Padded(msg, LengthField(|msg|)))
  }

  /** Below 2^64 bits the field tells the length. */
  lemma LengthTells(m: nat, n: nat, k: nat)
    requires 8 * m < BITS && 8 * n < BITS && LengthField(m) == LengthField(n) && k == FIELD
    ensures m == n
  {
    FieldIsEightBytes();
    assert WORD * WORD == BITS;
    SmallField(m, k);
    SmallField(n, k);
    BigEndianBack(8 * m, 8 * n, k);
  }

  lemma SmallField(n: nat, k: nat)
    requires 8 * n < BITS && k == FIELD
    ensures LengthField(n) == BigEndian(8 * n, k)
  {
    assert (8 * n) % BITS == 8 * n;
  }

  /** Different messages of less than 2^64 bits are different when padded. */
  lemma PaddedInjective(m1: seq<byte>, m2: seq<byte>)
    requires 8 * |m1| < BITS && 8 * |m2| < BITS
    requires Padded(m1, LengthField(|m1|)) == Padded(m2, LengthField(|m2|))
    ensures m1 == m2
  {
    if LengthField(|m1|) == LengthField(|m2|) {
      LengthTells(|m1|, |m2|, FIELD);
    }
    PaddedBack(m1, LengthField(|m1|), m2, LengthField(|m2|));
  }

  /** The bit counter still knows how much of the last block is filled. */
  lemma UsedBytes(whole: nat, rest: nat)
    requires whole % BLOCK == 0 && rest < BLOCK
    ensures (8 * (whole + rest)) % BITS / 8 % BLOCK == rest
  {
    var n := whole + rest;
    var q := (8 * n) / BITS;
    assert 8 * n == BITS * q + (8 * n) % BITS;
    assert (8 * n) % BITS == 8 * (n - (BITS / 8) * q);
    assert (8 * n) % BITS / 8 == n - (BITS / 8) * q;
    assert n == BLOCK * (whole / BLOCK) + rest;
    assert n - (BITS / 8) * q == BLOCK * (whole / BLOCK - (BITS / 8 / BLOCK) * q) + rest;
  }

  lemma CountAdds(n: nat, len: nat)
    ensures ((8 * n) % BITS + (8 * len) % BITS) % BITS == (8 * (n + len)) % BITS
  {
    var (q1, q2) := ((8 * n) / BITS, (8 * len) / BITS);
    var (r1, r2) := ((8 * n) % BITS, (8 * len) % BITS);
    assert 8 * (n + len) == BITS * (q1 + q2) + (r1 + r2);
    WholeTurns(q1 + q2, r1 + r2);
  }

  lemma WholeTurns(q: nat, r: nat)
    ensures (BITS * q + r) % BITS == r % BITS
  {}

  class Sha256Ctx {
    ghost const init: seq<word>
    const k: seq<word>
    const state: array<word>
    var count: nat
    const buf: array<byte>

    /** What was hashed so far: whole blocks, and a rest that is still in the buffer. */
    ghost var whole: seq<byte>
    ghost var rest: seq<byte>

    constructor (k: seq<word>, init: seq<word>)
      requires |k| == 64 && |init| == 8
      ensures Valid() && Message() == [] && fresh(state) && fresh(buf)
      ensures this.k == k && this.init == init
    {
      this.k, this.init := k, init;
      count, whole, rest := 0, [], [];
      state := new word[8](i requires 0 <= i < |init| => init[i]);
      buf := new byte[BLOCK];
      new;
      assert state[..] == init;
    }

    ghost function Message(): seq<byte>
      reads this
    {
      whole + rest
    }

    ghost predicate Valid()
      reads this, state, buf
    {
      Reached() && Buffered() && count == (8 * |Message()|) % BITS
    }

    /** The registers have taken in exactly the whole blocks. */
    ghost predicate Reached()
      reads this, state
    {
      |k| == 64 && state.Length == 8 && Stands(Compression(k), init, whole, state[..])
    }

    ghost predicate Buffered()
      reads this, buf
    {
      buf.Length == BLOCK && |rest| < BLOCK && buf[..|rest|] == rest
    }

    method TakeBlock(block: seq<byte>)
      requires Reached() && |block| == BLOCK
      modifies state, this`whole
      ensures Reached() && whole == old(whole) + block
    {
      StandsNext(Compression(k), init, whole, state[..], block, whole + block);
      TransformBlock(k, state, block);
      whole := whole + block;
    }

    /** memcpy into the buffer. */
    method Copy(at: nat, data: seq<byte>)
      requires buf.Length == BLOCK && at + |data| <= BLOCK
      modifies buf
      ensures buf[..] == old(buf[..at]) + data + old(buf[at + |data|..])
    {
      forall i | 0 <= i < |data| {
        buf[at + i] := data[i];
      }
    }

    /** SHA256_Update: one more chunk. */
    method Update(chunk: seq<byte>)
      requires Valid()
      modifies this, state, buf
      ensures Valid() && Message() == old(Message()) + chunk
    {
      UsedBytes(|whole|, |rest|);
      CountAdds(|Message()|, |chunk|);
      var r := count / 8 % BLOCK;
      count := (count + (8 * |chunk|) % BITS) % BITS;
      Absorb(r, chunk);
    }

    method Absorb(r: nat, chunk: seq<byte>)
      requires Reached() && Buffered() && r == |rest|
      modifies state, this`whole, this`rest, buf
      ensures Reached() && Buffered() && Message() == old(Message()) + chunk
    {
      if |chunk| < BLOCK - r {
        Append(r, chunk);
        assert whole + (old(rest) + chunk) == (whole + old(rest)) + chunk;
        return;
      }
      AbsorbFull(r, chunk);
    }

    /** A chunk that fills the block in the buffer. */
    method AbsorbFull(r: nat, chunk: seq<byte>)
      requires Reached() && Buffered() && r == |rest| && |chunk| >= BLOCK - r
      modifies state, this`whole, this`rest, buf
      ensures Reached() && Buffered() && Message() == old(Message()) + chunk
    {
      FillBlock(r, chunk[..BLOCK - r]);
      Filled(old(whole), old(rest), chunk, BLOCK - r);
      CompleteBlocks(chunk[BLOCK - r..]);
    }

    /** A chunk that does not fill the block. */
    method Append(r: nat, chunk: seq<byte>)
      requires Buffered() && r == |rest| && r + |chunk| < BLOCK
      modifies this`rest, buf
      ensures Buffered() && rest == old(rest) + chunk
    {
      Copy(r, chunk);
      rest := rest + chunk;
      assert buf[..|rest|] == rest;
    }

    /** Finishing the current block. */
    method FillBlock(r: nat, data: seq<byte>)
      requires Reached() && Buffered() && r == |rest| && r + |data| == BLOCK
      modifies state, this`whole, this`rest, buf
      ensures Reached() && whole == old(whole) + (old(rest) + data) && rest == []
    {
      Copy(r, data);
      assert buf[..] == rest + data;
      TakeBlock(buf[..]);
      rest := [];
    }

    /** The complete blocks, and the copy of what is left over. */
    method CompleteBlocks(data: seq<byte>)
      requires Reached() && buf.Length == BLOCK && rest == []
      modifies state, this`whole, this`rest, buf
      ensures Reached() && Buffered() && Message() == old(whole) + data
    {
      var src := TakeBlocks(data);
      Copy(0, src);
      rest := src;
      assert buf[..|rest|] == rest;
    }

    method TakeBlocks(data: seq<byte>) returns (src: seq<byte>)
      requires Reached()
      modifies state, this`whole
      ensures Reached() && whole + src == old(whole) + data && |src| < BLOCK
    {
      src := data;
      while |src| >= BLOCK
        invariant Reached() && whole + src == old(whole) + data
        decreases |src|
      {
        Regroup(whole, src, BLOCK);
        TakeBlock(src[..BLOCK]);
        src := src[BLOCK..];
      }
    }

    /** SHA256_Final; nothing of the message stays in the context. */
    method Final() returns (val: seq<byte>)
      requires Valid()
      modifies this, state, buf
      ensures |val| == 32 && val == Encode(Digest(Compression(k), init, old(Message())))
      ensures count == 0 && (forall i | 0 <= i < state.Length :: state[i] == 0)
      ensures forall i | 0 <= i < buf.Length :: buf[i] == 0
    {
      var digest := Pad();
      val := EncodeState(state);
      Clear();
    }

    method Clear()
      requires state.Length == 8 && buf.Length == BLOCK
      modifies this`count, state, buf
      ensures count == 0 && (forall i | 0 <= i < state.Length :: state[i] == 0)
      ensures forall i | 0 <= i < buf.Length :: buf[i] == 0
    {
      count := 0;
      forall i | 0 <= i < state.Length {
        state[i] := 0;
      }
      forall i | 0 <= i < buf.Length {
        buf[i] := 0;
      }
    }

    /** SHA256_Pad: the registers over the padded whole message. */
    method Pad() returns (digest: seq<word>)
      requires Valid()
      modifies this, state, buf
      ensures |digest| == 8 && digest == state[..] == Digest(Compression(k), init, old(Message()))
    {
      UsedBytes(|whole|, |rest|);
      ghost var msg := Message();
      var r := count / 8 % BLOCK;
      var length := LengthBytes(|msg|);
      PaddedTail(whole, rest, length);
      ghost var padded := whole + Tail(rest, length);
      PadTo56(r, length);
      digest := LastBlock(length, padded);
    }

    /** be64enc of the counter, as two be32enc. */
    method LengthBytes(ghost n: nat) returns (length: seq<byte>)
      requires count == (8 * n) % BITS
      ensures length == LengthField(n)
    {
      length := BigEndian(count / WORD, HALF) + BigEndian(count % WORD, HALF);
      WordIsFourBytes();
      BigEndianHalves(count % WORD, count / WORD, HALF, HALF);
    }

    method PadTo56(r: nat, ghost length: seq<byte>)
      requires Reached() && Buffered() && r == |rest| && |length| == 8
      modifies state, this`whole, this`rest, buf
      ensures Reached()
      ensures whole + buf[..56] + length == old(whole) + Tail(old(rest), length)
    {
      TailBlocks(rest, length);
      if r < 56 {
        Copy(r, [0x80] + Zeros(55 - r));
        assert buf[..56] == rest + [0x80] + Zeros(55 - |rest|);
        assert whole + buf[..56] + length == whole + (buf[..56] + length);
      } else {
        FillBlock(r, [0x80] + Zeros(63 - r));
        assert whole == old(whole) + (old(rest) + [0x80] + Zeros(63 - |old(rest)|));
        Copy(0, Zeros(56));
        assert buf[..56] == Zeros(56);
        SpillTail(old(whole), whole, old(rest), length);
      }
    }

    method LastBlock(length: seq<byte>, ghost padded: seq<byte>) returns (s: seq<word>)
      requires Reached() && buf.Length == BLOCK && |length| == 8
      requires whole + buf[..56] + length == padded
      modifies state, this`whole, buf
      ensures s == state[..] == Blocks(Compression(k), init, padded)
    {
      Copy(56, length);
      assert whole + buf[..] == padded;
      TakeBlock(buf[..]);
      s := state[..];
    }
  }
}
