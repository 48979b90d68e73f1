/** MD5 over a stream of chunks (scripts/mkhash.c: MD5_begin, MD5_hash, MD5_end; the same core
    as tools/firmware-utils/src/md5.c). */
module Md5Stream {
  import opened Options
  import opened BlockHash
  import opened Words
  import opened Md5Block

  const LOW: nat := 0x2000_0000        // lo counts bytes modulo 2^29

  /** The bit length modulo 2^64, low byte first. */
  function LengthField(n: nat): (s: seq<byte>)
    ensures |s| == 8
  {
    LittleEndian((8 * n) % (WORD * WORD), FIELD)
  }

  /** The RFC's one-shot definition, up to the output of the registers. */
  function Digest<S>(body: (S, seq<byte>) -> S, init: S, msg: seq<byte>): S {
    Blocks(body, init, Padded(msg, LengthField(|msg|)))
  }

  /** Below 2^64 bits the field tells the length. */
  lemma LengthTells(m: nat, n: nat, k: nat)
    requires 8 * m < WORD * WORD && 8 * n < WORD * WORD && LengthField(m) == LengthField(n) && k == FIELD
    ensures m == n
  {
    FieldIsEightBytes();
    SmallField(m, k);
    SmallField(n, k);
    LittleEndianBack(8 * m, 8 * n, k);
  }

  lemma SmallField(n: nat, k: nat)
    requires 8 * n < WORD * WORD && k == FIELD
    ensures LengthField(n) == LittleEndian(8 * n, k)
  {
    assert (8 * n) % (WORD * WORD) == 8 * n;
  }

  /** Different messages of less than 2^64 bits are different when padded. */
  lemma PaddedInjective(m1: seq<byte>, m2: seq<byte>)
    requires 8 * |m1| < WORD * WORD && 8 * |m2| < WORD * WORD
    requires Padded(m1, LengthField(|m1|)) == Padded(m2, LengthField(|m2|))
    ensures m1 == m2
  {
    if LengthField(|m1|) == LengthField(|m2|) {
      LengthTells(|m1|, |m2|, FIELD);
    }
    PaddedBack(m1, LengthField(|m1|), m2, LengthField(|m2|));
  }

  /** The two counter words are the 64-bit bit length. */
  lemma CounterWords(n: nat)
    ensures (8 * n) % (WORD * WORD) == 8 * (n % LOW) + WORD * ((n / LOW) % WORD)
  {
    var (low, q) := (n % LOW, n / LOW);
    var (high, top) := (q % WORD, q / WORD);
    assert n == LOW * q + low && q == WORD * top + high;
    assert 8 * n == WORD * WORD * top + (WORD * high + 8 * low);
    assert WORD * high + 8 * low < WORD * WORD;
  }

  /** How MD5_hash moves the counters. */
  lemma LowAdds(n: nat, size: nat)
    ensures var lo := (n % LOW + size) % LOW;
            && lo == (n + size) % LOW
            && (n + size) / LOW == n / LOW + size / LOW + (if lo < n % LOW then 1 else 0)
  {}

  lemma HighAdds(q: nat, carry: nat, more: nat)
    ensures ((q % WORD + carry) % WORD + more) % WORD == (q + carry + more) % WORD
  {}

  /** The low counter still knows how much of the last block is filled. */
  lemma UsedBytes(whole: nat, rest: nat)
    requires whole % BLOCK == 0 && rest < BLOCK
    ensures (whole + rest) % LOW % BLOCK == rest
  {
    var n := whole + rest;
    assert LOW == BLOCK * (LOW / BLOCK);
    assert n == LOW * (n / LOW) + n % LOW;
    assert n == BLOCK * (whole / BLOCK) + rest;
    assert n % LOW == BLOCK * (whole / BLOCK - (LOW / BLOCK) * (n / LOW)) + rest;
  }

  lemma WholeBlock(size: nat)
    requires size % 64 == 0 && size != 0
    ensures size >= BLOCK && (size - BLOCK) % 64 == 0
  {}

  lemma WholePart(n: nat)
    ensures 0 <= n - n % BLOCK <= n && (n - n % BLOCK) % 64 == 0 && n % BLOCK < BLOCK
  {}

  class Md5Ctx {
    var lo: nat
    var hi: nat
    var state: Regs<word>
    const table: seq<word>
    ghost const init: Regs<word>
    const buffer: array<byte>

    /** What was hashed so far: whole blocks, and a rest that is still in the buffer. */
    ghost var whole: seq<byte>
    ghost var rest: seq<byte>

    /** MD5_begin. */
    constructor (table: seq<word>, init: Regs<word>)
      ensures Valid() && Message() == [] && fresh(buffer) && this.table == table && this.init == init
    {
      this.table, this.init := table, init;
      state, lo, hi, whole, rest := init, 0, 0, [], [];
      buffer := new byte[BLOCK];
    }

    ghost function Message(): seq<byte>
      reads this
    {
      whole + rest
    }

    ghost predicate Valid()
      reads this, buffer
    {
      && Reached() && Buffered()
      && lo == |Message()| % LOW && hi == (|Message()| / LOW) % WORD
    }

    /** The registers have taken in exactly the whole blocks. */
    ghost predicate Reached()
      reads this
    {
      Stands(Compression(table), init, whole, state)
    }

    /** The rest is in the buffer. */
    ghost predicate Buffered()
      reads this, buffer
    {
      buffer.Length == BLOCK && |rest| < BLOCK && buffer[..|rest|] == rest
    }

    method TakeBlock(block: seq<byte>)
      requires Reached() && |block| == BLOCK
      modifies this`state, this`whole
      ensures Reached() && whole == old(whole) + block
    {
      StandsNext(Compression(table), init, whole, state, block, whole + block);
      state := Md5Block.Body(table, state, block);
      whole := whole + block;
    }

    /** The counter arithmetic of MD5_hash, with n bytes counted before. */
    method Count(size: nat, ghost n: nat)
      requires lo == n % LOW && hi == (n / LOW) % WORD
      modifies this`lo, this`hi
      ensures lo == (n + size) % LOW && hi == ((n + size) / LOW) % WORD
    {
      LowAdds(n, size);
      var savedLo := lo;
      lo := (savedLo + size) % LOW;
      HighAdds(n / LOW, if lo < savedLo then 1 else 0, size / LOW);
      if lo < savedLo {
        hi := (hi + 1) % WORD;
      }
      hi := (hi + size / LOW) % WORD;
    }

    /** memcpy into the buffer. */
    method Copy(at: nat, data: seq<byte>)
      requires buffer.Length == BLOCK && at + |data| <= BLOCK
      modifies buffer
      ensures buffer[..] == old(buffer[..at]) + data + old(buffer[at + |data|..])
    {
      forall i | 0 <= i < |data| {
        buffer[at + i] := data[i];
      }
    }

    /** One block off the front of the data. */
    method TakeFront(data: seq<byte>) returns (left: seq<byte>)
      requires Reached() && |data| >= BLOCK
      modifies this`state, this`whole
      ensures Reached() && whole + left == old(whole) + data && |left| == |data| - BLOCK
    {
      Regroup(whole, data, BLOCK);
      TakeBlock(data[..BLOCK]);
      left := data[BLOCK..];
    }

    /** MD5_body over size bytes of data, a whole number of blocks. */
    method Body(data: seq<byte>, size0: nat) returns (left: seq<byte>)
      requires Reached() && size0 <= |data| && size0 % 64 == 0
      modifies this`state, this`whole
      ensures Reached() && whole + left == old(whole) + data && |left| == |data| - size0
    {
      left := data;
      var size := size0;
      while size != 0
        invariant Reached() && size % 64 == 0
        invariant 0 <= size <= |left| && |left| - size == |data| - size0
        invariant whole + left == old(whole) + data
        decreases size
      {
        WholeBlock(size);
        left := TakeFront(left);
        size := size - BLOCK;
      }
    }

    /** MD5_hash: one more chunk. */
    method Hash(chunk: seq<byte>)
      requires Valid()
      modifies this`lo, this`hi, this`state, this`whole, this`rest, buffer
      ensures Valid() && Message() == old(Message()) + chunk
    {
      UsedBytes(|whole|, |rest|);
      var used := lo % BLOCK;
      Count(|chunk|, |Message()|);
      Absorb(used, chunk);
    }

    /** What MD5_hash does with the bytes themselves. */
    method Absorb(used: nat, chunk: seq<byte>)
      requires Reached() && Buffered() && used == |rest|
      modifies this`state, this`whole, this`rest, buffer
      ensures Reached() && Buffered() && Message() == old(Message()) + chunk
    {
      var data := chunk;
      if used != 0 {
        var available := BLOCK - used;
        if |data| < available {
          Append(used, data);
          assert whole + (old(rest) + data) == (whole + old(rest)) + data;
          return;
        }
        FillBlock(used, data[..available]);
        Filled(old(whole), old(rest), data, available);
        data := data[available..];
      } else {
        assert old(rest) == [];
      }
      AbsorbAligned(data);
    }

    /** A chunk that does not fill the block. */
    method Append(used: nat, data: seq<byte>)
      requires Buffered() && used == |rest| && used + |data| < BLOCK
      modifies this`rest, buffer
      ensures Buffered() && rest == old(rest) + data
    {
      Copy(used, data);
      rest := rest + data;
      assert buffer[..|rest|] == rest;
    }

    /** The whole blocks of data, and the buffering of what is left. */
    method AbsorbAligned(data: seq<byte>)
      requires Reached() && buffer.Length == BLOCK && rest == []
      modifies this`state, this`whole, this`rest, buffer
      ensures Reached() && Buffered() && Message() == old(whole) + data
    {
      var left := data;
      if |data| >= BLOCK {
        WholePart(|data|);
        left := Body(data, |data| - |data| % BLOCK);
      }
      KeepRest(left);
    }

    method KeepRest(data: seq<byte>)
      requires buffer.Length == BLOCK && |data| < BLOCK
      modifies this`rest, buffer
      ensures Buffered() && rest == data
    {
      Copy(0, data);
      rest := data;
      assert buffer[..|rest|] == rest;
    }

    /** Completing the block in the buffer and taking it in. */
    method FillBlock(used: nat, data: seq<byte>)
      requires Reached() && buffer.Length == BLOCK && used == |rest| && used + |data| == BLOCK
      requires buffer[..used] == rest
      modifies this`state, this`whole, this`rest, buffer
      ensures Reached() && whole == old(whole) + (old(rest) + data) && rest == []
    {
      Copy(used, data);
      assert buffer[..] == rest + data;
      TakeBlock(buffer[..]);
      rest := [];
    }

    /** MD5_end; nothing of the message stays in the context. */
    method End() returns (val: seq<byte>)
      requires Valid()
      modifies this, buffer
      ensures |val| == 16 && val == Encode(Digest(Compression(table), init, old(Message())))
      ensures lo == hi == 0 && state == Regs(0, 0, 0, 0) && forall i | 0 <= i < buffer.Length :: buffer[i] == 0
    {
      var digest := Pad();
      val := Encode(digest);
      lo, hi, state := 0, 0, Regs(0, 0, 0, 0);
      forall i | 0 <= i < buffer.Length {
        buffer[i] := 0;
      }
    }

    /** The registers over the padded whole message. */
    method Pad() returns (digest: Regs<word>)
      requires Valid()
      modifies this, buffer
      ensures digest == Digest(Compression(table), init, old(Message()))
    {
      UsedBytes(|whole|, |rest|);
      var used := lo % BLOCK;
      ghost var msg := Message();
      var low, high;
      ghost var length;
      low, high, length := LengthFields(|msg|);
      PaddedTail(whole, rest, length);
      ghost var padded := whole + Tail(rest, length);
      PadTo56(used, length);
      digest := LastBlock(low, high, length, padded);
    }

    method LastBlock(low: seq<byte>, high: seq<byte>, ghost length: seq<byte>, ghost padded: seq<byte>)
        returns (s: Regs<word>)
      requires Reached() && buffer.Length == BLOCK
      requires |low| == 4 && |high| == 4 && length == low + high
      requires whole + buffer[..56] + length == padded
      modifies this`state, this`whole, buffer
      ensures s == Blocks(Compression(table), init, padded)
    {
      PutLength(low, high, length);
      assert whole + buffer[..] == padded;
      TakeBlock(buffer[..]);
      s := state;
    }

    /** The last counter step and the bytes of both counters. */
    method LengthFields(ghost n: nat) returns (low: seq<byte>, high: seq<byte>, ghost length: seq<byte>)
      requires lo == n % LOW && hi == (n / LOW) % WORD
      modifies this`lo
      ensures |low| == 4 && |high| == 4 && length == low + high
      ensures length == LengthField(n)
    {
      LengthBytes(n);
      lo := lo * 8 % WORD;
      low, high := LittleEndian(lo, HALF), LittleEndian(hi, HALF);
      length := low + high;
    }

    method PutLength(low: seq<byte>, high: seq<byte>, ghost length: seq<byte>)
      requires buffer.Length == BLOCK && |low| == 4 && |high| == 4 && length == low + high
      modifies buffer
      ensures buffer[..] == old(buffer[..56]) + length
    {
      Copy(56, low);
      Copy(60, high);
    }

    /** The 0x80 and the zeros, up to where the length goes. */
    method PadTo56(used0: nat, ghost length: seq<byte>)
      requires Reached() && Buffered() && used0 == |rest| && |length| == 8
      modifies this`state, this`whole, this`rest, buffer
      ensures Reached()
      ensures whole + buffer[..56] + length == old(whole) + Tail(old(rest), length)
    {
      TailBlocks(rest, length);
      Copy(used0, [0x80]);
      var used := used0 + 1;
      var available := BLOCK - used;
      assert buffer[..used] == rest + [0x80];
      if available < 8 {
        Spill(used, available);
        Copy(0, Zeros(56));
        assert buffer[..56] == Zeros(56);
        SpillTail(old(whole), whole, old(rest), length);
      } else {
        Copy(used, Zeros(available - 8));
        assert buffer[..56] == rest + [0x80] + Zeros(55 - |rest|);
        assert whole + buffer[..56] + length == whole + (buffer[..56] + length);
      }
    }

    /** No room for the length: the block is filled up with zeros and taken in. */
    method Spill(used: nat, available: nat)
      requires Reached() && buffer.Length == BLOCK && used == |rest| + 1 && used + available == BLOCK
      requires buffer[..used] == rest + [0x80]
      modifies this`state, this`whole, this`rest, buffer
      ensures Reached() && rest == []
      ensures whole == old(whole) + (old(rest) + [0x80] + Zeros(63 - |old(rest)|))
    {
      Copy(used, Zeros(available));
      assert buffer[..] == rest + [0x80] + Zeros(available);
      TakeBlock(buffer[..]);
      rest := [];
    }
  }

  /** Section 3.3 of RFC 1321. */
  const INIT: Regs<word> := Regs(0x6745_2301, 0xefcd_ab89, 0x98ba_dcfe, 0x1032_5476)

  /** Section 3.4 of RFC 1321. */
  const ROUND1: seq<word> := [
    0xd76a_a478, 0xe8c7_b756, 0x2420_70db, 0xc1bd_ceee,
    0xf57c_0faf, 0x4787_c62a, 0xa830_4613, 0xfd46_9501,
    0x6980_98d8, 0x8b44_f7af, 0xffff_5bb1, 0x895c_d7be,
    0x6b90_1122, 0xfd98_7193, 0xa679_438e, 0x49b4_0821
  ]

  const ROUND2: seq<word> := [
    0xf61e_2562, 0xc040_b340, 0x265e_5a51, 0xe9b6_c7aa,
    0xd62f_105d, 0x0244_1453, 0xd8a1_e681, 0xe7d3_fbc8,
    0x21e1_cde6, 0xc337_07d6, 0xf4d5_0d87, 0x455a_14ed,
    0xa9e3_e905, 0xfcef_a3f8, 0x676f_02d9, 0x8d2a_4c8a
  ]

  const ROUND3: seq<word> := [
    0xfffa_3942, 0x8771_f681, 0x6d9d_6122, 0xfde5_380c,
    0xa4be_ea44, 0x4bde_cfa9, 0xf6bb_4b60, 0xbebf_bc70,
    0x289b_7ec6, 0xeaa1_27fa, 0xd4ef_3085, 0x0488_1d05,
    0xd9d4_d039, 0xe6db_99e5, 0x1fa2_7cf8, 0xc4ac_5665
  ]

  const ROUND4: seq<word> := [
    0xf429_2244, 0x432a_ff97, 0xab94_23a7, 0xfc93_a039,
    0x655b_59c3, 0x8f0c_cc92, 0xffef_f47d, 0x8584_5dd1,
    0x6fa8_7e4f, 0xfe2c_e6e0, 0xa301_4314, 0x4e08_11a1,
    0xf753_7e82, 0xbd3a_f235, 0x2ad7_d2bb, 0xeb86_d391
  ]

  const TABLE: seq<word> := ROUND1 + ROUND2 + ROUND3 + ROUND4

  const CHUNK: nat := 1024

  /** md5_hash: a file read in pieces of up to 1024 bytes gives the digits of the RFC's digest of
      its contents. */
  method HashFile(file: seq<byte>) returns (str: Option<string>)
    ensures |Encode(Digest(Compression(TABLE), INIT, file))| == 16
    ensures str == Some(Hex(Encode(Digest(Compression(TABLE), INIT, file))))
  {
    var ctx := new Md5Ctx(TABLE, INIT);
    var pos := 0;
    while pos < |file|
      invariant pos <= |file| && ctx.Valid() && ctx.Message() == file[..pos]
      invariant ctx.table == TABLE && ctx.init == INIT && fresh(ctx) && fresh(ctx.buffer)
    {
      var len := if |file| - pos < CHUNK then |file| - pos else CHUNK;
      assert file[..pos] + file[pos..pos + len] == file[..pos + len];
      ctx.Hash(file[pos..pos + len]);
      pos := pos + len;
    }
    assert file[..pos] == file;
    var val := ctx.End();
    str := HashString(val);
  }

  /** The eight length bytes, from the two counters. */
  lemma LengthBytes(n: nat)
    ensures (n % LOW) * 8 % WORD == 8 * (n % LOW)
    ensures LengthField(n) == LittleEndian(8 * (n % LOW), HALF) + LittleEndian((n / LOW) % WORD, HALF)
  {
    CounterWords(n);
    WordIsFourBytes();
    LittleEndianHalves(8 * (n % LOW), (n / LOW) % WORD, HALF, HALF);
  }
}
