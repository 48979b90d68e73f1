/** Reflected CRCs over any polynomial: the bitwise definition, the generated-table loop
    and accumulation over pieces (tools/firmware-utils/src: mkbrnimg.c, add_header.c,
    cyg_crc32.c, imagetag.c).

    The shift register is a bv32; a table indexed by a byte is a map. */
module Crc32 {
  import opened Folds

  type byte = bv8
  type word = bv32

  // Bitwise operations by name, so that proofs can take whole words as units.
  function Xor(x: word, y: word): word { x ^ y }
  function Inv(x: word): word { !x }
  function Wide(b: byte): word { b as word }
  function Low8(x: word): word { x & 0xff }
  function High24(x: word): word { x & 0xffff_ff00 }
  function Shr8(x: word): word { x >> 8 }

  /** One shift of the register. */
  function Step(poly: word, c: word): word {
    if c & 1 == 1 then (c >> 1) ^ poly else c >> 1
  }

  function Step2(poly: word, c: word): word {
    Step(poly, Step(poly, c))
  }

  function Step4(poly: word, c: word): word {
    Step2(poly, Step2(poly, c))
  }

  function Step8(poly: word, c: word): word {
    Step4(poly, Step4(poly, c))
  }

  /** The register after one byte, a bit at a time. */
  function Feed(poly: word, c: word, b: byte): word {
    Step8(poly, Xor(c, Wide(b)))
  }

  function FeedStep(poly: word): (word, byte) -> word {
    (c, b) => Feed(poly, c, b)
  }

  function FeedAll(poly: word, c: word, s: seq<byte>): word {
    Fold(FeedStep(poly), c, s)
  }

  /** The CRC of a buffer continued from the CRC of what came before it, as zlib's crc32
      and the sample code of RFC 1952, section 8, define it. */
  function Crc(poly: word, crc: word, s: seq<byte>): word {
    Inv(FeedAll(poly, Inv(crc), s))
  }

  // ---------- Linearity ----------

  lemma Parity(c: word)
    ensures c & 1 == 0 || c & 1 == 1
  {}

  lemma OddOdd(poly: word, a: word, b: word, c: word)
    requires c == a ^ b && a & 1 == 1 && b & 1 == 1
    ensures Step(poly, c) == Step(poly, a) ^ Step(poly, b)
  {
    assert c & 1 == 0;
  }

  lemma OddEven(poly: word, a: word, b: word, c: word)
    requires c == a ^ b && a & 1 == 1 && b & 1 == 0
    ensures Step(poly, c) == Step(poly, a) ^ Step(poly, b)
  {
    assert c & 1 == 1;
  }

  lemma EvenOdd(poly: word, a: word, b: word, c: word)
    requires c == a ^ b && a & 1 == 0 && b & 1 == 1
    ensures Step(poly, c) == Step(poly, a) ^ Step(poly, b)
  {
    assert c & 1 == 1;
  }

  lemma EvenEven(poly: word, a: word, b: word, c: word)
    requires c == a ^ b && a & 1 == 0 && b & 1 == 0
    ensures Step(poly, c) == Step(poly, a) ^ Step(poly, b)
  {
    assert c & 1 == 0;
  }

  lemma StepAdds(poly: word, a: word, b: word, c: word)
    requires c == a ^ b
    ensures Step(poly, c) == Step(poly, a) ^ Step(poly, b)
  {
    Parity(a);
    Parity(b);
    if a & 1 == 1 {
      if b & 1 == 1 {
        OddOdd(poly, a, b, c);
      } else {
        OddEven(poly, a, b, c);
      }
    } else if b & 1 == 1 {
      EvenOdd(poly, a, b, c);
    } else {
      EvenEven(poly, a, b, c);
    }
  }

  lemma StepLinear(poly: word, a: word, b: word)
    ensures Step(poly, Xor(a, b)) == Xor(Step(poly, a), Step(poly, b))
  {
    StepAdds(poly, a, b, a ^ b);
  }

  lemma Step2Linear(poly: word, a: word, b: word)
    ensures Step2(poly, Xor(a, b)) == Xor(Step2(poly, a), Step2(poly, b))
  {
    StepLinear(poly, a, b);
    StepLinear(poly, Step(poly, a), Step(poly, b));
  }

  lemma Step4Linear(poly: word, a: word, b: word)
    ensures Step4(poly, Xor(a, b)) == Xor(Step4(poly, a), Step4(poly, b))
  {
    Step2Linear(poly, a, b);
    Step2Linear(poly, Step2(poly, a), Step2(poly, b));
  }

  /** The register is linear: what makes tables and forging possible. */
  lemma Step8Linear(poly: word, a: word, b: word)
    ensures Step8(poly, Xor(a, b)) == Xor(Step8(poly, a), Step8(poly, b))
  {
    Step4Linear(poly, a, b);
    Step4Linear(poly, Step4(poly, a), Step4(poly, b));
  }

  /** Eight shifts of a register whose low byte is clear only move it down a byte. */
  lemma ClearByteShifts(poly: word, c: word)
    requires c & 0xff == 0
    ensures Step8(poly, c) == c >> 8
  {}

  lemma HighShifts(poly: word, x: word)
    ensures Step8(poly, High24(x)) == Shr8(x)
  {
    ClearByteShifts(poly, x & 0xffff_ff00);
    assert (x & 0xffff_ff00) >> 8 == x >> 8;
  }

  lemma Halves(x: word)
    ensures Xor(Low8(x), High24(x)) == x
  {}

  /** Eight shifts split into a part that depends on the low byte alone and a move. */
  lemma ByteSplit(poly: word, x: word)
    ensures Step8(poly, x) == Xor(Step8(poly, Low8(x)), Shr8(x))
  {
    Halves(x);
    HighShifts(poly, x);
    Step8Linear(poly, Low8(x), High24(x));
  }

  // ---------- Accumulation ----------

  lemma InvertTwice(c: word)
    ensures Inv(Inv(c)) == c
  {}

  /** However a buffer is cut, accumulating over the pieces is one pass. */
  lemma CrcConcat(poly: word, crc: word, s: seq<byte>, t: seq<byte>)
    ensures Crc(poly, Crc(poly, crc, s), t) == Crc(poly, crc, s + t)
  {
    FoldConcat(FeedStep(poly), Inv(crc), s, t);
    InvertTwice(FeedAll(poly, Inv(crc), s));
  }

  // ---------- The table ----------

  /** An index into the table. */
  datatype Index = At(n: word)

  type Table = map<Index, word>

  /** Entry n of the table is n shifted eight times. */
  ghost predicate FilledTo(poly: word, table: Table, limit: word) {
    forall n: word | n < limit :: At(n) in table && table[At(n)] == Step8(poly, n)
  }

  ghost predicate IsTable(poly: word, table: Table) {
    FilledTo(poly, table, 256)
  }

  function Bits(poly: word, c: word, n: nat): word {
    if n == 0 then c else Step(poly, Bits(poly, c, n - 1))
  }

  lemma TwoBits(poly: word, c: word, n: nat)
    ensures Bits(poly, c, n + 2) == Step2(poly, Bits(poly, c, n))
  {
    assert Bits(poly, c, n + 2) == Step(poly, Bits(poly, c, n + 1));
  }

  lemma EightBits(poly: word, c: word)
    ensures Bits(poly, c, 8) == Step8(poly, c)
  {
    TwoBits(poly, c, 0);
    TwoBits(poly, c, 2);
    TwoBits(poly, c, 4);
    TwoBits(poly, c, 6);
  }

  lemma BelowNext(n: word, m: word)
    requires n < 256 && m < n + 1
    ensures m < n || m == n
  {}

  lemma FillNext(poly: word, table: Table, n: word)
    requires n < 256 && FilledTo(poly, table, n)
    ensures FilledTo(poly, table[At(n) := Step8(poly, n)], n + 1)
  {
    var next := table[At(n) := Step8(poly, n)];
    forall m: word | m < n + 1
      ensures At(m) in next && next[At(m)] == Step8(poly, m)
    {
      BelowNext(n, m);
    }
  }

  /** init_crc32. */
  method InitCrc32(poly: word) returns (table: Table)
    ensures IsTable(poly, table)
  {
    table := map[];
    var n: word := 0;
    while n < 256
      invariant n <= 256
      invariant FilledTo(poly, table, n)
      decreases 256 - n
    {
      var crc := n;
      for bit := 0 to 8
        invariant crc == Bits(poly, n, bit)
      {
        crc := if crc & 1 == 1 then poly ^ (crc >> 1) else crc >> 1;
      }
      EightBits(poly, n);
      FillNext(poly, table, n);
      table := table[At(n) := crc];
      n := n + 1;
    }
  }

  lemma LowIsByte(x: word)
    ensures Low8(x) < 256
  {}

  /** One table lookup does the work of eight shifts. */
  lemma TableStep(poly: word, table: Table, x: word)
    requires IsTable(poly, table)
    ensures At(Low8(x)) in table && Xor(table[At(Low8(x))], Shr8(x)) == Step8(poly, x)
  {
    LowIsByte(x);
    ByteSplit(poly, x);
  }

  lemma ByteBelow(c: word, b: byte)
    ensures (c & 0xff) ^ (b as word) == Low8(Xor(c, Wide(b)))
    ensures c >> 8 == Shr8(Xor(c, Wide(b)))
  {}

  /** One round of cyg_crc32_accumulate. */
  method TableRound(ghost poly: word, table: Table, crc: word, b: byte) returns (r: word)
    requires IsTable(poly, table)
    ensures r == Feed(poly, crc, b)
  {
    ghost var x := Xor(crc, Wide(b));
    TableStep(poly, table, x);
    ByteBelow(crc, b);
    r := Xor(table[At(Low8(Xor(crc, Wide(b))))], Shr8(crc));
  }

  /** The same round as mkbrnimg.c and add_header.c write it. */
  method TableRoundLow(ghost poly: word, table: Table, crc: word, b: byte) returns (r: word)
    requires IsTable(poly, table)
    ensures r == Feed(poly, crc, b)
  {
    TableStep(poly, table, Xor(crc, Wide(b)));
    ByteBelow(crc, b);
    r := Xor(table[At((crc & 0xff) ^ (b as word))], Shr8(crc));
  }

  /** cyg_crc32_accumulate: the table loop is the bitwise definition. */
  method Accumulate(ghost poly: word, table: Table, crc: word, buf: seq<byte>) returns (r: word)
    requires IsTable(poly, table)
    ensures r == FeedAll(poly, crc, buf)
  {
    r := crc;
    for i := 0 to |buf|
      invariant r == FeedAll(poly, crc, buf[..i])
    {
      FoldNext(FeedStep(poly), crc, buf, i);
      r := TableRound(poly, table, r, buf[i]);
    }
    assert buf[..|buf|] == buf;
  }

  lemma AllOnes(c: word)
    ensures c ^ 0xffff_ffff == Inv(c)
    ensures Inv(0) == 0xffff_ffff
  {}

  /** crc32buf of mkbrnimg.c and add_header.c. */
  method Crc32Buf(ghost poly: word, table: Table, buf: seq<byte>) returns (r: word)
    requires IsTable(poly, table)
    ensures r == Crc(poly, 0, buf)
  {
    AllOnes(0);
    var crc: word := 0xffff_ffff;
    for i := 0 to |buf|
      invariant crc == FeedAll(poly, Inv(0), buf[..i])
    {
      FoldNext(FeedStep(poly), Inv(0), buf, i);
      crc := TableRoundLow(poly, table, crc, buf[i]);
    }
    assert buf[..|buf|] == buf;
    r := Inv(crc);
  }

  /** cyg_ether_crc32_accumulate. */
  method EtherAccumulate(ghost poly: word, table: Table, crc: word, buf: seq<byte>) returns (r: word)
    requires IsTable(poly, table)
    ensures r == Crc(poly, crc, buf)
  {
    AllOnes(crc);
    r := Accumulate(poly, table, crc ^ 0xffff_ffff, buf);
    AllOnes(r);
    r := r ^ 0xffff_ffff;
  }

  // ---------- A region of a file, in chunks ----------

  function Min(a: nat, b: nat): nat {
    if a < b then a else b
  }

  const CHUNK: nat := 1024

  /** The part of the file that fseek to start and a read of len bytes can reach. */
  function Region(file: seq<byte>, start: nat, len: nat): seq<byte> {
    var from := Min(start, |file|);
    file[from..Min(from + len, |file|)]
  }

  /** r is what folding the file from `from` up to pos gives. */
  ghost predicate Covers<W>(f: (W, byte) -> W, init: W, file: seq<byte>, from: nat, pos: nat, r: W) {
    from <= pos <= |file| && r == Fold(f, init, file[from..pos])
  }

  lemma CoversNext<W>(f: (W, byte) -> W, init: W, file: seq<byte>, from: nat, pos: nat, r: W, next: nat, r': W)
    requires Covers(f, init, file, from, pos, r) && pos <= next <= |file|
    requires r' == Fold(f, r, file[pos..next])
    ensures Covers(f, init, file, from, next, r')
  {
    assert file[from..pos] + file[pos..next] == file[from..next];
    FoldConcat(f, init, file[from..pos], file[pos..next]);
  }

  /** compute_crc32: whole chunks while the file lasts, then the rest in one read. */
  method ComputeCrc32(ghost poly: word, table: Table, crc: word, file: seq<byte>, start: nat, len: nat)
      returns (r: word)
    requires IsTable(poly, table)
    ensures r == FeedAll(poly, crc, Region(file, start, len))
  {
    var from := Min(start, |file|);
    var pos;
    r, pos := ReadRegion(poly, FeedStep(poly), table, crc, file, from, len);
    assert Region(file, start, len) == file[from..pos];
  }

  method ReadRegion(ghost poly: word, ghost f: (word, byte) -> word, table: Table, crc: word, file: seq<byte>,
                    from: nat, len: nat) returns (r: word, pos: nat)
    requires IsTable(poly, table) && f == FeedStep(poly) && from <= |file|
    ensures pos == Min(from + len, |file|) && Covers(f, crc, file, from, pos, r)
  {
    r, pos := crc, from;
    var eof, computeLen := false, len;
    while !eof && computeLen >= CHUNK
      invariant pos <= from + len && Covers(f, crc, file, from, pos, r)
      invariant eof ==> pos == |file|
      invariant !eof ==> computeLen == len - (pos - from)
      decreases !eof, computeLen
    {
      var next;
      r, next := ReadPiece(poly, f, table, crc, r, file, from, pos, CHUNK);
      eof, computeLen := next - pos < CHUNK, computeLen - (next - pos);
      pos := next;
    }
    if !eof && computeLen > 0 {
      r, pos := ReadPiece(poly, f, table, crc, r, file, from, pos, computeLen);
    }
  }

  /** One fread and the accumulation over what it returned. */
  method ReadPiece(ghost poly: word, ghost f: (word, byte) -> word, table: Table, ghost crc: word, c: word,
                   file: seq<byte>, ghost from: nat, pos: nat, count: nat) returns (r: word, next: nat)
    requires IsTable(poly, table) && f == FeedStep(poly) && Covers(f, crc, file, from, pos, c)
    ensures next == Min(pos + count, |file|) && Covers(f, crc, file, from, next, r)
  {
    next := Min(pos + count, |file|);
    r := Accumulate(poly, table, c, file[pos..next]);
    CoversNext(f, crc, file, from, pos, c, next, r);
  }
}
