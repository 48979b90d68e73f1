/** Two CRC-16s, most significant bit first, that turn out to be one another's complement
    (tools/firmware-utils/src: get_hcs in bcmalgo.c, make_crc16 in encode_crc.c). */
module Crc16 {
  import opened Folds

  type byte = bv8
  type half = bv16
  type wide = bv32

  const POLY: half := 0x1021

  // Bitwise operations by name, so that proofs can take whole registers as units.
  function Xor(x: half, y: half): half { x ^ y }
  function Up(x: half): half { x << 1 }
  function Top(b: byte): half { (b as half) << 8 }

  function Shift(n: half): half {
    if n & 0x8000 == 0 then n << 1 else (n << 1) ^ POLY
  }

  function Shifts(n: half, k: nat): half
    decreases k
  {
    if k == 0 then n else Shifts(Shift(n), k - 1)
  }

  /** The register after one byte. */
  function Feed(n: half, b: byte): half {
    Shifts(Xor(n, Top(b)), 8)
  }

  function FeedStep(): (half, byte) -> half {
    (n, b) => Feed(n, b)
  }

  // ---------- make_crc16, in an int wider than the register ----------

  /** A char converted to int, signed or not as the machine has it. */
  function ToInt(b: byte, signed: bool): wide {
    if signed && b & 0x80 != 0 then (b as wide) | 0xffff_ff00 else b as wide
  }

  function Low(c: wide): half {
    (c & 0xffff) as half
  }

  function WideShift(c: wide): wide {
    if (c << 1) & 0x1_0000 != 0 then (c << 1) ^ (POLY as wide) else c << 1
  }

  lemma LowTop(c: wide)
    ensures (c << 1) & 0x1_0000 == 0 <==> Low(c) & 0x8000 == 0
  {}

  lemma LowUp(c: wide)
    ensures Low(c << 1) == Low(c) << 1
  {}

  lemma LowUpXor(c: wide)
    ensures Low((c << 1) ^ (POLY as wide)) == (Low(c) << 1) ^ POLY
  {}

  /** Bits above the register never come back into it. */
  lemma WideShiftLow(c: wide)
    ensures Low(WideShift(c)) == Shift(Low(c))
  {
    LowTop(c);
    LowUp(c);
    LowUpXor(c);
  }

  lemma StartLow(crc: wide, b: byte, signed: bool)
    ensures Low(crc ^ (ToInt(b, signed) << 8)) == Xor(Low(crc), Top(b))
  {}

  lemma LowKept(c: wide)
    ensures Low(c & 0xffff) == Low(c) && c & 0xffff == Low(c) as wide
  {}

  method MakeCrc16(crc0: wide, b: byte, signed: bool) returns (crc: wide)
    ensures crc == Feed(Low(crc0), b) as wide
  {
    crc := crc0 ^ (ToInt(b, signed) << 8);
    StartLow(crc0, b, signed);
    for i := 0 to 8
      invariant Shifts(Low(crc), 8 - i) == Feed(Low(crc0), b)
    {
      WideShiftLow(crc);
      crc := WideShift(crc);
    }
    LowKept(crc);
    crc := crc & 0xffff;
  }

  // ---------- get_hcs, a data bit at a time ----------

  /** The register after one data bit, the top one of m. */
  function Feedback(n: half, m: half): half {
    if (n ^ m) & 0x8000 == 0 then n << 1 else (n << 1) ^ POLY
  }

  lemma SideClear(n: half, m: half)
    requires (n ^ m) & 0x8000 == 0
    ensures (n << 1) ^ (m << 1) == Shift(n ^ m)
  {}

  lemma SideSet(n: half, m: half)
    requires (n ^ m) & 0x8000 != 0
    ensures ((n << 1) ^ POLY) ^ (m << 1) == Shift(n ^ m)
  {}

  /** The register and the data byte shift side by side; together they are the other register. */
  lemma SideBySide(n: half, m: half)
    ensures Xor(Feedback(n, m), Up(m)) == Shift(Xor(n, m))
  {
    if (n ^ m) & 0x8000 == 0 {
      SideClear(n, m);
    } else {
      SideSet(n, m);
    }
  }

  /** The low bits of the data register that j shifts have cleared. */
  function Cleared(j: nat): half {
    if j == 0 then 0x00ff
    else if j == 1 then 0x01ff
    else if j == 2 then 0x03ff
    else if j == 3 then 0x07ff
    else if j == 4 then 0x0fff
    else if j == 5 then 0x1fff
    else if j == 6 then 0x3fff
    else if j == 7 then 0x7fff
    else 0xffff
  }

  /** Register n and data m stand for the register x; j data bits are used up. */
  ghost predicate Stands(n: half, m: half, x: half, j: nat) {
    x == Xor(n, m) && m & Cleared(j) == 0
  }

  lemma ClearNext(m: half, j: nat)
    requires m & Cleared(j) == 0 && j < 8
    ensures Up(m) & Cleared(j + 1) == 0
  {}

  lemma StandsAtEnd(n: half, m: half, x: half)
    requires Stands(n, m, x, 8)
    ensures n == x
  {
    DataGone(n, m);
  }

  lemma DataGone(n: half, m: half)
    requires m & Cleared(8) == 0
    ensures Xor(n, m) == n
  {}

  /** The inner loop's body: one data bit. */
  method FeedBit(n0: half, m0: half, ghost x0: half, ghost j: nat) returns (n: half, m: half)
    requires Stands(n0, m0, x0, j) && j < 8
    ensures Stands(n, m, Shift(x0), j + 1)
  {
    SideBySide(n0, m0);
    ClearNext(m0, j);
    n, m := Feedback(n0, m0), Up(m0);
  }

  method FeedBits(n0: half, m0: half, ghost x0: half) returns (n: half)
    requires Stands(n0, m0, x0, 0)
    ensures n == Shifts(x0, 8)
  {
    var m := m0;
    ghost var x := x0;
    n := n0;
    for j := 0 to 8
      invariant Stands(n, m, x, j)
      invariant Shifts(x, 8 - j) == Shifts(x0, 8)
    {
      n, m := FeedBit(n, m, x, j);
      x := Shift(x);
    }
    StandsAtEnd(n, m, x);
  }

  lemma DataByte(b: byte)
    ensures Top(b) & Cleared(0) == 0
  {}

  /** The outer loop's body: one byte. */
  method FeedByte(n0: half, b: byte) returns (n: half)
    ensures n == Feed(n0, b)
  {
    DataByte(b);
    n := FeedBits(n0, Top(b), Xor(n0, Top(b)));
  }

  lemma Reassemble(n: half)
    ensures (((n & 0xff00) >> 8) << 8) | (n & 0xff) == n
    ensures n ^ 0xffff == !n
  {}

  const HEADER: nat := 0x54

  method FeedHeader(head: seq<byte>) returns (n: half)
    requires |head| >= HEADER
    ensures n == Fold(FeedStep(), 0xffff, head[..HEADER])
  {
    n := 0xffff;
    for i := 0 to HEADER
      invariant n == Fold(FeedStep(), 0xffff, head[..i])
    {
      FoldNext(FeedStep(), 0xffff, head, i);
      n := FeedByte(n, head[i]);
    }
  }

  /** get_hcs: the complement of folding make_crc16's byte step over the header. */
  method GetHcs(head: seq<byte>) returns (hcs: half)
    requires |head| >= HEADER
    ensures hcs == !Fold(FeedStep(), 0xffff, head[..HEADER])
  {
    var n := FeedHeader(head);
    hcs := Finish(n);
  }

  method Finish(n0: half) returns (hcs: half)
    ensures hcs == !n0
  {
    var n := n0 ^ 0xffff;
    Reassemble(n);
    Reassemble(n0);
    hcs := (((n & 0xff00) >> 8) << 8) | (n & 0xff);
  }

  /** The checksum loop of encode_crc.c. */
  method FoldCrc16(bytes: seq<byte>, signed: bool) returns (crc: wide)
    ensures crc == Fold(FeedStep(), 0xffff, bytes) as wide
  {
    crc := 0xffff;
    for i := 0 to |bytes|
      invariant crc == Fold(FeedStep(), 0xffff, bytes[..i]) as wide
    {
      FoldNext(FeedStep(), 0xffff, bytes, i);
      crc := MakeCrc16(crc, bytes[i], signed);
    }
    assert bytes[..|bytes|] == bytes;
  }
}
