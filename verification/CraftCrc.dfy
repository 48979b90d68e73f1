/** Forcing the CRC-32 of a buffer by patching its last four bytes
    (tools/firmware-utils/src/jcgimage.c, craftcrc). */
module CraftCrc {
  import opened Folds
  import opened Crc32

  const POLY: word := 0xedb8_8320

  /** The register that 32 shifts turn into the top bit alone: the inverse of x^32. */
  const INVERSE: word := 0x5b35_8fd3

  const TOP: word := 0x8000_0000

  function Step16(c: word): word {
    Step8(POLY, Step8(POLY, c))
  }

  function Step32(c: word): word {
    Step16(Step16(c))
  }

  lemma Step16Linear(a: word, b: word)
    ensures Step16(Xor(a, b)) == Xor(Step16(a), Step16(b))
  {
    Step8Linear(POLY, a, b);
    Step8Linear(POLY, Step8(POLY, a), Step8(POLY, b));
  }

  lemma Step32Linear(a: word, b: word)
    ensures Step32(Xor(a, b)) == Xor(Step32(a), Step32(b))
  {
    Step16Linear(a, b);
    Step16Linear(Step16(a), Step16(b));
  }

  lemma Commute8(c: word)
    ensures Step8(POLY, Step(POLY, c)) == Step(POLY, Step8(POLY, c))
  {}

  /** One more shift may come before or after the 32. */
  lemma Commute32(c: word)
    ensures Step32(Step(POLY, c)) == Step(POLY, Step32(c))
  {
    Commute8(c);
    Commute8(Step8(POLY, c));
    Commute8(Step16(c));
    Commute8(Step8(POLY, Step16(c)));
  }

  lemma InverseIsTop()
    ensures Step32(INVERSE) == TOP
  {}

  // ---------- Shifting the target into place, a bit at a time ----------

  function Shl(a: word, j: bv8): word
    requires j <= 32
  {
    a << j
  }

  /** The i lowest bits of a, moved to the top. */
  function Moved(a: word, i: bv8): word
    requires i <= 32
  {
    Shl(a, 32 - i)
  }

  function Double(x: word): word { x << 1 }

  lemma ShiftMore(a: word, j: bv8)
    requires j < 32
    ensures Shl(a, j + 1) == Double(Shl(a, j))
  {}

  lemma Count(i: bv8)
    requires i < 32
    ensures 32 - (i + 1) == 31 - i
    ensures 32 - i == (31 - i) + 1
  {}

  lemma MovedNext(a: word, i: bv8)
    requires i < 32
    ensures Moved(a, i) == Double(Moved(a, i + 1))
  {
    Count(i);
    ShiftMore(a, 31 - i);
  }

  lemma MovedTop(a: word, i: bv8)
    requires i < 32
    ensures Moved(a, i + 1) & TOP == 0 <==> (a >> i) & 1 == 0
  {
    Count(i);
  }

  lemma HalveClear(next: word)
    requires next & TOP == 0
    ensures Step(POLY, Double(next)) == next
  {}

  lemma HalveSet(next: word)
    requires next & TOP != 0
    ensures Xor(Step(POLY, Double(next)), TOP) == next
  {}

  lemma DropBit(a: word, i: bv8)
    requires i < 32
    ensures (a >> i) >> 1 == a >> (i + 1)
  {}

  /** The bits of a0 from i on, and those before it moved to the top. */
  ghost predicate Split(a0: word, i: bv8, a: word, acc: word) {
    i <= 32 && a == a0 >> i && acc == Moved(a0, i)
  }

  /** What one more bit of the target makes of the shifted bits. */
  function Shifted(acc: word, a: word): word {
    if a & 1 == 1 then Xor(Step(POLY, acc), TOP) else Step(POLY, acc)
  }

  lemma ShiftedNext(a0: word, i: bv8, a: word)
    requires i < 32 && a == a0 >> i
    ensures Shifted(Moved(a0, i), a) == Moved(a0, i + 1)
  {
    MovedNext(a0, i);
    MovedTop(a0, i);
    Parity(a);
    if a & 1 == 1 {
      HalveSet(Moved(a0, i + 1));
    } else {
      HalveClear(Moved(a0, i + 1));
    }
  }

  lemma SplitNext(a0: word, i: bv8, a: word, acc: word)
    requires Split(a0, i, a, acc) && i < 32
    ensures Split(a0, i + 1, a >> 1, Shifted(acc, a))
  {
    DropBit(a0, i);
    ShiftedNext(a0, i, a);
  }

  lemma MovedNothing(a0: word)
    ensures Moved(a0, 0) == 0
  {}

  lemma MovedAll(a0: word)
    ensures Moved(a0, 32) == a0
  {}

  lemma SplitStarts(a0: word)
    ensures Split(a0, 0, a0, 0)
  {
    MovedNothing(a0);
    assert a0 >> 0 == a0;
  }

  /** A round of the loop moves what 32 shifts would show by one shift, and may set its top bit. */
  lemma RoundShifts(patch: word, a: word)
    ensures Step32(Step(POLY, patch)) == Step(POLY, Step32(patch))
    ensures Step32(Xor(Step(POLY, patch), INVERSE)) == Xor(Step(POLY, Step32(patch)), TOP)
  {
    Commute32(patch);
    Step32Linear(Step(POLY, patch), INVERSE);
    InverseIsTop();
  }

  /** The body of the loop, for the bit of a that is next. */
  method Round(patch: word, a: word) returns (next: word)
    ensures Step32(next) == Shifted(Step32(patch), a)
  {
    RoundShifts(patch, a);
    next := Step(POLY, patch);
    if a & 1 == 1 {
      next := Xor(next, INVERSE);
    }
  }

  /** The loop of craftcrc: multiplication by x^-32. */
  method Unshift(a0: word) returns (patch: word)
    ensures Step32(patch) == a0
  {
    patch := 0;
    var a, i: bv8 := a0, 0;
    SplitStarts(a0);
    while i < 32
      invariant Split(a0, i, a, Step32(patch))
      decreases 32 - i
    {
      SplitNext(a0, i, a, Step32(patch));
      patch := Round(patch, a);
      a := a >> 1;
      i := i + 1;
    }
    MovedAll(a0);
  }

  // ---------- Writing the patch ----------

  /** The shifts still to come when k patch bytes are unwritten. */
  function Rest(k: nat, x: word): word {
    if k == 0 then x
    else if k == 1 then Step8(POLY, x)
    else if k == 2 then Step16(x)
    else if k == 3 then Step16(Step8(POLY, x))
    else Step32(x)
  }

  lemma RestNext(k: nat, x: word)
    requires 1 <= k <= 4
    ensures Rest(k, x) == Rest(k - 1, Step8(POLY, x))
  {}

  function LowByte(patch: word): byte {
    (patch & 0xff) as byte
  }

  lemma ByteBack(patch: word)
    ensures Wide(LowByte(patch)) == Low8(patch)
  {}

  lemma XorRegroup(r: word, patch: word)
    ensures Xor(r, patch) == Xor(Xor(r, Low8(patch)), High24(patch))
  {}

  /** Feeding the low byte of the patch is eight shifts of register and patch together. */
  lemma FeedLowByte(r: word, patch: word)
    ensures Step8(POLY, Xor(r, patch)) == Xor(Feed(POLY, r, LowByte(patch)), Shr8(patch))
  {
    XorRegroup(r, patch);
    ByteBack(patch);
    HighShifts(POLY, patch);
    Step8Linear(POLY, Xor(r, Low8(patch)), High24(patch));
  }

  /** What a patch can still be after i bytes were shifted out. */
  function Limit(i: nat): word {
    if i == 0 then 0xffff_ffff
    else if i == 1 then 0x00ff_ffff
    else if i == 2 then 0x0000_ffff
    else if i == 3 then 0x0000_00ff
    else 0
  }

  lemma LimitNext(i: nat, patch: word)
    requires i < 4 && patch <= Limit(i)
    ensures Shr8(patch) <= Limit(i + 1)
  {}

  /** Register r, with the unwritten patch mixed in, will end at goal. */
  ghost predicate OnCourse(r: word, patch: word, written: nat, goal: word) {
    written <= 4 && patch <= Limit(written) && Rest(4 - written, Xor(r, patch)) == goal
  }

  lemma StayOnCourse(r: word, patch: word, written: nat, goal: word)
    requires OnCourse(r, patch, written, goal) && written < 4
    ensures OnCourse(Feed(POLY, r, LowByte(patch)), Shr8(patch), written + 1, goal)
  {
    LimitNext(written, patch);
    FeedLowByte(r, patch);
    RestNext(4 - written, Xor(r, patch));
  }

  lemma XorZero(r: word, patch: word)
    requires patch <= 0
    ensures Xor(r, patch) == r
  {}

  lemma Arrived(r: word, patch: word, goal: word)
    requires OnCourse(r, patch, 4, goal)
    ensures r == goal
  {
    XorZero(r, patch);
  }

  lemma AnyPatch(patch: word)
    ensures patch <= 0xffff_ffff
  {}

  lemma Depart(r: word, patch: word)
    ensures OnCourse(r, patch, 0, Step32(Xor(r, patch)))
  {
    AnyPatch(patch);
  }

  /** The bytes of the patch, lowest first. */
  function PatchBytes(patch: word, n: nat): seq<byte> {
    if n == 0 then [] else [LowByte(patch)] + PatchBytes(Shr8(patch), n - 1)
  }

  lemma FoldFirst<S>(f: (S, byte) -> S, r: S, b: byte, s: seq<byte>)
    ensures Fold(f, r, [b] + s) == Fold(f, f(r, b), s)
  {
    FoldConcat(f, r, [b], s);
    assert [b][..0] == [];
    assert Fold(f, r, [b]) == f(Fold(f, r, []), b);
  }

  /** Feeding what is left of the patch arrives at goal. */
  lemma {:induction false} FeedPatch(r: word, patch: word, written: nat, goal: word)
    requires OnCourse(r, patch, written, goal)
    ensures FeedAll(POLY, r, PatchBytes(patch, 4 - written)) == goal
    decreases 4 - written
  {
    if written == 4 {
      Arrived(r, patch, goal);
    } else {
      StayOnCourse(r, patch, written, goal);
      FeedPatch(Feed(POLY, r, LowByte(patch)), Shr8(patch), written + 1, goal);
      FoldFirst(FeedStep(POLY), r, LowByte(patch), PatchBytes(Shr8(patch), 3 - written));
    }
  }

  lemma FeedWhole(r: word, patch: word)
    ensures FeedAll(POLY, r, PatchBytes(patch, 4)) == Step32(Xor(r, patch))
  {
    Depart(r, patch);
    FeedPatch(r, patch, 0, Step32(Xor(r, patch)));
  }

  /** The register after a buffer and a patch. */
  lemma FeedBoth(s: seq<byte>, patch: word)
    ensures FeedAll(POLY, Inv(0), s + PatchBytes(patch, 4)) == Step32(Xor(FeedAll(POLY, Inv(0), s), patch))
  {
    FeedWhole(FeedAll(POLY, Inv(0), s), patch);
    FoldConcat(FeedStep(POLY), Inv(0), s, PatchBytes(patch, 4));
  }

  lemma XorBack(r: word, patch: word)
    ensures Xor(r, Xor(patch, r)) == patch
  {}

  /** The whole buffer's CRC once the patch stands at its end. */
  lemma PatchedCrc(dcrc: word, s: seq<byte>, unshifted: word)
    requires Step32(unshifted) == Inv(dcrc)
    ensures Crc(POLY, 0, s + PatchBytes(Xor(unshifted, Inv(Crc(POLY, 0, s))), 4)) == dcrc
  {
    var r := FeedAll(POLY, Inv(0), s);
    InvertTwice(r);
    InvertTwice(dcrc);
    XorBack(r, unshifted);
    FeedBoth(s, Xor(unshifted, r));
  }

  /** craftcrc: only the last four bytes change, the buffer then has the CRC-32 asked for,
      and the final self-check finds nothing wrong. */
  method CraftCrc(dcrc: word, buf: array<byte>) returns (broken: bool)
    requires buf.Length >= 4
    modifies buf
    ensures buf[..buf.Length - 4] == old(buf[..buf.Length - 4])
    ensures Crc(POLY, 0, buf[..]) == dcrc
    ensures !broken
  {
    var body := buf.Length - 4;
    var patch := Unshift(Inv(dcrc));
    PatchedCrc(dcrc, buf[..body], patch);
    patch := Xor(patch, Inv(Crc(POLY, 0, buf[..body])));
    WritePatch(buf, body, patch);
    broken := Crc(POLY, 0, buf[..]) != dcrc;
  }

  lemma NextPatchByte(written: seq<byte>, patch: word, n: nat)
    requires n > 0
    ensures written + PatchBytes(patch, n) == (written + [LowByte(patch)]) + PatchBytes(Shr8(patch), n - 1)
  {}

  method WritePatch(buf: array<byte>, body: nat, patch0: word)
    requires body + 4 == buf.Length
    modifies buf
    ensures buf[..body] == old(buf[..body])
    ensures buf[..] == old(buf[..body]) + PatchBytes(patch0, 4)
  {
    var patch := patch0;
    for i := 0 to 4
      invariant buf[..body] == old(buf[..body])
      invariant buf[body..body + i] + PatchBytes(patch, 4 - i) == PatchBytes(patch0, 4)
    {
      ghost var written := buf[body..body + i];
      NextPatchByte(written, patch, 4 - i);
      buf[body + i] := LowByte(patch);
      assert buf[body..body + i + 1] == written + [LowByte(patch)];
      patch := Shr8(patch);
    }
    assert buf[..] == buf[..body] + buf[body..body + 4];
  }

  // ---------- The patch is the only one ----------

  lemma StepKernel(c: word)
    ensures Step(POLY, c) == 0 ==> c == 0
  {}

  lemma Step8Kernel(c: word)
    ensures Step8(POLY, c) == 0 ==> c == 0
  {
    var c1 := Step(POLY, c);
    var c2 := Step(POLY, c1);
    var c3 := Step(POLY, c2);
    var c4 := Step(POLY, c3);
    var c5 := Step(POLY, c4);
    var c6 := Step(POLY, c5);
    StepKernel(c);
    StepKernel(c1);
    StepKernel(c2);
    StepKernel(c3);
    StepKernel(c4);
    StepKernel(c5);
    StepKernel(c6);
    StepKernel(Step(POLY, c6));
  }

  lemma Step32Kernel(c: word)
    ensures Step32(c) == 0 ==> c == 0
  {
    Step8Kernel(c);
    Step8Kernel(Step8(POLY, c));
    Step8Kernel(Step16(c));
    Step8Kernel(Step8(POLY, Step16(c)));
  }

  lemma XorUndo(x: word, y: word)
    ensures Xor(Xor(x, y), y) == x
    ensures Xor(0, y) == y
    ensures Xor(x, x) == 0
  {}

  lemma Step32Injective(x: word, y: word)
    requires Step32(x) == Step32(y)
    ensures x == y
  {
    Step32Linear(x, y);
    XorUndo(Step32(x), 0);
    Step32Kernel(Xor(x, y));
    XorUndo(x, y);
  }

  lemma XorCancel(r: word, p: word)
    ensures Xor(r, Xor(r, p)) == p
  {}

  lemma PatchWordUnique(s: seq<byte>, p: word, q: word)
    requires Crc(POLY, 0, s + PatchBytes(p, 4)) == Crc(POLY, 0, s + PatchBytes(q, 4))
    ensures p == q
  {
    var r := FeedAll(POLY, Inv(0), s);
    FeedBoth(s, p);
    FeedBoth(s, q);
    InvertTwice(Step32(Xor(r, p)));
    InvertTwice(Step32(Xor(r, q)));
    Step32Injective(Xor(r, p), Xor(r, q));
    XorCancel(r, p);
    XorCancel(r, q);
  }

  function Word4(a: byte, b: byte, c: byte, d: byte): word {
    Wide(a) | (Wide(b) << 8) | (Wide(c) << 16) | (Wide(d) << 24)
  }

  lemma Word4Bytes(a: byte, b: byte, c: byte, d: byte)
    ensures LowByte(Word4(a, b, c, d)) == a
    ensures Shr8(Word4(a, b, c, d)) == Word4(b, c, d, 0)
  {}

  lemma PatchNext(p: word, b: byte, x: word, n: nat)
    requires LowByte(p) == b && Shr8(p) == x
    ensures PatchBytes(p, n + 1) == [b] + PatchBytes(x, n)
  {}

  lemma Word4Next(a: byte, b: byte, c: byte, d: byte, n: nat)
    ensures PatchBytes(Word4(a, b, c, d), n + 1) == [a] + PatchBytes(Word4(b, c, d, 0), n)
  {
    Word4Bytes(a, b, c, d);
    PatchNext(Word4(a, b, c, d), a, Word4(b, c, d, 0), n);
  }

  /** Taking off one byte after the other. */
  lemma FourSteps<T>(s4: seq<T>, s3: seq<T>, s2: seq<T>, s1: seq<T>, s0: seq<T>, a: T, b: T, c: T, d: T)
    requires s4 == [a] + s3 && s3 == [b] + s2 && s2 == [c] + s1 && s1 == [d] + s0 && s0 == []
    ensures s4 == [a, b, c, d]
  {}

  function Bytes4(a: byte, b: byte, c: byte, d: byte, n: nat): seq<byte> {
    PatchBytes(Word4(a, b, c, d), n)
  }

  lemma Bytes4Next(a: byte, b: byte, c: byte, d: byte, n: nat)
    ensures Bytes4(a, b, c, d, n + 1) == [a] + Bytes4(b, c, d, 0, n)
    ensures Bytes4(a, b, c, d, 0) == []
  {
    Word4Next(a, b, c, d, n);
  }

  /** Any four bytes are the bytes of a patch. */
  lemma PatchOf(a: byte, b: byte, c: byte, d: byte)
    ensures Bytes4(a, b, c, d, 4) == [a, b, c, d]
  {
    Bytes4Next(a, b, c, d, 3);
    Bytes4Next(b, c, d, 0, 2);
    Bytes4Next(c, d, 0, 0, 1);
    Bytes4Next(d, 0, 0, 0, 0);
    Bytes4Next(0, 0, 0, 0, 0);
    FourSteps(Bytes4(a, b, c, d, 4), Bytes4(b, c, d, 0, 3), Bytes4(c, d, 0, 0, 2), Bytes4(d, 0, 0, 0, 1),
              Bytes4(0, 0, 0, 0, 0), a, b, c, d);
  }

  lemma SameEnds(s: seq<byte>, p: word, t: seq<byte>, q: word, u: seq<byte>)
    requires PatchBytes(p, 4) == t && PatchBytes(q, 4) == u && Crc(POLY, 0, s + t) == Crc(POLY, 0, s + u)
    ensures t == u
  {
    PatchWordUnique(s, p, q);
  }

  /** Two four-byte ends of the same buffer never give the same CRC: the one that craftcrc
      writes is the only one that reaches the target. */
  lemma PatchUnique(s: seq<byte>, t: seq<byte>, u: seq<byte>)
    requires |t| == |u| == 4 && Crc(POLY, 0, s + t) == Crc(POLY, 0, s + u)
    ensures t == u
  {
    PatchOf(t[0], t[1], t[2], t[3]);
    PatchOf(u[0], u[1], u[2], u[3]);
    SameEnds(s, Word4(t[0], t[1], t[2], t[3]), t, Word4(u[0], u[1], u[2], u[3]), u);
  }
}
