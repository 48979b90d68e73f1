/** The one-block cache with which bqtool reads and writes parameters in a gauge's data memory
    (package/bqtool/src/gauge.c).

    Data memory is one sequence of bytes, 32 to a block; a block's number is its subclass and
    its index, as in blk_id.  A parameter carries the bytes that go to the device. */
module GaugeCache {

  type byte = x: int | 0 <= x < 256

  const BLOCK: nat := 32
  const BLOCKS: nat := 0x1_0000
  const REG_BLOCK_DATA: byte := 0x40

  // ---------- Memory as a value ----------

  /** m with t written over it from at on. */
  function Patch(m: seq<byte>, at: nat, t: seq<byte>): (r: seq<byte>)
    requires at + |t| <= |m|
    ensures |r| == |m|
    ensures forall i | 0 <= i < |m| :: r[i] == if at <= i < at + |t| then t[i - at] else m[i]
  {
    m[..at] + t + m[at + |t|..]
  }

  function Part(m: seq<byte>, at: nat, len: nat): (r: seq<byte>)
    requires at + len <= |m|
    ensures |r| == len
    ensures forall i | 0 <= i < len :: r[i] == m[at + i]
  {
    m[at..at + len]
  }

  lemma PatchTwice(m: seq<byte>, at: nat, s: seq<byte>, t: seq<byte>)
    requires at + |s| <= |m| && |t| == |s|
    ensures Patch(Patch(m, at, s), at, t) == Patch(m, at, t)
  {}

  // ---------- Parameters ----------

  /** ok: check_limits accepts the value. */
  datatype Param = Param(subclass: byte, offset: byte, bytes: seq<byte>, ok: bool)
  {
    predicate Valid() {
      |bytes| <= BLOCK
    }

    /** blk_id. */
    function Blk(): (b: nat)
      ensures b + 1 < BLOCKS
    {
      subclass * 256 + offset / BLOCK
    }

    function Inner(): nat {
      offset % BLOCK
    }

    function Address(): nat {
      Blk() * BLOCK + Inner()
    }

    predicate Straddles() {
      Inner() + |bytes| > BLOCK
    }

    /** The block that is in the buffer afterwards. */
    function LastBlk(): nat {
      if Straddles() then Blk() + 1 else Blk()
    }
  }

  /** The bytes of a subclass follow one another by their offsets. */
  lemma AddressExact(p: Param)
    ensures p.Address() == p.subclass * 256 * BLOCK + p.offset
  {}

  ghost predicate IsMemory(m: seq<byte>) {
    |m| == BLOCKS * BLOCK
  }

  lemma InMemory(p: Param, m: seq<byte>)
    requires p.Valid() && IsMemory(m)
    ensures p.Address() + |p.bytes| <= (p.Blk() + 2) * BLOCK <= |m|
    ensures !p.Straddles() ==> p.Address() + |p.bytes| <= (p.Blk() + 1) * BLOCK
  {}

  /** One parameter written. */
  function Written(l: seq<byte>, p: Param): (r: seq<byte>)
    requires p.Valid() && IsMemory(l)
    ensures IsMemory(r)
  {
    InMemory(p, l);
    Patch(l, p.Address(), p.bytes)
  }

  /** The memory with every parameter's bytes written at its address, in order. */
  function Overwritten(m: seq<byte>, ps: seq<Param>): (r: seq<byte>)
    requires IsMemory(m) && forall p | p in ps :: p.Valid()
    ensures IsMemory(r)
  {
    if ps == [] then m
    else
      Written(Overwritten(m, ps[..|ps| - 1]), ps[|ps| - 1])
  }

  /** No parameter runs on into the block that the one before it left in the buffer. */
  predicate Sequenced(ps: seq<Param>) {
    forall i | 0 < i < |ps| :: ps[i].Straddles() ==> ps[i].Blk() + 1 != ps[i - 1].LastBlk()
  }

  /** Ascending, not overlapping addresses, as the parameter files list them. */
  predicate Ascending(ps: seq<Param>) {
    forall i | 0 < i < |ps| :: ps[i - 1].Address() + |ps[i - 1].bytes| <= ps[i].Address()
  }

  lemma AscendingSequenced(ps: seq<Param>)
    requires Ascending(ps)
    ensures Sequenced(ps)
  {
    forall i | 0 < i < |ps| && ps[i].Straddles()
      ensures ps[i].Blk() + 1 != ps[i - 1].LastBlk()
    {
      assert ps[i - 1].Address() + |ps[i - 1].bytes| <= ps[i].Address();
    }
  }

  // ---------- The device ----------

  /** Any access may fail, and then leaves noise behind. */
  class Device {
    var mem: seq<byte>
    var tick: nat
    const fails: nat -> bool
    const noise: (nat, nat) -> byte

    ghost predicate Valid()
      reads this
    {
      IsMemory(mem)
    }

    /** No access ever fails. */
    ghost predicate Reliable() {
      forall t :: !fails(t)
    }

    /** One of n tries from now on succeeds. */
    ghost predicate Succeeds(now: nat, n: nat) {
      exists t: nat :: now <= t < now + n && !fails(t)
    }

    method DoRead(blk: nat, buf: array<byte>, at: nat) returns (ok: bool)
      requires Valid() && blk < BLOCKS && at + 1 + BLOCK <= buf.Length
      modifies this`tick, buf
      ensures (ok <==> !fails(old(tick))) && tick == old(tick) + 1
      ensures ok ==> buf[at + 1..at + 1 + BLOCK] == Part(mem, blk * BLOCK, BLOCK)
      ensures forall l | 0 <= l < buf.Length && !(at <= l <= at + BLOCK) :: buf[l] == old(buf[l])
    {
      ok := !fails(tick);
      buf[at] := REG_BLOCK_DATA;
      for l := 0 to BLOCK
        invariant tick == old(tick)
        invariant forall k | at + 1 <= k < at + 1 + l && ok :: buf[k] == mem[blk * BLOCK + (k - (at + 1))]
        invariant forall k | 0 <= k < buf.Length && !(at <= k <= at + BLOCK) :: buf[k] == old(buf[k])
      {
        buf[at + 1 + l] := if ok then mem[blk * BLOCK + l] else noise(tick, l);
      }
      tick := tick + 1;
    }

    method DoWrite(blk: nat, buf: array<byte>) returns (ok: bool)
      requires Valid() && blk < BLOCKS && 1 + BLOCK <= buf.Length
      modifies this`mem, this`tick, buf
      ensures Valid() && forall l | 1 <= l < buf.Length :: buf[l] == old(buf[l])
      ensures (ok <==> !fails(old(tick))) && tick == old(tick) + 1
      ensures exists t: seq<byte> ::
                (|t| == BLOCK && mem == Patch(old(mem), blk * BLOCK, t) && (ok ==> t == old(Part(buf[..], 1, BLOCK))))
    {
      ok := !fails(tick);
      var now := tick;
      var t := if ok then Part(buf[..], 1, BLOCK) else seq(BLOCK, l requires 0 <= l < BLOCK => noise(now, l));
      buf[0] := REG_BLOCK_DATA;
      mem := Patch(mem, blk * BLOCK, t);
      tick := tick + 1;
    }

    /** rw_dm_block, reading: five tries. */
    method ReadBlock(blk: nat, buf: array<byte>, at: nat) returns (ok: bool)
      requires Valid() && blk < BLOCKS && at + 1 + BLOCK <= buf.Length
      modifies this`tick, buf
      ensures (ok <==> Succeeds(old(tick), 5)) && (Reliable() ==> ok)
      ensures ok ==> buf[at + 1..at + 1 + BLOCK] == Part(mem, blk * BLOCK, BLOCK)
      ensures forall l | 0 <= l < buf.Length && !(at <= l <= at + BLOCK) :: buf[l] == old(buf[l])
    {
      ReliableSucceeds(this, tick);
      var i := 0;
      ok := false;
      while i < 5 && !ok
        invariant 0 <= i <= 5 && (!ok ==> tick == old(tick) + i && forall t: nat | old(tick) <= t < tick :: fails(t))
        invariant ok ==> Succeeds(old(tick), 5)
        invariant ok ==> buf[at + 1..at + 1 + BLOCK] == Part(mem, blk * BLOCK, BLOCK)
        invariant forall l | 0 <= l < buf.Length && !(at <= l <= at + BLOCK) :: buf[l] == old(buf[l])
      {
        ok := DoRead(blk, buf, at);
        i := i + 1;
      }
    }

    /** rw_dm_block, writing: a try that succeeds makes up for those before it. */
    method WriteBlock(blk: nat, buf: array<byte>) returns (ok: bool)
      requires Valid() && blk < BLOCKS && 1 + BLOCK <= buf.Length
      modifies this`mem, this`tick, buf
      ensures Valid() && forall l | 1 <= l < buf.Length :: buf[l] == old(buf[l])
      ensures (ok <==> Succeeds(old(tick), 5)) && (Reliable() ==> ok)
      ensures ok ==> mem == Patch(old(mem), blk * BLOCK, old(Part(buf[..], 1, BLOCK)))
    {
      ReliableSucceeds(this, tick);
      var i := 0;
      ok := false;
      ghost var (m, t) := (mem, Part(buf[..], 1, BLOCK));
      ghost var s := Part(mem, blk * BLOCK, BLOCK);
      assert Patch(m, blk * BLOCK, s) == m;
      while i < 5 && !ok
        invariant 0 <= i <= 5 && (!ok ==> tick == old(tick) + i && forall t: nat | old(tick) <= t < tick :: fails(t))
        invariant ok ==> Succeeds(old(tick), 5)
        invariant Valid() && forall l | 1 <= l < buf.Length :: buf[l] == old(buf[l])
        invariant |s| == BLOCK && mem == Patch(m, blk * BLOCK, s) && (ok ==> s == t)
      {
        assert Part(buf[..], 1, BLOCK) == t;
        ghost var m1 := mem;
        ok := DoWrite(blk, buf);
        ghost var s' :| |s'| == BLOCK && mem == Patch(m1, blk * BLOCK, s') && (ok ==> s' == t);
        PatchTwice(m, blk * BLOCK, s, s');
        s := s';
        i := i + 1;
      }
    }
  }

  // ---------- What the buffer holds ----------

  /** mem is l but for block b. */
  ghost predicate SameBut(mem: seq<byte>, l: seq<byte>, b: nat) {
    |mem| == |l| && forall i | 0 <= i < |l| && !(b * BLOCK <= i < (b + 1) * BLOCK) :: mem[i] == l[i]
  }

  /** Writing the buffer back makes the memory what it should be. */
  lemma FlushIsWhole(mem: seq<byte>, l: seq<byte>, b: nat)
    requires SameBut(mem, l, b) && (b + 1) * BLOCK <= |l|
    ensures Patch(mem, b * BLOCK, Part(l, b * BLOCK, BLOCK)) == l
  {}

  /** A parameter inside one block: only the buffer changes. */
  lemma StoredInside(mem: seq<byte>, l: seq<byte>, p: Param)
    requires p.Valid() && IsMemory(l) && SameBut(mem, l, p.Blk()) && !p.Straddles()
    ensures var l' := Written(l, p);
      && SameBut(mem, l', p.Blk())
      && Patch(Part(l, p.Blk() * BLOCK, BLOCK), p.Inner(), p.bytes) == Part(l', p.Blk() * BLOCK, BLOCK)
  {
    InMemory(p, l);
  }

  /** A parameter in two blocks, the second of which was read as second: the first is written,
      the second stays in the buffer. */
  lemma StoredAcross(mem: seq<byte>, l: seq<byte>, second: seq<byte>, p: Param)
    requires p.Valid() && IsMemory(l) && SameBut(mem, l, p.Blk()) && p.Straddles() && |second| == BLOCK
    ensures var l' := Written(Patch(l, (p.Blk() + 1) * BLOCK, second), p);
      && SameBut(Patch(mem, p.Blk() * BLOCK, Part(l', p.Blk() * BLOCK, BLOCK)), l', p.Blk() + 1)
      && Patch(Part(l, p.Blk() * BLOCK, BLOCK) + second, p.Inner(), p.bytes) == Part(l', p.Blk() * BLOCK, 2 * BLOCK)
  {
    InMemory(p, l);
  }

  // ---------- The buffer ----------

  const BUF_LEN: nat := 65

  /** The two block-sized parts of the buffer. */
  ghost function Front(buf: array<byte>): seq<byte>
    requires buf.Length == BUF_LEN
    reads buf
  {
    buf[1..1 + BLOCK]
  }

  ghost function Back(buf: array<byte>): seq<byte>
    requires buf.Length == BUF_LEN
    reads buf
  {
    buf[1 + BLOCK..BUF_LEN]
  }

  /** The block that a parameter runs on into, read behind the first one, whose last byte the
      register number would overwrite. */
  method LoadSecond(dev: Device, p: Param, buf: array<byte>) returns (ok: bool)
    requires dev.Valid() && buf.Length == BUF_LEN
    modifies dev`tick, buf
    ensures dev.Reliable() ==> ok
    ensures Front(buf) == old(Front(buf))
    ensures ok ==> Back(buf) == Part(dev.mem, (p.Blk() + 1) * BLOCK, BLOCK)
  {
    var tmp := buf[BLOCK];
    ok := dev.ReadBlock(p.Blk() + 1, buf, BLOCK);
    buf[BLOCK] := tmp;
  }

  /** A block into the front of the buffer. */
  method LoadFirst(dev: Device, b: nat, buf: array<byte>) returns (ok: bool)
    requires dev.Valid() && buf.Length == BUF_LEN && b < BLOCKS
    modifies dev`tick, buf
    ensures dev.Reliable() ==> ok
    ensures Back(buf) == old(Back(buf))
    ensures ok ==> Front(buf) == Part(dev.mem, b * BLOCK, BLOCK)
  {
    ok := dev.ReadBlock(b, buf, 0);
  }

  /** The front of the buffer out to the device. */
  method Flush(dev: Device, b: nat, buf: array<byte>) returns (ok: bool)
    requires dev.Valid() && buf.Length == BUF_LEN && b < BLOCKS
    modifies dev`mem, dev`tick, buf
    ensures dev.Valid() && Front(buf) == old(Front(buf)) && Back(buf) == old(Back(buf))
    ensures dev.Reliable() ==> ok
    ensures ok ==> dev.mem == Patch(old(dev.mem), b * BLOCK, old(Front(buf)))
  {
    ghost var front := Front(buf);
    assert Part(buf[..], 1, BLOCK) == front;
    ok := dev.WriteBlock(b, buf);
  }

  /** The parameter's bytes into the buffer. */
  method Store(p: Param, buf: array<byte>)
    requires p.Valid() && buf.Length == BUF_LEN
    modifies buf
    ensures !p.Straddles() ==> Front(buf) == Patch(old(Front(buf)), p.Inner(), p.bytes)
    ensures p.Straddles() ==> Front(buf) + Back(buf) == Patch(old(Front(buf) + Back(buf)), p.Inner(), p.bytes)
  {
    var at := p.Inner() + 1;
    ghost var (front, back) := (Front(buf), Back(buf));
    for k := 0 to |p.bytes|
      invariant forall l | 0 <= l < BUF_LEN :: buf[l] == if at <= l < at + k then p.bytes[l - at] else old(buf[l])
    {
      buf[at + k] := p.bytes[k];
    }
    StoredParts(front, back, Front(buf), Back(buf), p);
  }

  lemma StoredParts(front0: seq<byte>, back0: seq<byte>, front: seq<byte>, back: seq<byte>, p: Param)
    requires p.Valid() && |front0| == |back0| == |front| == |back| == BLOCK
    requires forall l | 0 <= l < BLOCK ::
               front[l] == if p.Inner() <= l < p.Inner() + |p.bytes| then p.bytes[l - p.Inner()] else front0[l]
    requires forall l | 0 <= l < BLOCK ::
               back[l] == if l + BLOCK < p.Inner() + |p.bytes| then p.bytes[l + BLOCK - p.Inner()] else back0[l]
    ensures !p.Straddles() ==> front == Patch(front0, p.Inner(), p.bytes)
    ensures p.Straddles() ==> front + back == Patch(front0 + back0, p.Inner(), p.bytes)
  {}

  method MoveBack(buf: array<byte>)
    requires buf.Length == BUF_LEN
    modifies buf
    ensures Front(buf) == old(Back(buf))
  {
    for k := 0 to BLOCK
      invariant forall l | 1 <= l < 1 + k :: buf[l] == old(buf[l + BLOCK])
      invariant forall l | 1 + BLOCK <= l < BUF_LEN :: buf[l] == old(buf[l])
    {
      buf[1 + k] := buf[1 + BLOCK + k];
    }
  }

  // ---------- write_params_block ----------

  lemma ReliableSucceeds(dev: Device, now: nat)
    ensures dev.Reliable() ==> dev.Succeeds(now, 5)
  {
    if dev.Reliable() {
      assert !dev.fails(now);
    }
  }

  /** The buffer holds what block b should be, and the device the rest of l. */
  ghost predicate Cached(mem: seq<byte>, front: seq<byte>, l: seq<byte>, b: nat) {
    b < BLOCKS && IsMemory(l) && SameBut(mem, l, b) && front == Part(l, b * BLOCK, BLOCK)
  }

  /** The block of the next parameter into the buffer, after the one that was there is
      written; ok0 is false if the access before this one failed. */
  method Switch(dev: Device, p: Param, first: bool, prev: nat, buf: array<byte>, ok0: bool, ghost l: seq<byte>)
      returns (ok: bool)
    requires dev.Valid() && buf.Length == BUF_LEN
    requires if first then dev.mem == l else Cached(dev.mem, Front(buf), l, prev)
    modifies dev`mem, dev`tick, buf
    ensures dev.Valid() && Back(buf) == old(Back(buf))
    ensures dev.Reliable() && ok0 ==> ok
    ensures ok ==> ok0 && Cached(dev.mem, Front(buf), l, p.Blk())
    ensures ok ==> dev.mem == if first || p.Blk() != prev then l else old(dev.mem)
  {
    ok := ok0;
    if first || p.Blk() != prev {
      if !first {
        FlushIsWhole(dev.mem, l, prev);
        var flushed := Flush(dev, prev, buf);
        ok := ok && flushed;
      }
      if ok {
        ok := LoadFirst(dev, p.Blk(), buf);
      }
    }
  }

  /** What device and buffer hold together after p, when they held l and the device d: the
      second block of a straddling parameter comes from the device. */
  function Next(l: seq<byte>, d: seq<byte>, p: Param): (r: seq<byte>)
    requires p.Valid() && IsMemory(l) && IsMemory(d)
    ensures IsMemory(r)
  {
    var at := (p.Blk() + 1) * BLOCK;
    Written(if p.Straddles() then Patch(l, at, Part(d, at, BLOCK)) else l, p)
  }

  /** What the device holds then; change says whether p is in another block than the buffer. */
  function Left(l: seq<byte>, d: seq<byte>, p: Param, change: bool): (r: seq<byte>)
    requires p.Valid() && IsMemory(l) && IsMemory(d)
    ensures IsMemory(r)
  {
    if p.Straddles() then Patch(l, p.Blk() * BLOCK, Part(Next(l, d, p), p.Blk() * BLOCK, BLOCK))
    else if change then l
    else d
  }

  /** The body of write_params_block's loop; stop is its jump to the end. */
  method WriteParam(dev: Device, p: Param, first: bool, prev: nat, buf: array<byte>, ghost l: seq<byte>)
      returns (ok: bool, stop: bool, last: nat)
    requires dev.Valid() && buf.Length == BUF_LEN && p.Valid() && IsMemory(l)
    requires if first then dev.mem == l else Cached(dev.mem, Front(buf), l, prev)
    modifies dev`mem, dev`tick, buf
    ensures dev.Valid() && last == p.LastBlk() && (stop ==> !ok) && (dev.Reliable() ==> ok)
    ensures ok ==> Cached(dev.mem, Front(buf), Next(l, old(dev.mem), p), last)
    ensures ok ==> dev.mem == Left(l, old(dev.mem), p, first || p.Blk() != prev)
  {
    ok, stop, last := true, false, p.LastBlk();
    ghost var d := dev.mem;
    if p.Straddles() {
      ok := LoadSecond(dev, p, buf);
    }
    ok := Switch(dev, p, first, prev, buf, ok, l);
    if (first || p.Blk() != prev) && !ok {
      stop := true;
      return;
    }
    ghost var mem := dev.mem;
    Store(p, buf);
    if !p.Straddles() {
      if ok {
        StoredInside(mem, l, p);
      }
      return;
    }
    if ok {
      AcrossParts(mem, l, d, p, Front(buf), Back(buf));
    }
    var flushed := Flush(dev, p.Blk(), buf);
    ok := ok && flushed;
    MoveBack(buf);
  }

  lemma AcrossParts(mem: seq<byte>, l: seq<byte>, d: seq<byte>, p: Param, front: seq<byte>, back: seq<byte>)
    requires p.Valid() && IsMemory(l) && IsMemory(d) && SameBut(mem, l, p.Blk()) && p.Straddles() && |front| == BLOCK
    requires front + back == Patch(Part(l, p.Blk() * BLOCK, BLOCK) + Part(d, (p.Blk() + 1) * BLOCK, BLOCK),
        p.Inner(), p.bytes)
    ensures Cached(Patch(mem, p.Blk() * BLOCK, front), back, Next(l, d, p), p.Blk() + 1)
    ensures Patch(mem, p.Blk() * BLOCK, front) == Left(l, d, p, true)
  {
    StoredAcross(mem, l, Part(d, (p.Blk() + 1) * BLOCK, BLOCK), p);
    TwoParts(Next(l, d, p), p.Blk());
    SplitParts(front, back, Next(l, d, p), p.Blk());
    PatchSame(mem, l, p.Blk(), front);
  }

  lemma PatchSame(mem: seq<byte>, l: seq<byte>, b: nat, t: seq<byte>)
    requires SameBut(mem, l, b) && |t| == BLOCK && (b + 1) * BLOCK <= |l|
    ensures Patch(mem, b * BLOCK, t) == Patch(l, b * BLOCK, t)
  {}

  lemma TwoParts(l: seq<byte>, b: nat)
    requires (b + 2) * BLOCK <= |l|
    ensures Part(l, b * BLOCK, 2 * BLOCK) == Part(l, b * BLOCK, BLOCK) + Part(l, (b + 1) * BLOCK, BLOCK)
  {}

  lemma SplitParts(front: seq<byte>, back: seq<byte>, l: seq<byte>, b: nat)
    requires (b + 2) * BLOCK <= |l| && |front| == BLOCK
    requires front + back == Part(l, b * BLOCK, BLOCK) + Part(l, (b + 1) * BLOCK, BLOCK)
    ensures front == Part(l, b * BLOCK, BLOCK) && back == Part(l, (b + 1) * BLOCK, BLOCK)
  {
    assert front == (front + back)[..BLOCK] && back == (front + back)[BLOCK..];
  }

  /** The first parameter that check_limits refuses. */
  function FirstBad(ps: seq<Param>): (n: nat)
    ensures n <= |ps| && (forall i | 0 <= i < n :: ps[i].ok) && (n < |ps| ==> !ps[n].ok)
  {
    if ps == [] || !ps[0].ok then 0 else 1 + FirstBad(ps[1..])
  }

  /** What the last write makes of a straddling last parameter: its second block, written
      over the first one. */
  function Misplaced(l: seq<byte>, p: Param): seq<byte>
    requires p.Valid() && IsMemory(l)
  {
    InMemory(p, l);
    Patch(l, p.Blk() * BLOCK, Part(Written(l, p), (p.Blk() + 1) * BLOCK, BLOCK))
  }

  ghost predicate AllValid(ps: seq<Param>) {
    forall p | p in ps :: p.Valid()
  }

  /** What device and buffer hold together after n parameters. */
  function Together(m: seq<byte>, ps: seq<Param>, n: nat): (r: seq<byte>)
    requires IsMemory(m) && n <= |ps| && AllValid(ps)
    ensures IsMemory(r)
    decreases n, 0
  {
    if n == 0 then m
    else
      Next(Together(m, ps, n - 1), OnDevice(m, ps, n - 1), ps[n - 1])
  }

  /** What the device holds after n parameters. */
  function OnDevice(m: seq<byte>, ps: seq<Param>, n: nat): (r: seq<byte>)
    requires IsMemory(m) && n <= |ps| && AllValid(ps)
    ensures IsMemory(r)
    decreases n, 1
  {
    if n == 0 then m
    else
      Left(Together(m, ps, n - 1), OnDevice(m, ps, n - 1), ps[n - 1], Changes(ps, n - 1))
  }

  /** Parameter i is not in the block that is in the buffer. */
  predicate Changes(ps: seq<Param>, i: nat)
    requires i < |ps|
  {
    i == 0 || ps[i].Blk() != ps[i - 1].LastBlk()
  }

  /** n parameters are through: what the loop of write_params_block keeps. */
  ghost predicate Through(mem: seq<byte>, front: seq<byte>, m: seq<byte>, ps: seq<Param>, n: nat)
    requires IsMemory(m) && n <= |ps| && AllValid(ps)
  {
    mem == OnDevice(m, ps, n) && (n > 0 ==> Cached(mem, front, Together(m, ps, n), ps[n - 1].LastBlk()))
  }

  lemma OverwrittenNext(m: seq<byte>, ps: seq<Param>, n: nat)
    requires IsMemory(m) && n < |ps| && AllValid(ps)
    ensures Overwritten(m, ps[..n + 1]) == Written(Overwritten(m, ps[..n]), ps[n])
  {
    assert ps[..n + 1][..n] == ps[..n];
  }

  /** What the last write makes of it: the buffer goes to the last parameter's first block. */
  function Finished(m: seq<byte>, ps: seq<Param>): (r: seq<byte>)
    requires IsMemory(m) && AllValid(ps) && ps != []
    ensures IsMemory(r)
  {
    var p := ps[|ps| - 1];
    Patch(OnDevice(m, ps, |ps|), p.Blk() * BLOCK, Part(Together(m, ps, |ps|), p.LastBlk() * BLOCK, BLOCK))
  }

  /** write_params_block; junk is what its buffer holds at first.  The memory afterwards is known
      exactly whenever success is reported: with every value within its limits, with one refused,
      when the block in the buffer is not written, and without parameters, when junk is. */
  method WriteParamsBlock(dev: Device, ps: seq<Param>, junk: seq<byte>) returns (ok: bool)
    requires dev.Valid() && AllValid(ps) && |junk| == BUF_LEN
    modifies dev
    ensures dev.Valid() && (dev.Reliable() ==> ok)
    ensures ok && FirstBad(ps) == |ps| > 0 ==> dev.mem == Finished(old(dev.mem), ps)
    ensures ok && FirstBad(ps) < |ps| ==> dev.mem == OnDevice(old(dev.mem), ps, FirstBad(ps))
    ensures ok && ps == [] ==> dev.mem == Patch(old(dev.mem), 0, Part(junk, 1, BLOCK))
    ensures ok && FirstBad(ps) == |ps| > 0 && Sequenced(ps) ==>
      var (l, p) := (Overwritten(old(dev.mem), ps[..|ps| - 1]), ps[|ps| - 1]);
      dev.mem == if p.Straddles() then Misplaced(l, p) else Overwritten(old(dev.mem), ps)
  {
    var buf := new byte[BUF_LEN](k requires 0 <= k < |junk| => junk[k]);
    ghost var m := dev.mem;
    var ended, blk;
    ok, ended, blk := WriteLoop(dev, ps, buf, m);
    if ended {
      return;
    }
    var written := Flush(dev, blk, buf);
    ok := ok && written;
    if ok && ps != [] && Sequenced(ps) {
      SequencedFinished(m, ps);
    }
  }

  /** The loop of write_params_block; ended is its jump to the end. */
  method WriteLoop(dev: Device, ps: seq<Param>, buf: array<byte>, ghost m: seq<byte>)
      returns (ok: bool, ended: bool, blk: nat)
    requires dev.Valid() && AllValid(ps) && buf.Length == BUF_LEN && dev.mem == m
    modifies dev`mem, dev`tick, buf
    ensures dev.Valid() && blk < BLOCKS && (ok && !ended ==> blk == if ps == [] then 0 else ps[|ps| - 1].Blk())
    ensures ok ==> Through(dev.mem, Front(buf), m, ps, FirstBad(ps)) && (ended <==> FirstBad(ps) < |ps|)
    ensures ps == [] ==> Front(buf) == old(Front(buf))
    ensures dev.Reliable() ==> ok
  {
    var i, prev: nat := 0, 0;
    ok, ended, blk := true, false, 0;
    while ok && i < |ps|
      invariant 0 <= i <= |ps| && i <= FirstBad(ps) && dev.Valid() && blk < BLOCKS
      invariant if i == 0 then blk == 0 else prev == ps[i - 1].LastBlk() && blk == ps[i - 1].Blk()
      invariant ok ==> Through(dev.mem, Front(buf), m, ps, i)
      invariant i == 0 ==> Front(buf) == old(Front(buf))
      invariant dev.Reliable() ==> ok
    {
      if !ps[i].ok {
        ended := true;
        return;
      }
      var stop;
      ok, stop, prev := WriteParam(dev, ps[i], i == 0, prev, buf, Together(m, ps, i));
      blk := ps[i].Blk();
      if stop {
        ended := true;
        return;
      }
      i := i + 1;
    }
  }

  // ---------- What gets lost ----------

  /** The device is right but for the block in the buffer. */
  lemma {:induction false} DeviceBehind(m: seq<byte>, ps: seq<Param>, n: nat)
    requires IsMemory(m) && 0 < n <= |ps| && AllValid(ps)
    ensures SameBut(OnDevice(m, ps, n), Together(m, ps, n), ps[n - 1].LastBlk())
  {
    var (l, d, p) := (Together(m, ps, n - 1), OnDevice(m, ps, n - 1), ps[n - 1]);
    if n > 1 {
      DeviceBehind(m, ps, n - 1);
    }
    InMemory(p, l);
    if p.Straddles() {
      StoredAcross(l, l, Part(d, (p.Blk() + 1) * BLOCK, BLOCK), p);
    } else {
      StoredInside(OnDevice(m, ps, n), l, p);
    }
  }

  lemma LeftBehind(l: seq<byte>, d: seq<byte>, p: Param, change: bool)
    requires p.Valid() && IsMemory(l) && IsMemory(d) && p.Straddles()
    ensures var at := (p.Blk() + 1) * BLOCK; Part(Left(l, d, p, change), at, BLOCK) == Part(l, at, BLOCK)
  {
    InMemory(p, l);
  }

  /** The number of parameters before those that went to the block in the buffer after n. */
  function RunStart(ps: seq<Param>, n: nat): (k: nat)
    requires n <= |ps|
    ensures k <= n
  {
    if n == 0 then 0
    else if ps[n - 1].Straddles() || Changes(ps, n - 1) then n - 1
    else RunStart(ps, n - 1)
  }

  lemma DeviceNext(m: seq<byte>, ps: seq<Param>, n: nat, l: seq<byte>, d: seq<byte>, p: Param)
    requires IsMemory(m) && 0 < n <= |ps| && AllValid(ps) && p == ps[n - 1]
    requires l == Together(m, ps, n - 1) && d == OnDevice(m, ps, n - 1)
    ensures OnDevice(m, ps, n) == Left(l, d, p, Changes(ps, n - 1))
  {}

  /** The device's copy of the block in the buffer is as old as the run of parameters in it. */
  lemma {:induction false} DeviceCopy(m: seq<byte>, ps: seq<Param>, n: nat)
    requires IsMemory(m) && 0 < n <= |ps| && AllValid(ps)
    ensures var at := ps[n - 1].LastBlk() * BLOCK;
      Part(OnDevice(m, ps, n), at, BLOCK) == Part(Together(m, ps, RunStart(ps, n)), at, BLOCK)
  {
    var (l, d, p) := (Together(m, ps, n - 1), OnDevice(m, ps, n - 1), ps[n - 1]);
    DeviceNext(m, ps, n, l, d, p);
    if p.Straddles() {
      LeftBehind(l, d, p, Changes(ps, n - 1));
    } else if Changes(ps, n - 1) {
      assert OnDevice(m, ps, n) == l && RunStart(ps, n) == n - 1;
    } else {
      DeviceCopy(m, ps, n - 1);
      assert OnDevice(m, ps, n) == d && RunStart(ps, n) == RunStart(ps, n - 1);
      assert p.LastBlk() == ps[n - 2].LastBlk();
    }
  }

  lemma SameWithBlock(a: seq<byte>, l: seq<byte>, b: nat)
    requires SameBut(a, l, b) && (b + 1) * BLOCK <= |l|
    ensures a == l <==> Part(a, b * BLOCK, BLOCK) == Part(l, b * BLOCK, BLOCK)
  {
    if Part(a, b * BLOCK, BLOCK) == Part(l, b * BLOCK, BLOCK) {
      assert a == Patch(a, b * BLOCK, Part(a, b * BLOCK, BLOCK));
      FlushIsWhole(a, l, b);
    }
  }

  /** Exactly when stopping after n parameters loses nothing: the block in the buffer must be
      as it was before the last run of parameters that went there. */
  lemma LostExact(m: seq<byte>, ps: seq<Param>, n: nat)
    requires IsMemory(m) && n <= |ps| && AllValid(ps)
    ensures OnDevice(m, ps, n) == Together(m, ps, n) <==> (n > 0 ==>
      var at := ps[n - 1].LastBlk() * BLOCK;
      Part(Together(m, ps, n), at, BLOCK) == Part(Together(m, ps, RunStart(ps, n)), at, BLOCK))
  {
    if n > 0 {
      DeviceBehind(m, ps, n);
      DeviceCopy(m, ps, n);
      SameWithBlock(OnDevice(m, ps, n), Together(m, ps, n), ps[n - 1].LastBlk());
    }
  }

  /** A refused second value: the first one never gets to cleared memory. */
  lemma LostExample(m: seq<byte>, ps: seq<Param>)
    requires IsMemory(m) && m[0] == 0 && ps == [Param(0, 0, [1], true), Param(0, 1, [2], false)]
    ensures FirstBad(ps) == 1 && OnDevice(m, ps, 1) == m && Overwritten(m, ps[..1])[0] == 1
  {
    OverwrittenNext(m, ps, 0);
  }

  /** Without parameters the memory survives exactly if its first block happens to be in the
      buffer already. */
  lemma EmptyExact(m: seq<byte>, junk: seq<byte>)
    requires IsMemory(m) && |junk| == BUF_LEN
    ensures Patch(m, 0, Part(junk, 1, BLOCK)) == m <==> Part(junk, 1, BLOCK) == Part(m, 0, BLOCK)
  {
    assert Part(Patch(m, 0, Part(junk, 1, BLOCK)), 0, BLOCK) == Part(junk, 1, BLOCK);
  }

  // ---------- What is written ----------

  /** Parameter n runs on into the block in the buffer. */
  predicate RunsInto(ps: seq<Param>, n: nat)
    requires n < |ps|
  {
    n > 0 && ps[n].Straddles() && ps[n].Blk() + 1 == ps[n - 1].LastBlk()
  }

  /** a and b are the same from p's end to the end of its second block. */
  ghost predicate SameBehind(a: seq<byte>, b: seq<byte>, p: Param)
    requires p.Valid() && IsMemory(a) && IsMemory(b)
  {
    forall i | p.Address() + |p.bytes| <= i < (p.Blk() + 2) * BLOCK :: a[i] == b[i]
  }

  /** A straddling parameter is written as it should be exactly if the device is right behind it. */
  lemma NextExact(l: seq<byte>, d: seq<byte>, p: Param)
    requires p.Valid() && IsMemory(l) && IsMemory(d) && p.Straddles()
    ensures Next(l, d, p) == Written(l, p) <==> SameBehind(d, l, p)
  {
    InMemory(p, l);
    var (r, w) := (Next(l, d, p), Written(l, p));
    forall i | p.Address() + |p.bytes| <= i < (p.Blk() + 2) * BLOCK
      ensures r[i] == d[i] && w[i] == l[i]
    {}
    if SameBehind(d, l, p) {
      assert r == w;
    }
  }

  /** One more parameter is written as it should be unless it runs on into the block in the
      buffer and one of those that went there before changed a byte behind it. */
  lemma NextWritten(m: seq<byte>, ps: seq<Param>, n: nat)
    requires IsMemory(m) && n < |ps| && AllValid(ps)
    ensures Together(m, ps, n + 1) == Written(Together(m, ps, n), ps[n]) <==>
      (RunsInto(ps, n) ==> SameBehind(Together(m, ps, RunStart(ps, n)), Together(m, ps, n), ps[n]))
  {
    if ps[n].Straddles() {
      NextExact(Together(m, ps, n), OnDevice(m, ps, n), ps[n]);
      DeviceBehindIt(m, ps, n);
    }
  }

  lemma DeviceBehindIt(m: seq<byte>, ps: seq<Param>, n: nat)
    requires IsMemory(m) && n < |ps| && AllValid(ps) && ps[n].Straddles()
    ensures SameBehind(OnDevice(m, ps, n), Together(m, ps, n), ps[n]) <==>
      (RunsInto(ps, n) ==> SameBehind(Together(m, ps, RunStart(ps, n)), Together(m, ps, n), ps[n]))
  {
    var (l, d, r, p) := (Together(m, ps, n), OnDevice(m, ps, n), Together(m, ps, RunStart(ps, n)), ps[n]);
    if n == 0 {
      assert SameBehind(d, l, p);
    } else {
      DeviceBehind(m, ps, n);
      DeviceCopy(m, ps, n);
      BehindBlock(d, l, r, ps[n - 1].LastBlk(), p);
    }
  }

  /** d is l but for block b, where it is r. */
  lemma BehindBlock(d: seq<byte>, l: seq<byte>, r: seq<byte>, b: nat, p: Param)
    requires p.Valid() && p.Straddles() && IsMemory(d) && IsMemory(l) && IsMemory(r)
    requires b < BLOCKS && SameBut(d, l, b) && Part(d, b * BLOCK, BLOCK) == Part(r, b * BLOCK, BLOCK)
    ensures SameBehind(d, l, p) <==> (p.Blk() + 1 == b ==> SameBehind(r, l, p))
  {
    if p.Blk() + 1 == b {
      BehindInBlock(d, r, l, p);
    } else {
      OtherBehind(d, l, b, p);
    }
  }

  lemma OtherBehind(d: seq<byte>, l: seq<byte>, b: nat, p: Param)
    requires p.Valid() && p.Straddles() && IsMemory(d) && IsMemory(l) && SameBut(d, l, b) && p.Blk() + 1 != b
    ensures SameBehind(d, l, p)
  {
    InMemory(p, l);
  }

  lemma BehindInBlock(a: seq<byte>, b: seq<byte>, l: seq<byte>, p: Param)
    requires p.Valid() && p.Straddles() && IsMemory(a) && IsMemory(b) && IsMemory(l)
    requires Part(a, (p.Blk() + 1) * BLOCK, BLOCK) == Part(b, (p.Blk() + 1) * BLOCK, BLOCK)
    ensures SameBehind(a, l, p) <==> SameBehind(b, l, p)
  {
    var at := (p.Blk() + 1) * BLOCK;
    forall i | p.Address() + |p.bytes| <= i < at + BLOCK
      ensures a[i] == b[i]
    {
      assert Part(a, at, BLOCK)[i - at] == Part(b, at, BLOCK)[i - at];
    }
  }

  /** Parameter n does not run on into the block in the buffer, or what it finds there is as new. */
  ghost predicate FindsRight(m: seq<byte>, ps: seq<Param>, n: nat)
    requires IsMemory(m) && n < |ps| && AllValid(ps)
  {
    RunsInto(ps, n) ==> SameBehind(Overwritten(m, ps[..RunStart(ps, n)]), Overwritten(m, ps[..n]), ps[n])
  }

  ghost predicate RightUpTo(m: seq<byte>, ps: seq<Param>, n: nat)
    requires IsMemory(m) && n <= |ps| && AllValid(ps)
  {
    forall k | 0 <= k <= n :: Together(m, ps, k) == Overwritten(m, ps[..k])
  }

  lemma OneMoreRight(m: seq<byte>, ps: seq<Param>, n: nat)
    requires IsMemory(m) && n < |ps| && AllValid(ps) && RightUpTo(m, ps, n)
    ensures RightUpTo(m, ps, n + 1) <==> FindsRight(m, ps, n)
  {
    NextWritten(m, ps, n);
    OverwrittenNext(m, ps, n);
    var k := RunStart(ps, n);
    assert Together(m, ps, k) == Overwritten(m, ps[..k]);
    assert Together(m, ps, n) == Overwritten(m, ps[..n]);
  }

  /** After every number of parameters device and buffer hold what so many writes in order make,
      exactly if no parameter runs on into a block that is not as new. */
  lemma {:induction false} TogetherExact(m: seq<byte>, ps: seq<Param>, n: nat)
    requires IsMemory(m) && n <= |ps| && AllValid(ps)
    ensures RightUpTo(m, ps, n) <==> forall k | 0 <= k < n :: FindsRight(m, ps, k)
  {
    if n > 0 {
      TogetherExact(m, ps, n - 1);
      if RightUpTo(m, ps, n - 1) {
        OneMoreRight(m, ps, n - 1);
      }
    }
  }

  /** In sequence nothing runs on into the buffer, and only the last write can go wrong. */
  lemma SequencedFinished(m: seq<byte>, ps: seq<Param>)
    requires IsMemory(m) && AllValid(ps) && ps != [] && Sequenced(ps)
    ensures var (l, p) := (Overwritten(m, ps[..|ps| - 1]), ps[|ps| - 1]);
      Finished(m, ps) == if p.Straddles() then Misplaced(l, p) else Overwritten(m, ps)
  {
    var (n, p) := (|ps|, ps[|ps| - 1]);
    TogetherExact(m, ps, n);
    assert RightUpTo(m, ps, n) && ps[..n] == ps;
    OverwrittenNext(m, ps, n - 1);
    if p.Straddles() {
      var l := Together(m, ps, n - 1);
      PatchTwice(l, p.Blk() * BLOCK, Part(Together(m, ps, n), p.Blk() * BLOCK, BLOCK),
                 Part(Written(l, p), (p.Blk() + 1) * BLOCK, BLOCK));
    } else {
      DeviceBehind(m, ps, n);
      FlushIsWhole(OnDevice(m, ps, n), Together(m, ps, n), p.Blk());
    }
  }

  /** A byte in the second block, then one that runs on into it: the first is lost. */
  lemma RunsIntoExample(m: seq<byte>, ps: seq<Param>)
    requires IsMemory(m) && m[33] == 0 && ps == [Param(0, 33, [1], true), Param(0, 31, [2, 3], true)]
    ensures Together(m, ps, 2)[33] == 0 && Overwritten(m, ps)[33] == 1
  {
    assert ps[..2] == ps;
    OverwrittenNext(m, ps, 1);
    OverwrittenNext(m, ps, 0);
    assert OnDevice(m, ps, 1) == m;
  }

  // ---------- The last write ----------

  /** Exactly when the last write does no harm to a straddling last parameter. */
  lemma MisplacedExact(l: seq<byte>, p: Param)
    requires p.Valid() && IsMemory(l) && p.Straddles()
    ensures Misplaced(l, p) == Written(l, p) <==>
      var (r, at) := (Written(l, p), p.Blk() * BLOCK);
      Part(r, at, BLOCK) == Part(r, at + BLOCK, BLOCK) == Part(l, at + BLOCK, BLOCK)
  {
    MisplacedParts(l, p);
    SameByParts(Misplaced(l, p), Written(l, p), p.Blk());
  }

  lemma MisplacedParts(l: seq<byte>, p: Param)
    requires p.Valid() && IsMemory(l) && p.Straddles()
    ensures var (w, r, at) := (Misplaced(l, p), Written(l, p), p.Blk() * BLOCK);
      && |w| == |r| && Part(w, at, BLOCK) == Part(r, at + BLOCK, BLOCK)
      && Part(w, at + BLOCK, BLOCK) == Part(l, at + BLOCK, BLOCK)
      && forall i | 0 <= i < |r| && !(at <= i < at + 2 * BLOCK) :: w[i] == r[i]
  {
    InMemory(p, l);
  }

  /** Memories that agree elsewhere are the same if two blocks are. */
  lemma SameByParts(a: seq<byte>, b: seq<byte>, blk: nat)
    requires |a| == |b| && (blk + 2) * BLOCK <= |a|
    requires forall i | 0 <= i < |a| && !(blk * BLOCK <= i < (blk + 2) * BLOCK) :: a[i] == b[i]
    ensures a == b <==> Part(a, blk * BLOCK, BLOCK) == Part(b, blk * BLOCK, BLOCK)
                        && Part(a, (blk + 1) * BLOCK, BLOCK) == Part(b, (blk + 1) * BLOCK, BLOCK)
  {
    var at := blk * BLOCK;
    if Part(a, at, BLOCK) == Part(b, at, BLOCK) && Part(a, at + BLOCK, BLOCK) == Part(b, at + BLOCK, BLOCK) {
      forall i | 0 <= i < |a|
        ensures a[i] == b[i]
      {
        if at <= i < at + BLOCK {
          assert Part(a, at, BLOCK)[i - at] == Part(b, at, BLOCK)[i - at];
        } else if at + BLOCK <= i < at + 2 * BLOCK {
          assert Part(a, at + BLOCK, BLOCK)[i - at - BLOCK] == Part(b, at + BLOCK, BLOCK)[i - at - BLOCK];
        }
      }
    }
  }

  /** Two bytes across the first two blocks of cleared memory: the second lands in the wrong block. */
  lemma MisplacedExample(l: seq<byte>, p: Param)
    requires IsMemory(l) && p == Param(0, 31, [1, 2], true) && forall i | 0 <= i < 2 * BLOCK :: l[i] == 0
    ensures Misplaced(l, p)[0] == 2 && Written(l, p)[0] == 0
  {
    InMemory(p, l);
    assert Misplaced(l, p)[0] == Written(l, p)[BLOCK];
  }

  // ---------- read_params_block ----------

  /** Whatever their order, the parameters read are the bytes at their addresses. */
  method ReadParamsBlock(dev: Device, ps: seq<Param>) returns (ok: bool, vals: seq<seq<byte>>)
    requires dev.Valid() && AllValid(ps)
    modifies dev`tick
    ensures dev.Reliable() ==> ok
    ensures ok ==> |vals| == |ps| && forall i | 0 <= i < |ps| :: vals[i] == Stored(dev.mem, ps[i])
  {
    var buf := new byte[BUF_LEN];
    var i, prev: nat := 0, 0;
    ok, vals := true, [];
    while ok && i < |ps|
      invariant 0 <= i <= |ps| && fresh(buf) && (dev.Reliable() ==> ok)
      invariant ok ==> |vals| == i && forall k | 0 <= k < i :: vals[k] == Stored(dev.mem, ps[k])
      invariant ok && i > 0 ==> prev < BLOCKS && Front(buf) == Part(dev.mem, prev * BLOCK, BLOCK)
    {
      var p, val := ps[i], [];
      ok, val, prev := ReadParam(dev, p, i == 0, prev, buf);
      if !ok {
        return;
      }
      vals := vals + [val];
      i := i + 1;
    }
  }

  /** The bytes of a parameter in memory. */
  function Stored(m: seq<byte>, p: Param): seq<byte>
    requires p.Valid() && IsMemory(m)
  {
    InMemory(p, m);
    Part(m, p.Address(), |p.bytes|)
  }

  method ReadParam(dev: Device, p: Param, first: bool, prev: nat, buf: array<byte>)
      returns (ok: bool, val: seq<byte>, last: nat)
    requires dev.Valid() && buf.Length == BUF_LEN && p.Valid()
    requires !first ==> prev < BLOCKS && Front(buf) == Part(dev.mem, prev * BLOCK, BLOCK)
    modifies dev`tick, buf
    ensures dev.Reliable() ==> ok
    ensures ok ==> val == Stored(dev.mem, p) && last == p.LastBlk() && Front(buf) == Part(dev.mem, last * BLOCK, BLOCK)
  {
    ok, val, last := true, [], p.LastBlk();
    if p.Straddles() {
      ok := LoadSecond(dev, p, buf);
    }
    if first || p.Blk() != prev {
      var loaded := LoadFirst(dev, p.Blk(), buf);
      ok := ok && loaded;
      if !ok {
        return;
      }
    }
    assert Front(buf) + Back(buf) == buf[1..BUF_LEN];
    val := buf[1..BUF_LEN][p.Inner()..p.Inner() + |p.bytes|];
    if ok {
      ValueRead(dev.mem, p, Front(buf), Back(buf));
    }
    if p.Straddles() {
      MoveBack(buf);
    }
  }

  lemma ValueRead(m: seq<byte>, p: Param, front: seq<byte>, back: seq<byte>)
    requires p.Valid() && IsMemory(m) && front == Part(m, p.Blk() * BLOCK, BLOCK) && |back| == BLOCK
    requires p.Straddles() ==> back == Part(m, (p.Blk() + 1) * BLOCK, BLOCK)
    ensures (front + back)[p.Inner()..p.Inner() + |p.bytes|] == Stored(m, p)
  {
    InMemory(p, m);
    if p.Straddles() {
      TwoParts(m, p.Blk());
    }
  }
}
