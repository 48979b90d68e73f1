/** The encrypted firmware container of tools/firmware-utils/src/buffalo-lib.c: encrypt_buf,
    decrypt_buf and buffalo_csum.  32-bit values are integers below 2^32. */
module BuffaloContainer {
  import opened Options
  import opened BuffaloCipher

  const MAGIC_LEN: nat := 6
  const PRODUCT_LEN: nat := 32
  const VERSION_LEN: nat := 8
  const WORDS: nat := 0x1_0000_0000

  // ---------- Parts of buffers ----------

  /** b with s written over it at p. */
  function Splice(b: seq<byte>, p: nat, s: seq<byte>): (r: seq<byte>)
    requires p + |s| <= |b|
    ensures |r| == |b|
  {
    b[..p] + s + b[p + |s|..]
  }

  lemma SpliceTwice(b: seq<byte>, p: nat, s: seq<byte>, t: seq<byte>)
    requires p + |s| + |t| <= |b|
    ensures Splice(Splice(b, p, s), p + |s|, t) == Splice(b, p, s + t)
  {}

  function Be32(v: nat): (s: seq<byte>)
    ensures |s| == 4
  {
    [v / 256 / 256 / 256 % 256, v / 256 / 256 % 256, v / 256 % 256, v % 256]
  }

  function Value32(s: seq<byte>): (v: nat)
    requires |s| == 4
    ensures v < WORDS
  {
    ((s[0] as nat * 256 + s[1]) * 256 + s[2]) * 256 + s[3]
  }

  lemma Be32Back(v: nat)
    requires v < WORDS
    ensures Value32(Be32(v)) == v
  {
    var a := v / 256;
    var b := a / 256;
    assert b / 256 < 256;
    assert b == b / 256 * 256 + b % 256;
    assert a == b * 256 + a % 256;
  }

  // ---------- The checksum ----------

  const CSUM_POLY: nat := 0xedb8_8320

  /** A signed char converted to 32 bits. */
  function SignExtend(b: byte): nat {
    if b < 128 then b else b + 0xffff_ff00
  }

  function CsumShift(c: nat): nat {
    Xor(c / 2, if c % 2 == 1 then CSUM_POLY else 0)
  }

  function CsumShifts(c: nat, n: nat): nat {
    if n == 0 then c else CsumShift(CsumShifts(c, n - 1))
  }

  function Csum(init: nat, s: seq<byte>): nat
    decreases |s|
  {
    if s == [] then init else CsumShifts(Xor(Csum(init, s[..|s| - 1]), SignExtend(s[|s| - 1])), 8)
  }

  /** buffalo_csum. */
  method BuffaloCsum(init: nat, buf: array<byte>, at: nat, len: nat) returns (csum: nat)
    requires at + len <= buf.Length
    ensures csum == Csum(init, buf[at..at + len])
  {
    csum := init;
    for k := 0 to len
      invariant csum == Csum(init, buf[at..at + k])
    {
      assert buf[at..at + k + 1][..k] == buf[at..at + k];
      csum := Xor(csum, SignExtend(buf[at + k]));
      ghost var start := csum;
      for i := 0 to 8
        invariant csum == CsumShifts(start, i)
      {
        csum := CsumShift(csum);
      }
    }
  }

  /** A byte of 128 or more counts as a negative number, in 32 bits. */
  lemma SignExact(b: byte)
    ensures SignExtend(b) < WORDS && SignExtend(b) == (if b < 128 then b else b - 256) % WORDS
  {}

  lemma {:induction false} Doubled(n: nat, k: nat)
    requires PowerOfTwo(n)
    ensures PowerOfTwo(TimesTwo(n, k))
  {
    if k > 0 {
      Doubled(n, k - 1);
      DoubledOnce(TimesTwo(n, k - 1));
    }
  }

  lemma DoubledOnce(n: nat)
    requires PowerOfTwo(n)
    ensures PowerOfTwo(2 * n)
  {
    assert n > 0 && 2 * n % 2 == 0 && 2 * n / 2 == n;
  }

  function TimesTwo(n: nat, k: nat): nat {
    if k == 0 then n else 2 * TimesTwo(n, k - 1)
  }

  lemma WordsPower()
    ensures PowerOfTwo(WORDS)
  {
    Doubled(1, 8);
    assert TimesTwo(1, 8) == 0x100;
    Doubled(0x100, 8);
    assert TimesTwo(0x100, 8) == 0x1_0000;
    Doubled(0x1_0000, 8);
    assert TimesTwo(0x1_0000, 8) == 0x100_0000;
    Doubled(0x100_0000, 8);
    assert TimesTwo(0x100_0000, 8) == WORDS;
  }

  lemma {:induction false} ShiftsBelow(c: nat, n: nat)
    requires c < WORDS
    ensures CsumShifts(c, n) < WORDS
  {
    if n > 0 {
      ShiftsBelow(c, n - 1);
      var d := CsumShifts(c, n - 1);
      WordsPower();
      XorBelow(d / 2, if d % 2 == 1 then CSUM_POLY else 0, WORDS);
    }
  }

  /** The checksum stays in 32 bits. */
  lemma {:induction false} CsumBelow(init: nat, s: seq<byte>)
    requires init < WORDS
    ensures Csum(init, s) < WORDS
    decreases |s|
  {
    if s != [] {
      CsumBelow(init, s[..|s| - 1]);
      WordsPower();
      var x := Xor(Csum(init, s[..|s| - 1]), SignExtend(s[|s| - 1]));
      XorBelow(Csum(init, s[..|s| - 1]), SignExtend(s[|s| - 1]), WORDS);
      ShiftsBelow(x, 8);
    }
  }

  // ---------- The container ----------

  /** What goes into a header.  The texts end with their NUL. */
  datatype Params = Params(magic: seq<byte>, seed: byte, product: seq<byte>, version: seq<byte>, datalen: nat,
      csum: nat)
  {
    ghost predicate Valid() {
      && |magic| == MAGIC_LEN && 1 <= |product| <= PRODUCT_LEN && 1 <= |version| <= VERSION_LEN
      && datalen < WORDS && csum < WORDS
    }
  }

  const START: seq<byte> := [115, 116, 97, 114, 116, 0]
  const ASAR1: seq<byte> := [97, 115, 97, 114, 49, 0]

  predicate KnownMagic(s: seq<byte>) {
    s == START || s == ASAR1
  }

  /** The magics are "start" and "asar1", with their NUL. */
  lemma MagicText(s: seq<byte>)
    ensures KnownMagic(s) <==>
      |s| == 6 && s[5] == 0 && (Letters(s[..5]) == "start" || Letters(s[..5]) == "asar1")
  {
    if |s| == 6 {
      LettersTell(s[..5], START[..5]);
      LettersTell(s[..5], ASAR1[..5]);
      assert Letters(START[..5]) == "start" && Letters(ASAR1[..5]) == "asar1";
      assert s == s[..5] + [s[5]] && START == START[..5] + [0] && ASAR1 == ASAR1[..5] + [0];
    }
  }

  lemma LettersTell(s: seq<byte>, t: seq<byte>)
    requires |s| == |t|
    ensures Letters(s) == Letters(t) <==> s == t
  {
    if Letters(s) == Letters(t) {
      forall i | 0 <= i < |s|
        ensures s[i] == t[i]
      {
        assert Letters(s)[i] == Letters(t)[i];
      }
    }
  }

  function Letters(s: seq<byte>): string {
    seq(|s|, i requires 0 <= i < |s| => s[i] as char)
  }

  /** Each text is encrypted under the first byte that the one before it became. */
  function VersionSeed(p: Params, key: seq<byte>, longstate: bool): byte
    requires p.product != []
  {
    Coded(p.seed, key, longstate, p.product)[0]
  }

  function DataSeed(p: Params, key: seq<byte>, longstate: bool): byte
    requires p.product != [] && p.version != []
  {
    Coded(VersionSeed(p, key, longstate), key, longstate, p.version)[0]
  }

  function Header(p: Params, key: seq<byte>, longstate: bool): seq<byte>
    requires p.product != [] && p.version != []
  {
    p.magic + [p.seed]
    + Be32(|p.product|) + Coded(p.seed, key, longstate, p.product)
    + Be32(|p.version|) + Coded(VersionSeed(p, key, longstate), key, longstate, p.version)
    + Be32(p.datalen)
  }

  function Body(p: Params, key: seq<byte>, longstate: bool, plain: seq<byte>): seq<byte>
    requires p.product != [] && p.version != []
  {
    Coded(DataSeed(p, key, longstate), key, longstate, plain) + Be32(p.csum)
  }

  /** enc_compute_header_len. */
  function HeaderLen(product: nat, version: nat): nat {
    MAGIC_LEN + 1 + product + 1 + version + 1 + 3 * 4
  }

  /** enc_compute_buf_len. */
  function BufLen(product: nat, version: nat, datalen: nat): nat {
    var len := HeaderLen(product, version) + datalen + 4;
    len + (4 - len % 4)
  }

  /** The computed lengths fit what is written, with at least one byte to spare. */
  lemma LengthsFit(p: Params, key: seq<byte>, longstate: bool, plain: seq<byte>)
    requires p.Valid() && |plain| == p.datalen
    ensures |Header(p, key, longstate)| == HeaderLen(|p.product| - 1, |p.version| - 1)
    ensures 1 <= BufLen(|p.product| - 1, |p.version| - 1, p.datalen)
                 - |Header(p, key, longstate)| - |Body(p, key, longstate, plain)| <= 4
  {}

  // ---------- Encrypting ----------

  method Put(buf: array<byte>, p: nat, s: seq<byte>) returns (next: nat)
    requires p + |s| <= buf.Length
    modifies buf
    ensures next == p + |s| && buf[..] == Splice(old(buf[..]), p, s)
  {
    for i := 0 to |s|
      invariant forall l | 0 <= l < buf.Length :: buf[l] == if p <= l < p + i then s[l - p] else old(buf[l])
    {
      buf[p + i] := s[i];
    }
    next := p + |s|;
  }

  /** bcrypt_buf in place. */
  method CryptInPlace(seed: byte, key: seq<byte>, longstate: bool, buf: array<byte>, p: nat, len: nat)
    requires |key| <= MAX_KEYLEN && p + len <= buf.Length
    modifies buf
    ensures buf[..] == Splice(old(buf[..]), p, Coded(seed, key, longstate, old(buf[p..p + len])))
  {
    BcryptBuf(seed, key, longstate, buf, p, p, len);
    assert buf[..] == buf[..p] + buf[p..p + len] + buf[p + len..];
  }

  lemma SpliceOver(b: seq<byte>, p: nat, s: seq<byte>, t: seq<byte>)
    requires p + |s| <= |b| && |t| == |s|
    ensures Splice(b, p, s)[p..p + |s|] == s
    ensures Splice(Splice(b, p, s), p, t) == Splice(b, p, t)
  {}

  /** The length of a text, then the text encrypted; the seed for the next one is its first byte. */
  method PutText(buf: array<byte>, p: nat, text: seq<byte>, seed: byte, key: seq<byte>, longstate: bool)
      returns (next: nat, s: byte)
    requires |key| <= MAX_KEYLEN && text != [] && p + 4 + |text| <= buf.Length
    modifies buf
    ensures next == p + 4 + |text|
    ensures buf[..] == Splice(old(buf[..]), p, Be32(|text|) + Coded(seed, key, longstate, text))
    ensures s == Coded(seed, key, longstate, text)[0]
  {
    ghost var before := buf[..];
    var at := Put(buf, p, Be32(|text|));
    ghost var lengthPut := buf[..];
    next := Put(buf, at, text);
    SpliceOver(lengthPut, at, text, Coded(seed, key, longstate, text));
    assert buf[at..at + |text|] == buf[..][at..at + |text|];
    CryptInPlace(seed, key, longstate, buf, at, |text|);
    SpliceTwice(before, p, Be32(|text|), Coded(seed, key, longstate, text));
    s := buf[at];
  }

  method PutStart(magic: seq<byte>, seed: byte, buf: array<byte>, hdr: nat) returns (next: nat)
    requires hdr + |magic| + 1 <= buf.Length
    modifies buf
    ensures next == hdr + |magic| + 1 && buf[..] == Splice(old(buf[..]), hdr, magic + [seed])
  {
    ghost var b := buf[..];
    next := Put(buf, hdr, magic);
    next := Put(buf, next, [seed]);
    SpliceTwice(b, hdr, magic, [seed]);
  }

  /** PutText after what is already written. */
  method PutTextAfter(buf: array<byte>, p: nat, text: seq<byte>, seed: byte, key: seq<byte>, longstate: bool,
                      ghost b: seq<byte>, ghost hdr: nat, ghost done: seq<byte>) returns (next: nat, s: byte)
    requires |key| <= MAX_KEYLEN && text != [] && p + 4 + |text| <= buf.Length == |b|
    requires hdr + |done| == p && buf[..] == Splice(b, hdr, done)
    modifies buf
    ensures next == p + 4 + |text| && s == Coded(seed, key, longstate, text)[0]
    ensures buf[..] == Splice(b, hdr, done + (Be32(|text|) + Coded(seed, key, longstate, text)))
  {
    next, s := PutText(buf, p, text, seed, key, longstate);
    SpliceTwice(b, hdr, done, Be32(|text|) + Coded(seed, key, longstate, text));
  }

  method PutHeader(p: Params, key: seq<byte>, longstate: bool, buf: array<byte>, hdr: nat) returns (s: byte)
    requires p.Valid() && |key| <= MAX_KEYLEN && hdr + |Header(p, key, longstate)| <= buf.Length
    modifies buf
    ensures buf[..] == Splice(old(buf[..]), hdr, Header(p, key, longstate))
    ensures s == DataSeed(p, key, longstate)
  {
    ghost var b := buf[..];
    var at := PutStart(p.magic, p.seed, buf, hdr);
    ghost var start := p.magic + [p.seed];
    at, s := PutTextAfter(buf, at, p.product, p.seed, key, longstate, b, hdr, start);
    ghost var product := Be32(|p.product|) + Coded(p.seed, key, longstate, p.product);
    at, s := PutTextAfter(buf, at, p.version, s, key, longstate, b, hdr, start + product);
    ghost var version := Be32(|p.version|) + Coded(VersionSeed(p, key, longstate), key, longstate, p.version);
    PutNumberAfter(buf, at, p.datalen, b, hdr, start + product + version);
    HeaderParts(p, key, longstate);
  }

  method PutNumberAfter(buf: array<byte>, p: nat, v: nat, ghost b: seq<byte>, ghost hdr: nat, ghost done: seq<byte>)
    requires p + 4 <= buf.Length == |b| && hdr + |done| == p && buf[..] == Splice(b, hdr, done)
    modifies buf
    ensures buf[..] == Splice(b, hdr, done + Be32(v))
  {
    var _ := Put(buf, p, Be32(v));
    SpliceTwice(b, hdr, done, Be32(v));
  }

  lemma HeaderParts(p: Params, key: seq<byte>, longstate: bool)
    requires p.product != [] && p.version != []
    ensures (p.magic + [p.seed]) + (Be32(|p.product|) + Coded(p.seed, key, longstate, p.product))
            + (Be32(|p.version|) + Coded(VersionSeed(p, key, longstate), key, longstate, p.version)) + Be32(p.datalen)
         == Header(p, key, longstate)
  {}

  /** encrypt_buf: the header at hdr, and the data encrypted where it stands with the checksum
      after it. */
  method EncryptBuf(p: Params, key: seq<byte>, longstate: bool, buf: array<byte>, hdr: nat, data: nat)
    requires p.Valid() && |key| <= MAX_KEYLEN
    requires hdr + |Header(p, key, longstate)| <= data && data + p.datalen + 4 <= buf.Length
    modifies buf
    ensures buf[..] == Splice(Splice(old(buf[..]), hdr, Header(p, key, longstate)), data,
                              Body(p, key, longstate, old(buf[data..data + p.datalen])))
  {
    ghost var (b, plain) := (buf[..], buf[data..data + p.datalen]);
    var s := PutHeader(p, key, longstate, buf, hdr);
    SpliceBefore(b, hdr, Header(p, key, longstate), data, p.datalen);
    assert b[data..data + p.datalen] == plain && buf[..][data..data + p.datalen] == buf[data..data + p.datalen];
    PutBody(p.csum, s, key, longstate, buf, data, p.datalen, plain);
  }

  /** Writing in front of some bytes leaves them alone. */
  lemma SpliceBefore(b: seq<byte>, p: nat, s: seq<byte>, at: nat, n: nat)
    requires p + |s| <= at && at + n <= |b|
    ensures Splice(b, p, s)[at..at + n] == b[at..at + n]
  {}

  method PutBody(csum: nat, s: byte, key: seq<byte>, longstate: bool, buf: array<byte>, data: nat, n: nat,
      ghost plain: seq<byte>)
    requires |key| <= MAX_KEYLEN && data + n + 4 <= buf.Length && plain == buf[data..data + n]
    modifies buf
    ensures buf[..] == Splice(old(buf[..]), data, Coded(s, key, longstate, plain) + Be32(csum))
  {
    ghost var b := buf[..];
    CryptInPlace(s, key, longstate, buf, data, n);
    PutNumberAfter(buf, data + n, csum, b, data, Coded(s, key, longstate, plain));
  }

  /** encrypt_file: the file with its checksum in a new buffer of the computed length, whose last
      bytes nobody writes. */
  method EncryptFile(p: Params, key: seq<byte>, longstate: bool, file: seq<byte>)
      returns (buf: array<byte>, csum: nat)
    requires p.Valid() && |key| <= MAX_KEYLEN && |file| == p.datalen
    ensures fresh(buf) && buf.Length == BufLen(|p.product| - 1, |p.version| - 1, |file|)
    ensures csum == Csum(|file|, file) < WORDS
    ensures Sealed(buf[..], p.(csum := csum), key, longstate, file)
  {
    var hdrlen := HeaderLen(|p.product| - 1, |p.version| - 1);
    buf := ReadFile(file, hdrlen, BufLen(|p.product| - 1, |p.version| - 1, |file|));
    csum := BuffaloCsum(|file|, buf, hdrlen, |file|);
    CsumBelow(|file|, file);
    LengthsFit(p.(csum := csum), key, longstate, file);
    Seal(p.(csum := csum), key, longstate, buf, hdrlen, file);
  }

  method Seal(p: Params, key: seq<byte>, longstate: bool, buf: array<byte>, hdrlen: nat, ghost plain: seq<byte>)
    requires p.Valid() && |key| <= MAX_KEYLEN && |plain| == p.datalen && hdrlen == |Header(p, key, longstate)|
    requires 1 <= buf.Length - hdrlen - p.datalen - 4 <= 4 && buf[hdrlen..hdrlen + p.datalen] == plain
    modifies buf
    ensures Sealed(buf[..], p, key, longstate, plain)
  {
    ghost var b := buf[..];
    EncryptBuf(p, key, longstate, buf, 0, hdrlen);
    SealedWhole(b, buf[..], Header(p, key, longstate), Body(p, key, longstate, plain));
  }

  /** read_file_to_buf into a new buffer. */
  method ReadFile(file: seq<byte>, at: nat, len: nat) returns (buf: array<byte>)
    requires at + |file| <= len
    ensures fresh(buf) && buf.Length == len && buf[at..at + |file|] == file
  {
    buf := new byte[len];
    var _ := Put(buf, at, file);
  }

  /** The container, and one to four more bytes. */
  ghost predicate Sealed(s: seq<byte>, p: Params, key: seq<byte>, longstate: bool, plain: seq<byte>)
    requires p.Valid()
  {
    exists pad: seq<byte> :: 1 <= |pad| <= 4 && s == Header(p, key, longstate) + Body(p, key, longstate, plain) + pad
  }

  lemma SealedWhole(b: seq<byte>, s: seq<byte>, hdr: seq<byte>, body: seq<byte>)
    requires 1 <= |b| - |hdr| - |body| <= 4 && s == Splice(Splice(b, 0, hdr), |hdr|, body)
    ensures exists pad: seq<byte> :: 1 <= |pad| <= 4 && s == hdr + body + pad
  {
    assert s == hdr + body + b[|hdr| + |body|..];
  }

  // ---------- Decrypting ----------

  /** A text behind its length, and what follows it. */
  datatype Field = Field(text: seq<byte>, rest: seq<byte>)

  function ReadField(s: seq<byte>, max: nat): Option<Field> {
    if |s| < 4 || Value32(s[..4]) > max || |s| - 4 < Value32(s[..4]) then None
    else
      var at := 4 + Value32(s[..4]);
      Some(Field(s[4..at], s[at..]))
  }

  /** What decrypt_buf leaves in the parameters and at the front of the buffer. */
  datatype Opened = Opened(magic: seq<byte>, seed: byte, product: seq<byte>, version: seq<byte>, csum: nat,
      plain: seq<byte>)

  /** The whole of decrypt_buf on a container s, with what product and version held before. */
  function Unpack(key: seq<byte>, longstate: bool, product0: seq<byte>, version0: seq<byte>,
      s: seq<byte>): Option<Opened>
    requires |product0| == PRODUCT_LEN && |version0| == VERSION_LEN
  {
    if |s| < MAGIC_LEN + 1 || !KnownMagic(s[..MAGIC_LEN]) then None
    else UnpackTexts(key, longstate, s[..MAGIC_LEN], s[MAGIC_LEN], product0, version0, s[MAGIC_LEN + 1..])
  }

  function UnpackTexts(key: seq<byte>, longstate: bool, magic: seq<byte>, seed: byte,
                       product0: seq<byte>, version0: seq<byte>, s: seq<byte>): Option<Opened>
    requires |product0| == PRODUCT_LEN && |version0| == VERSION_LEN
  {
    match ReadTexts(s)
    case None => None
    case Some(t) => UnpackData(key, longstate, magic, seed, product0, t.product, version0, t.version, t.rest)
  }

  datatype Texts = Texts(product: seq<byte>, version: seq<byte>, rest: seq<byte>)

  function ReadTexts(s: seq<byte>): (r: Option<Texts>)
    ensures r.Some? ==> |r.value.product| <= PRODUCT_LEN && |r.value.version| <= VERSION_LEN
  {
    match ReadField(s, PRODUCT_LEN)
    case None => None
    case Some(product) =>
      match ReadField(product.rest, VERSION_LEN)
      case None => None
      case Some(version) => Some(Texts(product.text, version.text, version.rest))
  }

  function UnpackData(key: seq<byte>, longstate: bool, magic: seq<byte>, seed: byte,
                      product0: seq<byte>, product: seq<byte>, version0: seq<byte>, version: seq<byte>,
                          s: seq<byte>): Option<Opened>
    requires |product| <= |product0| == PRODUCT_LEN && |version| <= |version0| == VERSION_LEN
  {
    match ReadData(key, longstate, Splice(version0, 0, version)[0], s)
    case None => None
    case Some(data) =>
      var productSeed := Splice(product0, 0, product)[0];
      Some(Opened(magic, seed, Splice(product0, 0, Coded(seed, key, longstate, product)),
                  Splice(version0, 0, Coded(productSeed, key, longstate, version)), data.csum, data.plain))
  }

  datatype Checked = Checked(csum: nat, plain: seq<byte>)

  /** The data behind its length, with its checksum. */
  function ReadData(key: seq<byte>, longstate: bool, seed: byte, s: seq<byte>): Option<Checked> {
    if |s| < 4 || |s| - 4 < Value32(s[..4]) || |s| - 4 - Value32(s[..4]) < 4 then None
    else
      var n := Value32(s[..4]);
      var (plain, csum) := (Coded(seed, key, longstate, s[4..4 + n]), Value32(s[4 + n..4 + n + 4]));
      if csum != Csum(n, plain) then None else Some(Checked(csum, plain))
  }

  // ---------- Round trip ----------

  lemma FieldBack(t: seq<byte>, rest: seq<byte>, max: nat)
    requires |t| <= max < WORDS
    ensures ReadField(Be32(|t|) + (t + rest), max) == Some(Field(t, rest))
  {
    Be32Back(|t|);
    var s := Be32(|t|) + (t + rest);
    assert s[..4] == Be32(|t|) && s[4..4 + |t|] == t && s[4 + |t|..] == rest;
  }

  lemma SpliceFirst(b: seq<byte>, s: seq<byte>)
    requires s != [] && |s| <= |b|
    ensures Splice(b, 0, s)[0] == s[0]
  {}

  /** Opening what was sealed gives back everything, whatever follows the container and
      whatever the fields held before; but only if the checksum put in was the data's. */
  lemma RoundTrip(p: Params, key: seq<byte>, longstate: bool, plain: seq<byte>, pad: seq<byte>,
                  product0: seq<byte>, version0: seq<byte>)
    requires p.Valid() && KnownMagic(p.magic) && |plain| == p.datalen
    requires |product0| == PRODUCT_LEN && |version0| == VERSION_LEN
    ensures Unpack(key, longstate, product0, version0, Header(p, key, longstate) + Body(p, key, longstate, plain) + pad)
         == if p.csum != Csum(|plain|, plain) then None
            else Some(Opened(p.magic, p.seed, Splice(product0, 0, p.product), Splice(version0, 0, p.version), p.csum,
                plain))
  {
    var product := Coded(p.seed, key, longstate, p.product);
    var version := Coded(product[0], key, longstate, p.version);
    var data := Coded(version[0], key, longstate, plain);
    var tail := Be32(p.datalen) + (data + (Be32(p.csum) + pad));
    var s := Header(p, key, longstate) + Body(p, key, longstate, plain) + pad;
    Regrouped(p.magic, p.seed, Be32(|product|), product, Be32(|version|), version, Be32(p.datalen), data,
        Be32(p.csum), pad);
    TextsBack(p.magic, p.seed, product, version, tail);
    DataBack(p, key, longstate, plain, pad, product0, product, version0, version, data, tail);
  }

  lemma Regrouped(magic: seq<byte>, seed: byte, lp: seq<byte>, product: seq<byte>, lv: seq<byte>, version: seq<byte>,
                  ld: seq<byte>, data: seq<byte>, csum: seq<byte>, pad: seq<byte>)
    ensures magic + [seed] + lp + product + lv + version + ld + (data + csum) + pad
         == magic + ([seed] + (lp + (product + (lv + (version + (ld + (data + (csum + pad))))))))
  {}

  lemma TextsBack(magic: seq<byte>, seed: byte, product: seq<byte>, version: seq<byte>, tail: seq<byte>)
    requires |magic| == MAGIC_LEN && |product| <= PRODUCT_LEN && |version| <= VERSION_LEN
    ensures var second := Be32(|version|) + (version + tail);
      var s := magic + ([seed] + (Be32(|product|) + (product + second)));
      && s[..MAGIC_LEN] == magic && s[MAGIC_LEN] == seed
      && ReadTexts(s[MAGIC_LEN + 1..]) == Some(Texts(product, version, tail))
  {
    var second := Be32(|version|) + (version + tail);
    var first := Be32(|product|) + (product + second);
    var s := magic + ([seed] + first);
    assert s[..MAGIC_LEN] == magic && s[MAGIC_LEN + 1..] == first;
    FieldBack(product, second, PRODUCT_LEN);
    FieldBack(version, tail, VERSION_LEN);
  }

  lemma TailParts(n: nat, data: seq<byte>, csum: nat, pad: seq<byte>)
    requires |data| == n
    ensures var tail := Be32(n) + (data + (Be32(csum) + pad));
      && |tail| >= n + 8 && tail[..4] == Be32(n) && tail[4..4 + n] == data && tail[4 + n..4 + n + 4] == Be32(csum)
  {}

  lemma DataBack(p: Params, key: seq<byte>, longstate: bool, plain: seq<byte>, pad: seq<byte>,
                 product0: seq<byte>, product: seq<byte>, version0: seq<byte>, version: seq<byte>, data: seq<byte>,
                     tail: seq<byte>)
    requires p.Valid() && |plain| == p.datalen
    requires |product0| == PRODUCT_LEN && |version0| == VERSION_LEN
    requires product == Coded(p.seed, key, longstate, p.product)
    requires version == Coded(product[0], key, longstate, p.version)
    requires data == Coded(version[0], key, longstate, plain)
    requires tail == Be32(p.datalen) + (data + (Be32(p.csum) + pad))
    ensures UnpackData(key, longstate, p.magic, p.seed, product0, product, version0, version, tail)
         == if p.csum != Csum(|plain|, plain) then None
            else Some(Opened(p.magic, p.seed, Splice(product0, 0, p.product), Splice(version0, 0, p.version), p.csum,
                plain))
  {
    TailParts(p.datalen, data, p.csum, pad);
    Be32Back(p.datalen);
    Be32Back(p.csum);
    SpliceFirst(product0, product);
    SpliceFirst(version0, version);
    CodedTwice(p.seed, key, longstate, p.product);
    CodedTwice(product[0], key, longstate, p.version);
    CodedTwice(version[0], key, longstate, plain);
  }

  // ---------- decrypt_buf in place ----------

  method GetBe32(data: array<byte>, p: nat) returns (v: nat)
    requires p + 4 <= data.Length
    ensures v == Value32(data[p..p + 4])
  {
    v := Value32([data[p], data[p + 1], data[p + 2], data[p + 3]]);
    assert data[p..p + 4] == [data[p], data[p + 1], data[p + 2], data[p + 3]];
  }

  /** A length and a text, copied to the front of dest. */
  method TakeField(data: array<byte>, p: nat, dest: array<byte>) returns (ok: bool, next: nat, len: nat)
    requires p <= data.Length && data != dest
    modifies dest
    ensures ok <==> ReadField(data[p..], dest.Length).Some?
    ensures ok ==> var f := ReadField(data[p..], dest.Length).value;
      next <= data.Length && |f.text| == len && f.rest == data[next..] && dest[..] == Splice(old(dest[..]), 0, f.text)
  {
    ghost var s := data[p..];
    ok, next, len := false, p, 0;
    if data.Length - next < 4 {
      return;
    }
    assert s[..4] == data[p..p + 4];
    len := GetBe32(data, next);
    if len > dest.Length {
      return;
    }
    next := next + 4;
    if data.Length - next < len {
      return;
    }
    assert s[4..4 + len] == data[next..next + len] && s[4 + len..] == data[next + len..];
    var _ := Put(dest, 0, data[next..next + len]);
    ok, next := true, next + len;
  }

  /** The data length, which must not be more than what is left. */
  method TakeLength(data: array<byte>, at: nat, ghost rest: seq<byte>) returns (ok: bool, n: nat)
    requires at <= data.Length && rest == data[at..]
    ensures ok <==> |rest| >= 4 && |rest| - 4 >= Value32(rest[..4])
    ensures ok ==> n == Value32(rest[..4])
  {
    ok, n := false, 0;
    if data.Length - at < 4 {
      return;
    }
    n := GetBe32(data, at);
    assert rest[..4] == data[at..at + 4];
    ok := data.Length - (at + 4) >= n;
  }

  /** bcrypt_buf from behind the length to the front of the buffer. */
  method CryptToFront(seed: byte, key: seq<byte>, longstate: bool, data: array<byte>, at: nat, n: nat,
      ghost rest: seq<byte>)
    requires |key| <= MAX_KEYLEN && at + 4 + n <= data.Length && rest == data[at..]
    modifies data
    ensures data[..n] == Coded(seed, key, longstate, rest[4..4 + n])
    ensures data[at + 4 + n..] == rest[4 + n..]
  {
    ghost var behind := data[n..];
    assert rest[4..4 + n] == data[at + 4..at + 4 + n];
    assert behind[at + 4..] == rest[4 + n..];
    BcryptBuf(seed, key, longstate, data, at + 4, 0, n);
    assert data[..n] == data[0..n];
    assert data[at + 4 + n..] == data[n..][at + 4..];
  }

  /** The checksum at p, against that of the first n bytes. */
  method CheckCsum(data: array<byte>, p: nat, n: nat, ghost tail: seq<byte>) returns (ok: bool, csum: nat)
    requires p <= data.Length && n <= data.Length && tail == data[p..]
    ensures ok <==> |tail| >= 4 && Value32(tail[..4]) == Csum(n, data[..n])
    ensures ok ==> csum == Value32(tail[..4])
  {
    ok, csum := false, 0;
    if data.Length - p < 4 {
      return;
    }
    csum := GetBe32(data, p);
    assert tail[..4] == data[p..p + 4];
    var computed := BuffaloCsum(n, data, 0, n);
    ok := computed == csum;
  }

  lemma DataRead(key: seq<byte>, longstate: bool, seed: byte, rest: seq<byte>, n: nat, plain: seq<byte>,
      tail: seq<byte>, ok: bool)
    requires |rest| >= 4 && n == Value32(rest[..4]) && |rest| - 4 >= n
    requires plain == Coded(seed, key, longstate, rest[4..4 + n]) && tail == rest[4 + n..]
    requires ok <==> |tail| >= 4 && Value32(tail[..4]) == Csum(n, plain)
    ensures ok <==> ReadData(key, longstate, seed, rest).Some?
    ensures ok ==> ReadData(key, longstate, seed, rest).value == Checked(Value32(tail[..4]), plain)
  {
    TailStart(rest, n, tail);
    if |tail| >= 4 {
      DataFits(key, longstate, seed, rest, n, plain, Value32(tail[..4]));
    }
  }

  lemma DataFits(key: seq<byte>, longstate: bool, seed: byte, rest: seq<byte>, n: nat, plain: seq<byte>, csum: nat)
    requires |rest| >= 4 + n + 4 && n == Value32(rest[..4]) && csum == Value32(rest[4 + n..4 + n + 4])
    requires plain == Coded(seed, key, longstate, rest[4..4 + n])
    ensures ReadData(key, longstate, seed, rest) ==
            if csum != Csum(n, plain) then None else Some(Checked(csum, plain))
  {}

  lemma TailStart(rest: seq<byte>, n: nat, tail: seq<byte>)
    requires |rest| >= 4 + n && tail == rest[4 + n..]
    ensures |tail| >= 4 <==> |rest| - 4 - n >= 4
    ensures |tail| >= 4 ==> tail[..4] == rest[4 + n..4 + n + 4]
  {}

  class EncParam {
    const key: seq<byte>
    const longstate: bool
    const product: array<byte>
    const version: array<byte>
    var magic: seq<byte>
    var seed: byte
    var datalen: nat
    var csum: nat

    constructor (key: seq<byte>, longstate: bool)
      requires |key| <= MAX_KEYLEN
      ensures Valid() && fresh(product) && fresh(version) && this.key == key && this.longstate == longstate
    {
      this.key, this.longstate := key, longstate;
      product, version := new byte[PRODUCT_LEN], new byte[VERSION_LEN];
    }

    ghost predicate Valid() {
      product.Length == PRODUCT_LEN && version.Length == VERSION_LEN && product != version && |key| <= MAX_KEYLEN
    }

    /** The fields and the decrypted data are those of o. */
    ghost predicate Holds(o: Opened, data: array<byte>)
      reads this, product, version, data
    {
      && magic == o.magic && seed == o.seed && csum == o.csum && datalen == |o.plain|
      && product[..] == o.product && version[..] == o.version
      && datalen <= data.Length && data[..datalen] == o.plain
    }

    /** decrypt_buf: succeeds exactly on what Unpack can open.  The data is decrypted into the
        front of the buffer that holds the container. */
    method DecryptBuf(data: array<byte>) returns (ok: bool)
      requires Valid() && data != product && data != version
      modifies this, product, version, data
      ensures var o := Unpack(key, longstate, old(product[..]), old(version[..]), old(data[..]));
        (ok <==> o.Some?) && (ok ==> Holds(o.value, data))
    {
      ok := TakeStart(data);
      if ok {
        assert data[..][MAGIC_LEN + 1..] == data[MAGIC_LEN + 1..];
        ok := DecryptRest(data, product[..], version[..]);
      }
    }

    /** decrypt_buf behind the seed. */
    method DecryptRest(data: array<byte>, ghost product0: seq<byte>, ghost version0: seq<byte>) returns (ok: bool)
      requires Valid() && data != product && data != version && data.Length >= MAGIC_LEN + 1
      requires product0 == product[..] && version0 == version[..]
      modifies this`datalen, this`csum, product, version, data
      ensures var o := UnpackTexts(key, longstate, magic, seed, product0, version0, old(data[MAGIC_LEN + 1..]));
        (ok <==> o.Some?) && (ok ==> Holds(o.value, data))
    {
      var at, prodLen, verLen;
      ok, at, prodLen, verLen := TakeTexts(data, product0, version0);
      if !ok {
        return;
      }
      ghost var t := ReadTexts(data[MAGIC_LEN + 1..]).value;
      ok := DecryptData(data, at, version[0]);
      assert version[0] == version[..][0];
      if ok {
        DecryptTexts(prodLen, verLen, product0, t.product, version0, t.version);
      }
    }

    method TakeTexts(data: array<byte>, ghost product0: seq<byte>, ghost version0: seq<byte>)
        returns (ok: bool, at: nat, prodLen: nat, verLen: nat)
      requires Valid() && data != product && data != version && data.Length >= MAGIC_LEN + 1
      requires product0 == product[..] && version0 == version[..]
      modifies product, version
      ensures ok <==> ReadTexts(data[MAGIC_LEN + 1..]).Some?
      ensures ok ==> var t := ReadTexts(data[MAGIC_LEN + 1..]).value;
        at <= data.Length && prodLen == |t.product| && verLen == |t.version| && t.rest == data[at..]
        && product[..] == Splice(product0, 0, t.product) && version[..] == Splice(version0, 0, t.version)
    {
      verLen := 0;
      ok, at, prodLen := TakeField(data, MAGIC_LEN + 1, product);
      if ok {
        ok, at, verLen := TakeField(data, at, version);
      }
    }

    method TakeStart(data: array<byte>) returns (ok: bool)
      modifies this`magic, this`seed
      ensures ok <==> data.Length >= MAGIC_LEN + 1 && KnownMagic(data[..][..MAGIC_LEN])
      ensures ok ==> magic == data[..][..MAGIC_LEN] && seed == data[..][MAGIC_LEN]
    {
      ok := false;
      if data.Length < MAGIC_LEN {
        return;
      }
      assert data[..][..MAGIC_LEN] == data[..MAGIC_LEN];
      if !KnownMagic(data[..MAGIC_LEN]) {
        return;
      }
      magic := data[..MAGIC_LEN];
      if data.Length - MAGIC_LEN < 1 {
        return;
      }
      seed := data[MAGIC_LEN];
      ok := true;
    }

    /** The data length, the data and the checksum. */
    method DecryptData(data: array<byte>, at: nat, s: byte) returns (ok: bool)
      requires Valid() && at <= data.Length && data != product && data != version
      modifies this`datalen, this`csum, data
      ensures var o := ReadData(key, longstate, s, old(data[at..]));
        && (ok <==> o.Some?)
        && (ok ==> csum == o.value.csum && datalen == |o.value.plain| <= data.Length)
        && (ok ==> data[..datalen] == o.value.plain)
    {
      ghost var rest := data[at..];
      ok, datalen := TakeLength(data, at, rest);
      if !ok {
        return;
      }
      CryptToFront(s, key, longstate, data, at, datalen, rest);
      ghost var (plain, tail) := (data[..datalen], rest[4 + datalen..]);
      ok, csum := CheckCsum(data, at + 4 + datalen, datalen, tail);
      DataRead(key, longstate, s, rest, datalen, plain, tail, ok);
    }

    method DecryptTexts(prodLen: nat, verLen: nat, ghost product0: seq<byte>, ghost prod: seq<byte>,
                        ghost version0: seq<byte>, ghost ver: seq<byte>)
      requires Valid() && |product0| == PRODUCT_LEN && |version0| == VERSION_LEN
      requires prodLen == |prod| <= PRODUCT_LEN && verLen == |ver| <= VERSION_LEN
      requires product[..] == Splice(product0, 0, prod) && version[..] == Splice(version0, 0, ver)
      modifies product, version
      ensures product[..] == Splice(product0, 0, Coded(seed, key, longstate, prod))
      ensures version[..] == Splice(version0, 0, Coded(Splice(product0, 0, prod)[0], key, longstate, ver))
    {
      assert product[0] == product[..][0];
      assert version[0..verLen] == ver by {
        SpliceOver(version0, 0, ver, ver);
        assert version[0..verLen] == version[..][0..verLen];
      }
      SpliceOver(version0, 0, ver, Coded(product[0], key, longstate, ver));
      CryptInPlace(product[0], key, longstate, version, 0, verLen);
      assert product[0..prodLen] == prod by {
        SpliceOver(product0, 0, prod, prod);
        assert product[0..prodLen] == product[..][0..prodLen];
      }
      SpliceOver(product0, 0, prod, Coded(seed, key, longstate, prod));
      CryptInPlace(seed, key, longstate, product, 0, prodLen);
    }
  }

  // ---------- Only containers are opened ----------

  lemma Value32Back(s: seq<byte>)
    requires |s| == 4
    ensures Be32(Value32(s)) == s
  {
    var (a, b, c, d) := (s[0] as nat, s[1] as nat, s[2] as nat, s[3] as nat);
    var x := a * 256 + b;
    var y := x * 256 + c;
    var v := y * 256 + d;
    assert v / 256 == y && v % 256 == d;
    assert y / 256 == x && y % 256 == c;
    assert x / 256 == a && x % 256 == b;
  }

  lemma FieldWhole(s: seq<byte>, max: nat)
    requires ReadField(s, max).Some?
    ensures var f := ReadField(s, max).value; s == Be32(|f.text|) + f.text + f.rest && |f.text| <= max
  {
    Value32Back(s[..4]);
  }

  lemma TextsWhole(s: seq<byte>)
    requires ReadTexts(s).Some?
    ensures var t := ReadTexts(s).value;
      && s == Be32(|t.product|) + t.product + (Be32(|t.version|) + t.version + t.rest)
      && |t.product| <= PRODUCT_LEN && |t.version| <= VERSION_LEN
  {
    FieldWhole(s, PRODUCT_LEN);
    FieldWhole(ReadField(s, PRODUCT_LEN).value.rest, VERSION_LEN);
  }

  lemma DataWhole(key: seq<byte>, longstate: bool, seed: byte, s: seq<byte>) returns (pad: seq<byte>)
    requires ReadData(key, longstate, seed, s).Some?
    ensures var o := ReadData(key, longstate, seed, s).value;
      && s == Be32(|o.plain|) + Coded(seed, key, longstate, o.plain) + Be32(o.csum) + pad
      && |o.plain| < WORDS && o.csum < WORDS && o.csum == Csum(|o.plain|, o.plain)
  {
    var n := Value32(s[..4]);
    pad := s[4 + n + 4..];
    CutInFour(s, n);
    Value32Back(s[..4]);
    Value32Back(s[4 + n..4 + n + 4]);
    CodedTwice(seed, key, longstate, s[4..4 + n]);
  }

  lemma CutInFour(s: seq<byte>, n: nat)
    requires |s| >= 4 + n + 4
    ensures s == s[..4] + s[4..4 + n] + s[4 + n..4 + n + 4] + s[4 + n + 4..]
  {}

  /** The parameters of a container, from its encrypted texts. */
  function ParamsOf(key: seq<byte>, longstate: bool, magic: seq<byte>, seed: byte, t: Texts, o: Checked): Params
    requires t.product != []
  {
    Params(magic, seed, Coded(seed, key, longstate, t.product), Coded(t.product[0], key, longstate, t.version),
           |o.plain|, o.csum)
  }

  /** Whatever decrypt_buf opens, with texts that are not empty, is a container that encrypt_buf could
      have made with the right checksum, and what it finds is what went in. */
  lemma OpenedIsSealed(key: seq<byte>, longstate: bool, product0: seq<byte>, version0: seq<byte>, s: seq<byte>)
      returns (p: Params, pad: seq<byte>)
    requires |product0| == PRODUCT_LEN && |version0| == VERSION_LEN
    requires Unpack(key, longstate, product0, version0, s).Some?
    requires ReadTexts(s[MAGIC_LEN + 1..]).value.product != [] && ReadTexts(s[MAGIC_LEN + 1..]).value.version != []
    ensures var o := Unpack(key, longstate, product0, version0, s).value;
      && p.Valid() && KnownMagic(p.magic) && |o.plain| == p.datalen && p.csum == Csum(|o.plain|, o.plain)
      && s == Header(p, key, longstate) + Body(p, key, longstate, o.plain) + pad
      && o == Opened(p.magic, p.seed, Splice(product0, 0, p.product), Splice(version0, 0, p.version), p.csum, o.plain)
  {
    var (magic, seed, rest) := (s[..MAGIC_LEN], s[MAGIC_LEN], s[MAGIC_LEN + 1..]);
    assert s == magic + [seed] + rest;
    TextsWhole(rest);
    var t := ReadTexts(rest).value;
    SpliceFirst(version0, t.version);
    SpliceFirst(product0, t.product);
    var o := ReadData(key, longstate, t.version[0], t.rest).value;
    pad := DataWhole(key, longstate, t.version[0], t.rest);
    p := ParamsOf(key, longstate, magic, seed, t, o);
    CodedTwice(seed, key, longstate, t.product);
    CodedTwice(t.product[0], key, longstate, t.version);
    PartsTogether(magic, seed, Be32(|t.product|), t.product, Be32(|t.version|), t.version, Be32(|o.plain|),
                  Coded(t.version[0], key, longstate, o.plain), Be32(o.csum), pad);
  }

  lemma PartsTogether(magic: seq<byte>, seed: byte, lp: seq<byte>, product: seq<byte>, lv: seq<byte>,
                      version: seq<byte>, ld: seq<byte>, data: seq<byte>, csum: seq<byte>, pad: seq<byte>)
    ensures magic + [seed] + (lp + product + (lv + version + (ld + data + csum + pad)))
         == magic + [seed] + lp + product + lv + version + ld + (data + csum) + pad
  {}

  /** What encrypt_file makes of a file is opened by decrypt_buf with the same key and state length,
      with the file in the front of the buffer. */
  method SealAndOpen(p: Params, file: seq<byte>, e: EncParam) returns (ok: bool, buf: array<byte>)
    requires p.Valid() && KnownMagic(p.magic) && |file| == p.datalen && e.Valid()
    modifies e, e.product, e.version
    ensures ok && fresh(buf) && |file| <= buf.Length && buf[..|file|] == file
    ensures e.magic == p.magic && e.seed == p.seed && e.datalen == |file| && e.csum == Csum(|file|, file)
    ensures e.product[..] == Splice(old(e.product[..]), 0, p.product)
    ensures e.version[..] == Splice(old(e.version[..]), 0, p.version)
  {
    var csum;
    buf, csum := EncryptFile(p, e.key, e.longstate, file);
    ghost var q := p.(csum := csum);
    ghost var pad :| 1 <= |pad| <= 4
      && buf[..] == Header(q, e.key, e.longstate) + Body(q, e.key, e.longstate, file) + pad;
    RoundTrip(q, e.key, e.longstate, file, pad, e.product[..], e.version[..]);
    ok := e.DecryptBuf(buf);
  }
}
