/** SHA256_Transform on blocks of bytes (scripts/mkhash.c), and the way back from words to bytes. */
module Sha256Block {
  import opened BlockHash
  import opened Words
  import opened Sha256Rounds
  import opened Sha256

  /** be32dec. */
  function Decode32(b0: byte, b1: byte, b2: byte, b3: byte): word {
    (((b0 as nat * 256 + b1) * 256 + b2) * 256 + b3) as word
  }

  /** Bytes and words, the high ones first. */
  lemma WordExample()
    ensures Decode32(0x61, 0x62, 0x63, 0x80) == 0x6162_6380 && Encode32(0x6162_6380) == [0x61, 0x62, 0x63, 0x80]
  {}

  /** A block as sixteen big-endian words, section 5.2.1 of FIPS 180-4. */
  function Decode(block: seq<byte>): (m: seq<word>)
    requires |block| == BLOCK
    ensures |m| == 16
  {
    seq(16, i requires 0 <= i < 16 => Decode32(block[4 * i], block[4 * i + 1], block[4 * i + 2], block[4 * i + 3]))
  }

  /** The standard's compression of one block of bytes. */
  function Compress(k: seq<word>, state: seq<word>, block: seq<byte>): seq<word> {
    if |k| == 64 && |state| == 8 && |block| == BLOCK then Transformed(Fips(), k, state, Decode(block)) else state
  }

  function Compression(k: seq<word>): (seq<word>, seq<byte>) -> seq<word> {
    (state, block) => Compress(k, state, block)
  }

  /** be32dec_vect. */
  method DecodeBlock(block: seq<byte>) returns (m: seq<word>)
    requires |block| == BLOCK
    ensures m == Decode(block)
  {
    m := [];
    for i := 0 to 16
      invariant m == Decode(block)[..i]
    {
      m := m + [Decode32(block[4 * i], block[4 * i + 1], block[4 * i + 2], block[4 * i + 3])];
    }
  }

  /** SHA256_Transform on bytes: the block function of the stream. */
  method TransformBlock(k: seq<word>, state: array<word>, block: seq<byte>)
    requires |k| == 64 && state.Length == 8 && |block| == BLOCK
    modifies state
    ensures state[..] == Compression(k)(old(state[..]), block)
  {
    var m := DecodeBlock(block);
    Sha256Transform(k, state, m);
  }

  // ---------- The digest as bytes ----------

  /** be32enc. */
  function Encode32(w: word): (s: seq<byte>)
    ensures |s| == 4
  {
    BigEndian(w as nat, 4)
  }

  /** Section 6.2.2 of FIPS 180-4: the words one after the other, high byte first. */
  function Encode(ws: seq<word>): (s: seq<byte>)
    ensures |s| == 4 * |ws|
  {
    if ws == [] then [] else Encode(ws[..|ws| - 1]) + Encode32(ws[|ws| - 1])
  }

  /** be32enc_vect. */
  method EncodeState(state: array<word>) returns (s: seq<byte>)
    ensures s == Encode(state[..])
  {
    s := [];
    for i := 0 to state.Length
      invariant s == Encode(state[..i])
    {
      assert state[..i + 1][..i] == state[..i];
      s := s + Encode32(state[i]);
    }
    assert state[..state.Length] == state[..];
  }
}
