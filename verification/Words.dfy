/** 32-bit words and a few laws about them. */
module Words {

  type word = bv32

  function Sum(x: word, y: word): word {
    x + y
  }

  lemma AndOverXor(x: word, y: word, z: word)
    ensures x & (y ^ z) == (x & y) ^ (x & z)
  {}

  lemma AndXorSelf(x: word, z: word)
    ensures (x & z) ^ z == !x & z
  {}

  lemma XorAssociative(p: word, q: word, r: word)
    ensures (p ^ q) ^ r == p ^ (q ^ r)
  {}

  lemma Disjoint(p: word, q: word)
    requires p & q == 0
    ensures p ^ q == p | q
  {}
}
