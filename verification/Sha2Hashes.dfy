/** The three hash functions, put together from their parts. */
module Sha2Hashes {
  import opened MachineWords
  import opened Sha1Rounds
  import opened Sha2Context
  import opened Sha2Rounds
  import opened Sha2Stream

  function Sha1(): (h: Hash<Regs5>)
    ensures Proper(h) && Block(h) == 64
  {
    Hash(4, Suite5Alg(Sha1Suite(), 80), SHA1_INITIAL, (r: Regs5) => [r.a, r.b, r.c, r.d, r.e])
  }

  function Sha256(): (h: Hash<Regs>)
    ensures Proper(h) && Block(h) == 64
  {
    Hash(4, SuiteAlg(Sha256Suite(), 64), SHA256_INITIAL, (r: Regs) => [r.a, r.b, r.c, r.d, r.e, r.f, r.g, r.h])
  }

  function Sha512(): (h: Hash<Regs>)
    ensures Proper(h) && Block(h) == 128
  {
    Hash(8, SuiteAlg(Sha512Suite(), 80), SHA512_INITIAL, (r: Regs) => [r.a, r.b, r.c, r.d, r.e, r.f, r.g, r.h])
  }

  /** sha1_Raw, sha256_Raw and sha512_Raw. */
  method Raw<S>(h: Hash<S>, data: Bytes) returns (digest: Bytes)
    requires Proper(h)
    ensures digest == Digest(h, data)
  {
    var context := new Context(h);
    assert [] + data == data;
    context.Update(data);
    assert context.message == data;
    digest := context.Final();
  }

  /** One message hashed by all three, in the same pieces: SHA-1, SHA-256 and SHA-512 of the whole. */
  method HashAll(pieces: seq<Bytes>) returns (sha1: Bytes, sha256: Bytes, sha512: Bytes)
    ensures sha1 == Digest(Sha1(), Concat(pieces))
    ensures sha256 == Digest(Sha256(), Concat(pieces))
    ensures sha512 == Digest(Sha512(), Concat(pieces))
  {
    sha1 := HashPieces(Sha1(), pieces);
    sha256 := HashPieces(Sha256(), pieces);
    sha512 := HashPieces(Sha512(), pieces);
  }
}
