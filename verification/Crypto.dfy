/** The cipher and the hash, known only by what the file system relies on. */
module Crypto {
  import opened Blocks

  datatype KeyIv = KeyIv(iv: Bytes, key: Bytes)

  /** Any two-way cipher on blocks and any hash function. */
  datatype Suite = Suite(enc: (KeyIv, Block) -> Block, dec: (KeyIv, Block) -> Block, hash: Block -> Hash)

  ghost predicate Sane(c: Suite) {
    forall k: KeyIv, b: Block :: c.dec(k, c.enc(k, b)) == b
  }

  lemma Decrypted(c: Suite, k: KeyIv, b: Block)
    requires Sane(c)
    ensures c.dec(k, c.enc(k, b)) == b
  {
  }
}
