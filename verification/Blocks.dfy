/** Blocks of bytes, and index blocks as arrays of (bid, hash) entries inside them. */
module Blocks {
  import opened Layout

  type Byte = x: int | 0 <= x < 256
  type Bytes = seq<Byte>
  type Block = b: Bytes | |b| == BLK_SZ witness seq(BLK_SZ, _ => 0)
  type Hash = h: Bytes | |h| == 32 witness seq(32, _ => 0)

  function Zeros(): Block { seq(BLK_SZ, _ => 0) }

  /** b with the bytes from off on replaced by s. */
  function Splice(b: Bytes, off: nat, s: Bytes): (r: Bytes)
    requires off + |s| <= |b|
    ensures |r| == |b|
  {
    b[..off] + s + b[off + |s|..]
  }

  lemma SpliceAt(b: Bytes, off: nat, s: Bytes, i: nat)
    requires off + |s| <= |b| && i < |b|
    ensures Splice(b, off, s)[i] == if off <= i < off + |s| then s[i - off] else b[i]
  {
  }

  // A slice beside the spliced bytes is unchanged; the slice they fill is s.
  lemma SpliceSlice(b: Bytes, off: nat, s: Bytes, lo: nat, hi: nat)
    requires off + |s| <= |b| && lo <= hi <= |b|
    ensures hi <= off || off + |s| <= lo ==> Splice(b, off, s)[lo..hi] == b[lo..hi]
    ensures lo == off && hi == off + |s| ==> Splice(b, off, s)[lo..hi] == s
  {
    var r := Splice(b, off, s);
    forall k | lo <= k < hi
      ensures r[k] == if off <= k < off + |s| then s[k - off] else b[k]
    {
      SpliceAt(b, off, s, k);
    }
    assert hi <= off || off + |s| <= lo ==> r[lo..hi] == b[lo..hi];
  }

  // ---------- 32-bit numbers, least significant byte first ----------

  function Le32(v: nat): (s: Bytes)
    requires v < UINT32_SPAN
    ensures |s| == 4
  {
    [v % 256, v / 256 % 256, v / 65536 % 256, v / 16777216]
  }

  function UnLe32(s: Bytes): (v: nat)
    requires |s| == 4
    ensures v < UINT32_SPAN
  {
    (s[0] as int) + 256 * (s[1] as int) + 65536 * (s[2] as int) + 16777216 * (s[3] as int)
  }

  lemma Le32Inverse(v: nat)
    requires v < UINT32_SPAN
    ensures UnLe32(Le32(v)) == v
  {
    assert v == v % 256 + 256 * (v / 256);
    assert v / 256 == v / 256 % 256 + 256 * (v / 65536);
    assert v / 65536 == v / 65536 % 256 + 256 * (v / 16777216);
  }

  /** The 32-bit number in bytes o to o + 3. */
  function NumAt(b: Bytes, o: nat): nat
    requires o + 4 <= |b|
  {
    b[o] as int + 256 * b[o + 1] as int + 65536 * b[o + 2] as int + 16777216 * b[o + 3] as int
  }

  // ---------- index_t ----------

  function EntryBid(b: Block, j: nat): (v: nat)
    requires j < INDEX_PER_BLOCK
    ensures v < UINT32_SPAN
  {
    UnLe32(b[36 * j..36 * j + 4])
  }

  function EntryHash(b: Block, j: nat): Hash
    requires j < INDEX_PER_BLOCK
  {
    b[36 * j + 4..36 * j + 36]
  }

  function PutBid(b: Block, j: nat, v: nat): Block
    requires j < INDEX_PER_BLOCK && v < UINT32_SPAN
  {
    Splice(b, 36 * j, Le32(v))
  }

  function PutHash(b: Block, j: nat, h: Hash): Block
    requires j < INDEX_PER_BLOCK
  {
    Splice(b, 36 * j + 4, h)
  }

  lemma PutBidExact(b: Block, j: nat, v: nat, k: nat)
    requires j < INDEX_PER_BLOCK && k < INDEX_PER_BLOCK && v < UINT32_SPAN
    ensures EntryBid(PutBid(b, j, v), k) == if j == k then v else EntryBid(b, k)
    ensures EntryHash(PutBid(b, j, v), k) == EntryHash(b, k)
  {
    Le32Inverse(v);
    SpliceSlice(b, 36 * j, Le32(v), 36 * k, 36 * k + 4);
    SpliceSlice(b, 36 * j, Le32(v), 36 * k + 4, 36 * k + 36);
  }

  lemma PutHashExact(b: Block, j: nat, h: Hash, k: nat)
    requires j < INDEX_PER_BLOCK && k < INDEX_PER_BLOCK
    ensures EntryBid(PutHash(b, j, h), k) == EntryBid(b, k)
    ensures EntryHash(PutHash(b, j, h), k) == if j == k then h else EntryHash(b, k)
  {
    SpliceSlice(b, 36 * j + 4, h, 36 * k, 36 * k + 4);
    SpliceSlice(b, 36 * j + 4, h, 36 * k + 4, 36 * k + 36);
  }

  /** Where the fields of entry j of an index block are. */
  lemma EntryBytes(b: Block, j: nat)
    requires j < INDEX_PER_BLOCK
    ensures EntryBid(b, j) == NumAt(b, 36 * j) && forall m :: 0 <= m < 32 ==> EntryHash(b, j)[m] == b[36 * j + 4 + m]
  {
  }

  // A new index block has no entries.
  lemma ZeroEntries(j: nat)
    requires j < INDEX_PER_BLOCK
    ensures EntryBid(Zeros(), j) == 0
  {
  }
}
