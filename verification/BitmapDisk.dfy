/** The two bitmaps as blocks of bytes, and as the sets of numbers in use that they stand for. */
module BitmapImages {
  import opened Layout
  import opened Blocks
  import opened Bits
  import opened Bitmaps
  import opened Rooms

  const BITS_PER_BLOCK := BITS_PER_WORD * WORDS_PER_BLOCK

  // ---------- words as bytes ----------

  function WordBytes(w: Word): (b: Bytes)
    ensures |b| == 8
  {
    Le32(w % UINT32_SPAN) + Le32(w / UINT32_SPAN)
  }

  function UnWord(b: Bytes): Word
    requires |b| == 8
  {
    UnLe32(b[..4]) + UINT32_SPAN * UnLe32(b[4..])
  }

  lemma UnWordBytes(w: Word)
    ensures UnWord(WordBytes(w)) == w
  {
    hide Le32, UnLe32;
    var lo, hi := Le32(w % UINT32_SPAN), Le32(w / UINT32_SPAN);
    assert (lo + hi)[..4] == lo && (lo + hi)[4..] == hi;
    Le32Inverse(w % UINT32_SPAN);
    Le32Inverse(w / UINT32_SPAN);
  }

  function BlockOf(ws: BitmapBlock): Block {
    seq(BLK_SZ, o requires 0 <= o < BLK_SZ => WordBytes(ws[o / 8])[o % 8])
  }

  function WordsOf(b: Block): BitmapBlock {
    seq(WORDS_PER_BLOCK, i requires 0 <= i < WORDS_PER_BLOCK => UnWord(b[8 * i..8 * i + 8]))
  }

  lemma WordBack(ws: BitmapBlock, i: nat)
    requires i < WORDS_PER_BLOCK
    ensures WordsOf(BlockOf(ws))[i] == ws[i]
  {
    hide WordBytes, UnWord;
    var x := BlockOf(ws)[8 * i..8 * i + 8];
    forall j | 0 <= j < 8
      ensures x[j] == WordBytes(ws[i])[j]
    {
      assert (8 * i + j) / 8 == i && (8 * i + j) % 8 == j;
    }
    assert x == WordBytes(ws[i]);
    UnWordBytes(ws[i]);
  }

  lemma WordsBack(ws: BitmapBlock)
    ensures WordsOf(BlockOf(ws)) == ws
  {
    hide WordsOf, BlockOf;
    var x := WordsOf(BlockOf(ws));
    forall i | 0 <= i < WORDS_PER_BLOCK
      ensures x[i] == ws[i]
    {
      WordBack(ws, i);
    }
  }

  // ---------- which bit of which byte ----------

  // Bits of four bytes, least significant byte first.
  lemma LeBits(s: Bytes, k: nat)
    requires |s| == 4 && k < 32
    ensures BitAt(UnLe32(s), k) <==> BitAt(s[k / 8], k % 8)
  {
    hide BitAt, Pow2;
    Pow8();
    var d := s[3] as int;
    var c := s[2] as int + 256 * d;
    var b := s[1] as int + 256 * c;
    assert UnLe32(s) == s[0] as int + 256 * b;
    BitsJoined(s[0], b, 8, k);
    if k >= 8 { BitsJoined(s[1], c, 8, k - 8); }
    if k >= 16 { BitsJoined(s[2], d, 8, k - 16); }
  }

  lemma Pow8()
    ensures Pow2(8) == 256
  {
    assert Pow2(2) == 4 && Pow2(4) == 16 && Pow2(6) == 64;
  }

  lemma WordBits(b: Bytes, k: nat)
    requires |b| == 8 && k < 64
    ensures BitAt(UnWord(b), k) <==> BitAt(b[k / 8], k % 8)
  {
    hide BitAt, Pow2, UnLe32;
    Pow32();
    BitsJoined(UnLe32(b[..4]), UnLe32(b[4..]), 32, k);
    if k < 32 { LeBits(b[..4], k); } else { LeBits(b[4..], k - 32); }
  }

  /** Where the bit of number k is in a bitmap block: each run of eight bytes is a word with its least
      significant byte first, and numbers count from the most significant bit down. */
  lemma TakenByte(b: Block, k: nat)
    requires k < BITS_PER_BLOCK
    ensures Taken(WordsOf(b), k) <==> b[8 * (k / 64) + 7 - k % 64 / 8] / Pow2(7 - k % 8) % 2 == 1
  {
    hide BitAt, UnWord, Pow2, WordsOf;
    var i, p := k / 64, 63 - k % 64;
    WordAt(b, i);
    WordBits(b[8 * i..8 * i + 8], p);
    BitPlace(k);
    ByteBit(b[8 * i + p / 8], p % 8);
  }

  lemma WordAt(b: Block, i: nat)
    requires i < WORDS_PER_BLOCK
    ensures WordsOf(b)[i] == UnWord(b[8 * i..8 * i + 8])
  {
  }

  lemma BitPlace(k: nat)
    ensures var p := 63 - k % 64; p / 8 == 7 - k % 64 / 8 && p % 8 == 7 - k % 8
  {
    assert k == 64 * (k / 64) + 8 * (k % 64 / 8) + k % 64 % 8;
  }

  // ---------- the words of a set ----------

  // The first k bits stand for the numbers from base on.
  function WordOf(u: set<nat>, base: nat, k: nat): (w: nat)
    ensures w < Pow2(k)
  {
    if k == 0 then 0 else Join(base + k - 1 in u, WordOf(u, base, k - 1))
  }

  lemma {:induction false} WordOfBits(u: set<nat>, base: nat, k: nat, j: nat)
    ensures BitAt(WordOf(u, base, k), j) <==> j < k && base + (k - 1 - j) in u
  {
    if k == 0 {
      ZeroBits(j);
    } else {
      var x := WordOf(u, base, k - 1);
      assert Join(base + k - 1 in u, x) / 2 == x;
      if j > 0 { WordOfBits(u, base, k - 1, j - 1); }
    }
  }

  function FullWord(u: set<nat>, base: nat): Word {
    Pow64();
    WordOf(u, base, 64)
  }

  /** The block of the bitmap that stands for the numbers from base on. */
  function Image(u: set<nat>, base: nat): BitmapBlock {
    seq(WORDS_PER_BLOCK, i requires 0 <= i < WORDS_PER_BLOCK => FullWord(u, base + BITS_PER_WORD * i))
  }

  /** In it, exactly the numbers of the set are taken. */
  lemma ImageTaken(u: set<nat>, base: nat, id: nat)
    requires id < BITS_PER_BLOCK
    ensures Taken(Image(u, base), id) <==> base + id in u
  {
    hide WordOf, BitAt;
    var i := id / BITS_PER_WORD;
    assert Image(u, base)[i] == FullWord(u, base + BITS_PER_WORD * i);
    WordOfBits(u, base + BITS_PER_WORD * i, 64, 63 - id % BITS_PER_WORD);
  }

  // ---------- the allocator on the bitmap and on the set ----------

  /** The data bitmap takes exactly the blocks in use. */
  ghost predicate Agrees(ws: seq<Word>, used: set<nat>) {
    BITS_PER_WORD * |ws| == CAPACITY && forall id :: 0 <= id < CAPACITY ==> (Taken(ws, id) <==> Did2Bid(id) in used)
  }

  lemma SomeFree(ws: seq<Word>, used: set<nat>)
    requires Agrees(ws, used)
    ensures AnyFree(ws) <==> Free(used) != {}
  {
    hide BitAt, Taken;
    if AnyFree(ws) {
      var id :| 0 <= id < CAPACITY && !Taken(ws, id);
      assert Did2Bid(id) in Free(used);
    }
    if b :| b in Free(used) {
      assert Did2Bid(b - DATA_START) == b && !Taken(ws, b - DATA_START);
    }
  }

  /** Taking the least free number of the bitmap is taking the least block not in use, and bitmap
      and set go on to agree. */
  lemma AllocAgrees(ws: seq<Word>, ws': seq<Word>, used: set<nat>, id: nat)
    requires Agrees(ws, used) && Allocated(ws, ws', id)
    ensures Did2Bid(id) in Free(used) && (forall b :: DATA_START <= b < Did2Bid(id) ==> b in used)
    ensures Agrees(ws', used + {Did2Bid(id)})
  {
    hide BitAt, Taken;
    forall b | DATA_START <= b < Did2Bid(id)
      ensures b in used
    {
      assert Taken(ws, b - DATA_START);
    }
  }
}
