/** bitmap.c: allocation of inode numbers and data block numbers, by the first zero bit from a
    hint on. */
module Bitmaps {
  import opened Layout
  import opened Bits
  import opened BitTricks
  import opened Wrappers

  const BITS_PER_WORD := 64
  const WORDS_PER_BLOCK := 512

  /** Whether id is in use: bits are numbered from the highest of the first word on. */
  predicate Taken(ws: seq<Word>, id: nat)
    requires id < BITS_PER_WORD * |ws|
  {
    BitAt(ws[id / BITS_PER_WORD], 63 - id % BITS_PER_WORD)
  }

  // What the hint promises: the words before it are full.
  ghost predicate FullBefore(ws: seq<Word>, hint: nat) {
    hint <= |ws| && forall i :: 0 <= i < hint ==> OnesFrom(ws[i], 0)
  }

  ghost predicate AnyFree(ws: seq<Word>) {
    exists id :: 0 <= id < BITS_PER_WORD * |ws| && !Taken(ws, id)
  }

  // id was the least number not in use, and is in use now; nothing else has changed.
  ghost predicate Allocated(ws: seq<Word>, ws': seq<Word>, id: nat) {
    |ws'| == |ws| && id < BITS_PER_WORD * |ws| && !Taken(ws, id) &&
    (forall k :: 0 <= k < id ==> Taken(ws, k)) &&
    forall k :: 0 <= k < BITS_PER_WORD * |ws| ==> (Taken(ws', k) <==> k == id || Taken(ws, k))
  }

  lemma {:induction false} OrBound(a: nat, b: nat, k: nat)
    requires a < Pow2(k) && b < Pow2(k)
    ensures Or(a, b) < Pow2(k)
  {
    if k > 0 { OrBound(a / 2, b / 2, k - 1); }
  }

  // The word with one more number in use.
  function SetBit(w: Word, tmp: nat): (r: Word)
    requires tmp < 64
    ensures forall k: nat :: BitAt(r, k) <==> k == tmp || BitAt(w, k)
  {
    SetBitIs(w, tmp);
    Or(w, Pow2(tmp))
  }

  lemma SetBitIs(w: Word, tmp: nat)
    requires tmp < 64
    ensures Or(w, Pow2(tmp)) < WORD_SPAN
    ensures forall k: nat :: BitAt(Or(w, Pow2(tmp)), k) <==> k == tmp || BitAt(w, k)
  {
    hide Pow2, Or, BitAt;
    Pow64();
    PowMonotone(tmp, 63);
    OrBound(w, Pow2(tmp), 64);
    forall k: nat
      ensures BitAt(Or(w, Pow2(tmp)), k) <==> k == tmp || BitAt(w, k)
    {
      OrBits(w, Pow2(tmp), k);
      PowBits(tmp, k);
    }
  }

  lemma FullWordTaken(ws: seq<Word>, k: nat)
    requires k < BITS_PER_WORD * |ws| && OnesFrom(ws[k / BITS_PER_WORD], 0)
    ensures Taken(ws, k)
  {
    hide BitAt;
    assert BitAt(ws[k / BITS_PER_WORD], 63 - k % BITS_PER_WORD);
  }

  // The highest zero of the first word that is not full is the least free number.
  lemma FirstFreeIsLeast(ws: seq<Word>, i: nat)
    requires i < |ws| && FullBefore(ws, i) && FirstEmpty(ws[i]) != -1
    ensures 0 <= FirstEmpty(ws[i]) < 64
    ensures Allocated(ws, ws[i := SetBit(ws[i], FirstEmpty(ws[i]))], BITS_PER_WORD * i + 63 - FirstEmpty(ws[i]))
  {
    hide BitAt, FirstEmpty, SetBit;
    FirstEmptyIs(ws[i]);
    var r := FirstEmpty(ws[i]);
    var id, ws' := BITS_PER_WORD * i + 63 - r, ws[i := SetBit(ws[i], r)];
    forall k | 0 <= k < id
      ensures Taken(ws, k)
    {
      if k < BITS_PER_WORD * i {
        FullWordTaken(ws, k);
      } else {
        assert 63 - k % BITS_PER_WORD > r;
      }
    }
    forall k | 0 <= k < BITS_PER_WORD * |ws|
      ensures Taken(ws', k) <==> k == id || Taken(ws, k)
    {
      OtherBit(ws, i, r, k);
    }
  }

  lemma OtherBit(ws: seq<Word>, i: nat, r: nat, k: nat)
    requires i < |ws| && r < 64 && k < BITS_PER_WORD * |ws|
    ensures Taken(ws[i := SetBit(ws[i], r)], k) <==> k == BITS_PER_WORD * i + 63 - r || Taken(ws, k)
  {
    hide BitAt, SetBit;
    var w := SetBit(ws[i], r);
    assert BitAt(w, 63 - k % BITS_PER_WORD) <==> 63 - k % BITS_PER_WORD == r || BitAt(ws[i], 63 - k % BITS_PER_WORD) by {
      SetBitAt(ws[i], r, 63 - k % BITS_PER_WORD);
    }
  }

  lemma SetBitAt(w: Word, r: nat, k: nat)
    requires r < 64
    ensures BitAt(SetBit(w, r), k) <==> k == r || BitAt(w, k)
  {
    hide BitAt;
  }

  /** The hint after id has been allocated: it moves on, by one word, exactly if all numbers of the
      word of id are in use now. */
  ghost function NextHint(ws: seq<Word>, hint: nat, id: nat): nat
    requires id < BITS_PER_WORD * |ws|
  {
    if forall k :: 0 <= k < BITS_PER_WORD * |ws| && k / BITS_PER_WORD == id / BITS_PER_WORD ==> Taken(ws, k)
    then hint + 1 else hint
  }

  lemma NextHintIs(ws: seq<Word>, hint: nat, i: nat, id: nat)
    requires i < |ws| && id / BITS_PER_WORD == i
    ensures id < BITS_PER_WORD * |ws| && NextHint(ws, hint, id) == if Not(ws[i]) == 0 then hint + 1 else hint
  {
    hide BitAt;
    if Not(ws[i]) == 0 { AllOnes(ws[i]); }
    if forall k :: 0 <= k < BITS_PER_WORD * |ws| && k / BITS_PER_WORD == i ==> Taken(ws, k) {
      forall j | 0 <= j < 64
        ensures BitAt(ws[i], j)
      {
        WordBit(ws, i, j);
      }
      OnlyOnes(ws[i]);
    }
  }

  lemma WordBit(ws: seq<Word>, i: nat, j: nat)
    requires i < |ws| && j < 64
    ensures var k := BITS_PER_WORD * i + 63 - j; k / BITS_PER_WORD == i && (Taken(ws, k) <==> BitAt(ws[i], j))
  {
  }

  lemma NothingFree(ws: seq<Word>)
    requires FullBefore(ws, |ws|)
    ensures !AnyFree(ws)
  {
    hide BitAt;
    forall id | 0 <= id < BITS_PER_WORD * |ws|
      ensures Taken(ws, id)
    {
      FullWordTaken(ws, id);
    }
  }

  /** The hint may move on when the word just used has become full, even if the hint was not at
      that word. */
  lemma HintKeeps(ws: seq<Word>, hint: nat, i: nat, w: Word)
    requires FullBefore(ws, i) && hint <= i < |ws|
    requires forall k: nat :: BitAt(ws[i], k) ==> BitAt(w, k)
    ensures FullBefore(ws[i := w], if Not(w) == 0 then hint + 1 else hint)
  {
    hide BitAt;
    if Not(w) == 0 { AllOnes(w); }
  }

  class InodeBitmap {
    const ibm: array<Word>
    var firstEmptyWord: nat

    ghost predicate Valid()
      reads this, ibm
    {
      ibm.Length == INODE_BITMAP_CNT * WORDS_PER_BLOCK && FullBefore(ibm[..], firstEmptyWord)
    }

    constructor (ibm: array<Word>)
      requires ibm.Length == INODE_BITMAP_CNT * WORDS_PER_BLOCK
      ensures Valid() && this.ibm == ibm
    {
      this.ibm, firstEmptyWord := ibm, 0;
    }

    /** ibm_alloc. The position tmp is not initialised before the loop, which does not run at all
        once the hint has moved past the last word: what happens then depends on the arbitrary value
        garbage, and wild says that the code would go on to write behind the bitmap. */
    method Alloc(garbage: int) returns (iid: nat, wild: bool)
      requires Valid()
      modifies `firstEmptyWord, ibm
      ensures Valid() && iid < 0x10000
      ensures wild <==> old(firstEmptyWord) == ibm.Length && garbage != -1
      ensures old(AnyFree(ibm[..])) ==> !wild && Allocated(old(ibm[..]), ibm[..], iid)
      ensures !old(AnyFree(ibm[..])) ==> iid == 0 && ibm[..] == old(ibm[..]) && firstEmptyWord == old(firstEmptyWord)
      ensures old(AnyFree(ibm[..])) ==> firstEmptyWord == NextHint(ibm[..], old(firstEmptyWord), iid)
    {
      hide BitAt, FirstEmpty, SetBit, OnesFrom, Taken, NextHint;
      var ret, p, tmp := firstEmptyWord * BITS_PER_WORD, firstEmptyWord, garbage;
      while p < ibm.Length
        invariant old(firstEmptyWord) == firstEmptyWord <= p <= ibm.Length && ret == BITS_PER_WORD * p
        invariant FullBefore(ibm[..], p) && ibm[..] == old(ibm[..])
        invariant p == ibm.Length ==> tmp == if p == firstEmptyWord then garbage else -1
      {
        tmp := FirstEmpty(ibm[p]);
        FirstEmptyIs(ibm[p]);
        if tmp != -1 {
          break;
        }
        p, ret := p + 1, ret + BITS_PER_WORD;
      }
      if tmp == -1 {
        NothingFree(ibm[..]);
        return 0, false;
      }
      if p == ibm.Length {
        NothingFree(ibm[..]);
        return 0, true;
      }
      ghost var ws := ibm[..];
      FirstFreeIsLeast(ws, p);
      SetBitKeeps(ws[p], tmp);
      HintKeeps(ws, firstEmptyWord, p, SetBit(ws[p], tmp));
      ibm[p] := SetBit(ibm[p], tmp);
      ret := ret + 63 - tmp;
      assert ibm[..] == ws[p := SetBit(ws[p], tmp)];
      NextHintIs(ibm[..], firstEmptyWord, p, ret);
      if Not(ibm[p]) == 0 {
        firstEmptyWord := firstEmptyWord + 1;
      }
      iid, wild := ret % 0x10000, false;
      assert AnyFree(ws);
    }
  }

  // ---------- the bitmap of data blocks ----------

  type BitmapBlock = b: seq<Word> | |b| == WORDS_PER_BLOCK witness seq(WORDS_PER_BLOCK, _ => 0)

  /** All words of all bitmap blocks, in order. */
  function Flat(bs: seq<BitmapBlock>): (ws: seq<Word>)
    ensures |ws| == WORDS_PER_BLOCK * |bs|
  {
    seq(WORDS_PER_BLOCK * |bs|, i requires 0 <= i < WORDS_PER_BLOCK * |bs| => bs[i / WORDS_PER_BLOCK][i % WORDS_PER_BLOCK])
  }

  lemma Split(b: nat, p: nat)
    requires p < WORDS_PER_BLOCK
    ensures (WORDS_PER_BLOCK * b + p) / WORDS_PER_BLOCK == b && (WORDS_PER_BLOCK * b + p) % WORDS_PER_BLOCK == p
  {
  }

  lemma FlatAt(bs: seq<BitmapBlock>, b: nat, p: nat)
    requires b < |bs| && p < WORDS_PER_BLOCK
    ensures Flat(bs)[WORDS_PER_BLOCK * b + p] == bs[b][p]
  {
    Split(b, p);
  }

  lemma FlatUpdate(bs: seq<BitmapBlock>, b: nat, p: nat, w: Word)
    requires b < |bs| && p < WORDS_PER_BLOCK
    ensures Flat(bs[b := bs[b][p := w]]) == Flat(bs)[WORDS_PER_BLOCK * b + p := w]
  {
    hide Flat;
    var cs := bs[b := bs[b][p := w]];
    var x, y := Flat(cs), Flat(bs)[WORDS_PER_BLOCK * b + p := w];
    forall i | 0 <= i < |x|
      ensures x[i] == y[i]
    {
      var c, q := i / WORDS_PER_BLOCK, i % WORDS_PER_BLOCK;
      assert i == WORDS_PER_BLOCK * c + q;
      FlatAt(cs, c, q);
      FlatAt(bs, c, q);
    }
  }

  class DataBitmap {
    var blocks: seq<BitmapBlock>
    var firstEmptyWord: nat
    var maxbid: nat

    ghost predicate Valid()
      reads this
    {
      |blocks| == BITMAP_CNT && FullBefore(Flat(blocks), firstEmptyWord)
    }

    constructor (blocks: seq<BitmapBlock>, maxbid: nat)
      requires |blocks| == BITMAP_CNT
      ensures Valid() && this.blocks == blocks && this.maxbid == maxbid
    {
      this.blocks, firstEmptyWord, this.maxbid := blocks, 0, maxbid;
    }

    // The inner loop: the first word of the block, from p on, that has a zero.
    method ScanBlock(b: nat, wid: nat, start: nat) returns (tmp: int, p: nat, ret: nat)
      requires Valid() && b < |blocks| && wid < WORDS_PER_BLOCK && start == BITS_PER_WORD * (WORDS_PER_BLOCK * b + wid)
      requires FullBefore(Flat(blocks), WORDS_PER_BLOCK * b + wid)
      ensures FullBefore(Flat(blocks), WORDS_PER_BLOCK * b + p) && ret == BITS_PER_WORD * (WORDS_PER_BLOCK * b + p)
      ensures wid <= p && if tmp == -1 then p == WORDS_PER_BLOCK else p < WORDS_PER_BLOCK && tmp == FirstEmpty(blocks[b][p])
    {
      hide BitAt, FirstEmpty, OnesFrom, Flat;
      p, ret, tmp := wid, start, -1;
      while p < WORDS_PER_BLOCK
        invariant wid <= p <= WORDS_PER_BLOCK && ret == BITS_PER_WORD * (WORDS_PER_BLOCK * b + p)
        invariant FullBefore(Flat(blocks), WORDS_PER_BLOCK * b + p) && (p == WORDS_PER_BLOCK ==> tmp == -1)
      {
        tmp := FirstEmpty(blocks[b][p]);
        FirstEmptyIs(blocks[b][p]);
        FlatAt(blocks, b, p);
        if tmp != -1 {
          return;
        }
        p, ret := p + 1, ret + BITS_PER_WORD;
      }
    }

    // A zero has been found at position tmp of word p of block b.
    method Use(b: nat, p: nat, tmp: int)
      requires Valid() && b < |blocks| && p < WORDS_PER_BLOCK && tmp == FirstEmpty(blocks[b][p]) && tmp != -1
      requires FullBefore(Flat(blocks), WORDS_PER_BLOCK * b + p) && firstEmptyWord <= WORDS_PER_BLOCK * b + p
      modifies `blocks, `firstEmptyWord
      ensures Valid() && 0 <= tmp < 64
      ensures Allocated(old(Flat(blocks)), Flat(blocks), BITS_PER_WORD * (WORDS_PER_BLOCK * b + p) + 63 - tmp)
      ensures firstEmptyWord ==
        NextHint(Flat(blocks), old(firstEmptyWord), BITS_PER_WORD * (WORDS_PER_BLOCK * b + p) + 63 - tmp)
    {
      hide BitAt, FirstEmpty, SetBit, OnesFrom, Flat, Taken, NextHint;
      ghost var ws, i := Flat(blocks), WORDS_PER_BLOCK * b + p;
      FlatAt(blocks, b, p);
      FirstFreeIsLeast(ws, i);
      SetBitKeeps(ws[i], tmp);
      var w := SetBit(blocks[b][p], tmp);
      HintKeeps(ws, firstEmptyWord, i, w);
      FlatUpdate(blocks, b, p, w);
      blocks := blocks[b := blocks[b][p := w]];
      NextHintIs(Flat(blocks), firstEmptyWord, i, BITS_PER_WORD * i + 63 - tmp);
      if Not(w) == 0 {
        firstEmptyWord := firstEmptyWord + 1;
      }
    }

    /** dbm_alloc: the search goes on from block to block.  With nothing free it ends in a panic, which
        never returns, and which is None here. */
    method Alloc() returns (r: Option<nat>)
      requires Valid()
      modifies `blocks, `firstEmptyWord, `maxbid
      ensures Valid()
      ensures r.Some? <==> old(AnyFree(Flat(blocks)))
      ensures r.Some? ==> Allocated(old(Flat(blocks)), Flat(blocks), r.value)
      ensures r.None? ==> blocks == old(blocks) && firstEmptyWord == old(firstEmptyWord) && maxbid == old(maxbid)
      ensures r.Some? ==> firstEmptyWord == NextHint(Flat(blocks), old(firstEmptyWord), r.value)
      ensures r.Some? ==> maxbid == if old(maxbid) < Did2Bid(r.value) then Did2Bid(r.value) else old(maxbid)
    {
      hide BitAt, FirstEmpty, SetBit, OnesFrom, Flat, Taken, NextHint;
      var bid := BITMAP_START + firstEmptyWord / WORDS_PER_BLOCK;
      var ret, wid := firstEmptyWord * BITS_PER_WORD, firstEmptyWord % WORDS_PER_BLOCK;
      while bid < DATA_START
        invariant BITMAP_START <= bid <= DATA_START && 0 <= wid < WORDS_PER_BLOCK && (bid == DATA_START ==> wid == 0)
        invariant Valid() && blocks == old(blocks) && firstEmptyWord == old(firstEmptyWord)
        invariant ret == BITS_PER_WORD * (WORDS_PER_BLOCK * (bid - BITMAP_START) + wid)
        invariant firstEmptyWord <= WORDS_PER_BLOCK * (bid - BITMAP_START) + wid && maxbid == old(maxbid)
        invariant FullBefore(Flat(blocks), WORDS_PER_BLOCK * (bid - BITMAP_START) + wid)
      {
        var b, tmp, p := bid - BITMAP_START, 0, 0;
        tmp, p, ret := ScanBlock(b, wid, ret);
        if tmp != -1 {
          Use(b, p, tmp);
          ret := ret + 63 - tmp;
          if maxbid < Did2Bid(ret) {
            maxbid := Did2Bid(ret);
          }
          WasFree(old(Flat(blocks)), Flat(blocks), ret);
          return Some(ret);
        }
        bid, wid := bid + 1, 0;
      }
      NothingFree(Flat(blocks));
      return None;
    }
  }

  lemma WasFree(ws: seq<Word>, ws': seq<Word>, id: nat)
    requires Allocated(ws, ws', id)
    ensures AnyFree(ws)
  {
  }

  lemma SetBitKeeps(w: Word, r: nat)
    requires r < 64
    ensures forall k: nat :: BitAt(w, k) ==> BitAt(SetBit(w, r), k)
  {
    hide BitAt;
  }
}
