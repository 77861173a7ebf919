/** The metadata node's free-block bitmap: an array of machine words, one bit per
    block, where a set bit means "in use".  Bit `i` of the bitmap lives in word
    `i / 64` at position `i % 64`.  The words past `nbits` are padded with set
    bits so that the allocator never hands out a block that does not exist.

    A machine word (`size_t` on a 64-bit target) is modelled as the sequence of
    its 64 bits, least significant first: `w[k]` is `(w >> k) & 1`. */
module Bitmap {
  import Modular

  /** `sizeof(size_t) * CHAR_BIT` on the 64-bit targets the system is built for. */
  const BitsPerWord: nat := 64

  /** Block counts and indices are `uint32_t` in the interface. */
  const U32Bound: nat := 0x1_0000_0000

  type uint32 = x: nat | x < U32Bound

  /** One `size_t` word, bit `k` at index `k`. */
  type Word = w: seq<bool> | |w| == 64 witness seq(64, k => false)

  /** The all-zero word written by `memset`. */
  const ZeroWord: Word := seq(64, k => false)

  /** `w == word_all_bits`, where `word_all_bits` is `(size_t)-1`. */
  predicate AllOnes(w: Word)
  {
    forall k :: 0 <= k < 64 ==> w[k]
  }

  /** `~w` */
  function Complement(w: Word): (r: Word)
    ensures forall k :: 0 <= k < 64 ==> r[k] == !w[k]
  {
    seq(64, k requires 0 <= k < 64 => !w[k])
  }

  /** `w | ((size_t)1 << k)` */
  function SetBit(w: Word, k: nat): (r: Word)
    requires k < 64
    ensures r[k] && forall j :: 0 <= j < 64 && j != k ==> r[j] == w[j]
  {
    w[k := true]
  }

  /** `w & ~((size_t)1 << k)` */
  function ClearBit(w: Word, k: nat): (r: Word)
    requires k < 64
    ensures !r[k] && forall j :: 0 <= j < 64 && j != k ==> r[j] == w[j]
  {
    w[k := false]
  }

  /** `__builtin_ctzl(v)` for a non-zero word, scanning up from position `from`:
      the index of the lowest set bit at or above `from`. */
  function TrailingZerosFrom(v: Word, from: nat): (b: nat)
    requires from <= 64
    requires exists k :: from <= k < 64 && v[k]
    ensures from <= b < 64 && v[b]
    ensures forall k :: from <= k < b ==> !v[k]
    decreases 64 - from
  {
    if v[from] then from else TrailingZerosFrom(v, from + 1)
  }

  /** The word is not zero: some bit is set. */
  predicate NonZero(v: Word)
  {
    exists k :: 0 <= k < 64 && v[k]
  }

  /** `__builtin_ctzl(v)`: the number of trailing zero bits of a non-zero word,
      which is the position of its lowest set bit.  (The builtin is undefined
      on zero, hence the precondition.) */
  function TrailingZeros(v: Word): (b: nat)
    requires NonZero(v)
    ensures b < 64 && v[b]
    ensures forall k :: 0 <= k < b ==> !v[k]
  {
    TrailingZerosFrom(v, 0)
  }

  /** The complement of a word that is not all ones has a set bit. */
  lemma ComplementNonZero(w: Word)
    requires !AllOnes(w)
    ensures NonZero(Complement(w))
  {
    var k :| 0 <= k < 64 && !w[k];
    assert Complement(w)[k];
  }

  /** `(nbits + bits_per_word - 1) / bits_per_word`: the words a bitmap of
      `nbits` bits occupies. */
  function WordCount(nbits: nat): (n: nat)
    ensures n * BitsPerWord >= nbits
    ensures n * BitsPerWord < nbits + BitsPerWord
  {
    (nbits + BitsPerWord - 1) / BitsPerWord
  }

  /** The array the caller hands in holds exactly the words for `nbits` bits. */
  predicate Shaped(bm: seq<Word>, nbits: nat)
  {
    |bm| == WordCount(nbits)
  }

  /** `bitmap_isset`: bit `index` of the word array.  Every index names one
      bit: writing it as `w * 64 + k` with `k < 64` picks word `w`, bit `k`.
      The `nbits` argument of the C function is not used by it and is not
      modelled. */
  function IsSet(bm: seq<Word>, index: nat): (b: bool)
    requires index < |bm| * BitsPerWord
    ensures forall w, k :: 0 <= w < |bm| && 0 <= k < BitsPerWord && index == w * BitsPerWord + k ==> (b <==> bm[w][k])
  {
    assert forall w, k :: 0 <= w < |bm| && 0 <= k < BitsPerWord && index == w * BitsPerWord + k ==>
      bm[w][k] == bm[index / BitsPerWord][index % BitsPerWord] by {
      forall w, k | 0 <= w < |bm| && 0 <= k < BitsPerWord && index == w * BitsPerWord + k
        ensures bm[w][k] == bm[index / BitsPerWord][index % BitsPerWord]
      {
        Modular.ModUnique(index, BitsPerWord, w, k);
      }
    }
    bm[index / BitsPerWord][index % BitsPerWord]
  }

  /** The padding invariant: every bit from `nbits` to the end of the last word
      is set, so those blocks are never handed out. */
  predicate PaddingSet(bm: seq<Word>, nbits: nat)
  {
    && Shaped(bm, nbits)
    && forall i :: nbits <= i < |bm| * BitsPerWord ==> IsSet(bm, i)
  }

  /** The loop of `bitmap_init` that ORs in bits `j .. 63` of the last word. */
  function SetBitsFrom(w: Word, j: nat): (r: Word)
    requires j <= 64
    ensures forall k :: 0 <= k < 64 ==> r[k] == (w[k] || j <= k)
    decreases 64 - j
  {
    if j == 64 then w else SetBitsFrom(SetBit(w, j), j + 1)
  }

  /** `bitmap_init`: zero the words, then set the padding bits of a partial
      last word. */
  function Init(nbits: uint32): (bm: seq<Word>)
    ensures Shaped(bm, nbits)
    ensures forall i :: 0 <= i < nbits ==> !IsSet(bm, i)
    ensures PaddingSet(bm, nbits)
  {
    var nwords := WordCount(nbits);
    var zeroed := seq(nwords, k => ZeroWord);
    if nwords > nbits / BitsPerWord then
      var idx := nwords - 1;
      var overbits := nbits - idx * BitsPerWord;
      var bm := zeroed[idx := SetBitsFrom(ZeroWord, overbits)];
      assert forall i :: 0 <= i < nwords * BitsPerWord ==> (IsSet(bm, i) <==> i >= nbits) by {
        forall i | 0 <= i < nwords * BitsPerWord
          ensures IsSet(bm, i) <==> i >= nbits
        {
          if i / BitsPerWord == idx {
            assert i % BitsPerWord == i - idx * BitsPerWord;
          } else {
            assert i / BitsPerWord < idx;
            assert i < idx * BitsPerWord;
          }
        }
      }
      bm
    else
      assert nwords * BitsPerWord == nbits;
      zeroed
  }

  /** What `bitmap_alloc` reports: the return code, the bitmap afterwards and
      the value of `*index` afterwards (only written on success). */
  datatype AllocResult = AllocResult(rc: int, bitmap: seq<Word>, index: nat)

  /** All bits of words `0 .. idx-1` are set. */
  predicate FullBelow(bm: seq<Word>, idx: nat)
    requires idx <= |bm|
  {
    forall i :: 0 <= i < idx * BitsPerWord ==> IsSet(bm, i)
  }

  /** The loop of `bitmap_alloc` from word `idx` on, given that all earlier
      words are full. */
  function AllocFrom(bm: seq<Word>, nbits: uint32, idx: nat, index: uint32): (r: AllocResult)
    requires Shaped(bm, nbits)
    requires idx <= |bm| && FullBelow(bm, idx)
    ensures r.rc == 0 || r.rc == 1 || r.rc == -1
    ensures r.rc != 0 ==> r.bitmap == bm && r.index == index
    ensures r.rc == -1 <==> FullBelow(bm, |bm|)
    ensures r.rc == 0 ==>
      && r.index < nbits
      && !IsSet(bm, r.index)
      && (forall i :: 0 <= i < r.index ==> IsSet(bm, i))
      && |r.bitmap| == |bm|
      && IsSet(r.bitmap, r.index)
      && (forall i :: 0 <= i < |bm| * BitsPerWord && i != r.index ==> IsSet(r.bitmap, i) == IsSet(bm, i))
    ensures r.rc == 1 ==>
      && (forall i :: 0 <= i < nbits ==> IsSet(bm, i))
      && exists i :: nbits <= i < |bm| * BitsPerWord && !IsSet(bm, i)
    decreases |bm| - idx
  {
    if idx == |bm| then
      AllocResult(-1, bm, index)
    else if !AllOnes(bm[idx]) then
      ComplementNonZero(bm[idx]);
      var inverted := Complement(bm[idx]);
      var bit := TrailingZeros(inverted);
      var globalBit := idx * BitsPerWord + bit;
      assert globalBit / BitsPerWord == idx && globalBit % BitsPerWord == bit;
      assert !IsSet(bm, globalBit);
      assert forall i :: 0 <= i < globalBit ==> IsSet(bm, i) by {
        forall i | 0 <= i < globalBit ensures IsSet(bm, i) {
          if i >= idx * BitsPerWord {
            assert i / BitsPerWord == idx && i % BitsPerWord < bit;
          }
        }
      }
      if globalBit >= nbits then
        AllocResult(1, bm, index)
      else
        var bm' := bm[idx := SetBit(bm[idx], bit)];
        assert forall i :: 0 <= i < |bm| * BitsPerWord && i != globalBit ==> IsSet(bm', i) == IsSet(bm, i) by {
          forall i | 0 <= i < |bm| * BitsPerWord && i != globalBit
            ensures IsSet(bm', i) == IsSet(bm, i)
          {
            if i / BitsPerWord == idx {
              assert i % BitsPerWord != bit;
            }
          }
        }
        assert !FullBelow(bm, |bm|);
        AllocResult(0, bm', globalBit)
    else
      assert FullBelow(bm, idx + 1) by {
        forall i | 0 <= i < (idx + 1) * BitsPerWord ensures IsSet(bm, i) {
          if i >= idx * BitsPerWord {
            assert i / BitsPerWord == idx;
          }
        }
      }
      AllocFrom(bm, nbits, idx + 1, index)
  }

  /** `bitmap_alloc`: take the lowest clear bit.  Returns 0 and the index on
      success, -1 when every word is all ones, and 1 when the lowest clear bit
      lies in the padding past `nbits` (the padding invariant rules that out). */
  function Alloc(bm: seq<Word>, nbits: uint32, index: uint32): (r: AllocResult)
    requires Shaped(bm, nbits)
    ensures r.rc == 0 || r.rc == 1 || r.rc == -1
    ensures r.rc != 0 ==> r.bitmap == bm && r.index == index
    ensures r.rc == -1 <==> forall i :: 0 <= i < |bm| * BitsPerWord ==> IsSet(bm, i)
    ensures r.rc == 0 ==>
      && r.index < nbits
      && !IsSet(bm, r.index)
      && (forall i :: 0 <= i < r.index ==> IsSet(bm, i))
      && Shaped(r.bitmap, nbits)
      && IsSet(r.bitmap, r.index)
      && (forall i :: 0 <= i < |bm| * BitsPerWord && i != r.index ==> IsSet(r.bitmap, i) == IsSet(bm, i))
    ensures r.rc == 1 ==>
      && (forall i :: 0 <= i < nbits ==> IsSet(bm, i))
      && !PaddingSet(bm, nbits)
    ensures PaddingSet(bm, nbits) ==> r.rc != 1 && PaddingSet(r.bitmap, nbits)
  {
    AllocFrom(bm, nbits, 0, index)
  }

  /** `bitmap_free`: the C asserts demand an index below `nbits` whose bit is
      set; the bit is cleared. */
  function Free(bm: seq<Word>, nbits: uint32, index: uint32): (r: seq<Word>)
    requires Shaped(bm, nbits)
    requires index < nbits && IsSet(bm, index)
    ensures Shaped(r, nbits)
    ensures !IsSet(r, index)
    ensures forall i :: 0 <= i < |bm| * BitsPerWord && i != index ==> IsSet(r, i) == IsSet(bm, i)
    ensures PaddingSet(bm, nbits) ==> PaddingSet(r, nbits)
  {
    var wordIdx := index / BitsPerWord;
    var r := bm[wordIdx := ClearBit(bm[wordIdx], index % BitsPerWord)];
    assert forall i :: 0 <= i < |bm| * BitsPerWord && i != index ==> IsSet(r, i) == IsSet(bm, i) by {
      forall i | 0 <= i < |bm| * BitsPerWord && i != index
        ensures IsSet(r, i) == IsSet(bm, i)
      {
        if i / BitsPerWord == wordIdx {
          assert i % BitsPerWord != index % BitsPerWord;
        }
      }
    }
    r
  }

  /** `bitmap_set`: the C assert demands an index below `nbits`; exactly that
      bit takes the value `val`. */
  function Set(bm: seq<Word>, nbits: uint32, index: uint32, val: bool): (r: seq<Word>)
    requires Shaped(bm, nbits)
    requires index < nbits
    ensures Shaped(r, nbits)
    ensures IsSet(r, index) == val
    ensures forall i :: 0 <= i < |bm| * BitsPerWord && i != index ==> IsSet(r, i) == IsSet(bm, i)
    ensures PaddingSet(bm, nbits) ==> PaddingSet(r, nbits)
  {
    var wordIdx := index / BitsPerWord;
    var bit := index % BitsPerWord;
    var w := if val then SetBit(bm[wordIdx], bit) else ClearBit(bm[wordIdx], bit);
    var r := bm[wordIdx := w];
    assert forall i :: 0 <= i < |bm| * BitsPerWord && i != index ==> IsSet(r, i) == IsSet(bm, i) by {
      forall i | 0 <= i < |bm| * BitsPerWord && i != index
        ensures IsSet(r, i) == IsSet(bm, i)
      {
        if i / BitsPerWord == wordIdx {
          assert i % BitsPerWord != bit;
        }
      }
    }
    r
  }

  /** Two bitmaps of the same length that agree on every bit are equal. */
  lemma {:induction false} Extensional(a: seq<Word>, b: seq<Word>)
    requires |a| == |b|
    requires forall i :: 0 <= i < |a| * BitsPerWord ==> IsSet(a, i) == IsSet(b, i)
    ensures a == b
  {
    forall w | 0 <= w < |a| ensures a[w] == b[w] {
      forall k | 0 <= k < 64 ensures a[w][k] == b[w][k] {
        var i := w * BitsPerWord + k;
        assert i / BitsPerWord == w && i % BitsPerWord == k;
        assert IsSet(a, i) == IsSet(b, i);
      }
    }
  }

  /** Freeing the block `bitmap_alloc` just handed out restores the bitmap. */
  lemma FreeUndoesAlloc(bm: seq<Word>, nbits: uint32, index: uint32)
    requires Shaped(bm, nbits)
    requires Alloc(bm, nbits, index).rc == 0
    ensures Free(Alloc(bm, nbits, index).bitmap, nbits, Alloc(bm, nbits, index).index) == bm
  {
    var r := Alloc(bm, nbits, index);
    Extensional(Free(r.bitmap, nbits, r.index), bm);
  }

  /** `bitmap_free` is `bitmap_set(.., false)` restricted to set bits. */
  lemma FreeIsSetFalse(bm: seq<Word>, nbits: uint32, index: uint32)
    requires Shaped(bm, nbits)
    requires index < nbits && IsSet(bm, index)
    ensures Free(bm, nbits, index) == Set(bm, nbits, index, false)
  {
    Extensional(Free(bm, nbits, index), Set(bm, nbits, index, false));
  }

  /** Setting a bit back to the value it had leaves the bitmap unchanged. */
  lemma SetSameValue(bm: seq<Word>, nbits: uint32, index: uint32)
    requires Shaped(bm, nbits)
    requires index < nbits
    ensures Set(bm, nbits, index, IsSet(bm, index)) == bm
  {
    Extensional(Set(bm, nbits, index, IsSet(bm, index)), bm);
  }

  /** The state after handing out blocks `0 .. k-1` of a fresh bitmap: exactly
      those blocks and the padding are in use. */
  predicate AllocatedPrefix(bm: seq<Word>, nbits: nat, k: nat)
  {
    && Shaped(bm, nbits)
    && forall i :: 0 <= i < |bm| * BitsPerWord ==> (IsSet(bm, i) <==> i < k || nbits <= i)
  }

  /** From the allocated-prefix state, the next allocation hands out block `k`
      (lowest-first), or reports -1 once all `nbits` blocks are in use. */
  lemma AllocNext(bm: seq<Word>, nbits: uint32, k: nat, index: uint32)
    requires k <= nbits && AllocatedPrefix(bm, nbits, k)
    ensures k < nbits ==> Alloc(bm, nbits, index).rc == 0 && Alloc(bm, nbits, index).index == k
    ensures k < nbits ==> AllocatedPrefix(Alloc(bm, nbits, index).bitmap, nbits, k + 1)
    ensures k == nbits ==> Alloc(bm, nbits, index).rc == -1
  {
    var r := Alloc(bm, nbits, index);
    assert PaddingSet(bm, nbits);
    if k < nbits {
      assert !IsSet(bm, k);
      assert r.rc == 0;
      assert !(r.index < k);
    }
  }

  /** A fresh bitmap is the allocated-prefix state with nothing handed out. */
  lemma InitIsEmptyPrefix(nbits: uint32)
    ensures AllocatedPrefix(Init(nbits), nbits, 0)
  {
    var bm := Init(nbits);
    forall i | 0 <= i < |bm| * BitsPerWord ensures IsSet(bm, i) <==> nbits <= i {
      if i < nbits {
        assert !IsSet(bm, i);
      }
    }
  }
}
