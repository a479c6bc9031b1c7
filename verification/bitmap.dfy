/** The `bit_get` / `bit_set` / `bit_clear` helpers shared by the heap and the object pool. */
module Bitmap {
  import opened Words

  predicate BitAt(words: seq<uint32>, i: nat)
    requires i < 32 * |words|
  {
    Bit(words[i / 32], i % 32)
  }

  /** The first `n` bits of a word bitmap, one boolean per bit. */
  function Bits(words: seq<uint32>, n: nat): (r: seq<bool>)
    requires n <= 32 * |words|
    ensures |r| == n && forall i :: 0 <= i < n ==> r[i] == BitAt(words, i)
  {
    seq(n, i requires 0 <= i < n => BitAt(words, i))
  }

  method BitGet(bitmap: array<uint32>, index: nat) returns (b: bool)
    requires index < 32 * bitmap.Length
    ensures b <==> bitmap[index / 32] / Pow2(index % 32) % 2 == 1
    ensures b <==> BitAt(bitmap[..], index)
  {
    WordAndPlace(index);
    var word := bitmap[Shr(index, 5)];
    b := And(Shr(word, And(index, 31)), 1) == 1;
    LowestBit(Shr(word, index % 32));
    ShrIsDivision(word, index % 32);
  }

  /** `index >> 5` and `index & 31`. */
  lemma WordAndPlace(index: nat)
    ensures Shr(index, 5) == index / 32 && And(index, 31) == index % 32
  {
    ShrIsDivision(index, 5);
    assert Pow2(5) == 32 && Ones(5) == 31;
    AndMask(index, 5);
    LowIsMod(index, 5, 32);
  }

  lemma LowestBit(x: nat)
    ensures And(x, 1) == x % 2
  {
    assert Ones(1) == 1 && Pow2(1) == 2;
    AndMask(x, 1);
    LowIsMod(x, 1, 2);
  }

  method BitSet(bitmap: array<uint32>, index: nat)
    requires index < 32 * bitmap.Length
    modifies bitmap
    ensures forall i :: 0 <= i < 32 * bitmap.Length ==>
      (BitAt(bitmap[..], i) <==> i == index || BitAt(old(bitmap[..]), i))
  {
    bitmap[index / 32] := SetBit(bitmap[index / 32], index % 32);
  }

  method BitClear(bitmap: array<uint32>, index: nat)
    requires index < 32 * bitmap.Length
    modifies bitmap
    ensures forall i :: 0 <= i < 32 * bitmap.Length ==>
      (BitAt(bitmap[..], i) <==> i != index && BitAt(old(bitmap[..]), i))
  {
    bitmap[index / 32] := ClearBit(bitmap[index / 32], index % 32);
  }

  /** A word is `0xFFFFFFFF` exactly when its 32 bits are set. */
  lemma FullWordAt(words: seq<uint32>, w: nat)
    requires w < |words|
    ensures words[w] == 0xFFFF_FFFF <==> forall i :: 32 * w <= i < 32 * w + 32 ==> BitAt(words, i)
  {
    FullWordBits(words[w]);
    if words[w] == 0xFFFF_FFFF {
      forall i | 32 * w <= i < 32 * w + 32 ensures BitAt(words, i) {
        assert i / 32 == w;
      }
    }
    if forall i :: 32 * w <= i < 32 * w + 32 ==> BitAt(words, i) {
      forall n | 0 <= n < 32 ensures Bit(words[w], n) {
        assert BitAt(words, 32 * w + n);
        assert (32 * w + n) / 32 == w && (32 * w + n) % 32 == n;
      }
    }
  }
}
