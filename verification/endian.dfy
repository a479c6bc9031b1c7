/**
 `le32_to_host` of kernel/loader/app_loader.c. Its comment promises the value unchanged on a
 little-endian CPU; the expression swaps the bytes on any CPU, and the loader no longer calls it.
 */
module Endian {
  import opened Words
  import opened AsmModel
  import opened Image

  /** The four shifts and masks; shifts to the left drop what leaves the word. */
  function Le32ToHost(x: uint32): (r: nat) {
    Or(Or(Or(And(Shr(x, 24), 0xFF), And(Shr(x, 8), 0xFF00)), And(Wrap32(Shl(x, 8)), 0xFF_0000)),
       And(Wrap32(Shl(x, 24)), 0xFF00_0000))
  }

  /** A mask with zeros below works on the high part alone. */
  lemma {:induction false} AndHigh(x: nat, m: nat, k: nat)
    ensures And(x, Shl(m, k)) == Shl(And(Shr(x, k), m), k)
    decreases k
  {
    if k > 0 {
      AndHigh(x / 2, m, k - 1);
      assert Shl(m, k) / 2 == Shl(m, k - 1);
      if x == 0 {
        ZeroHasNoBits(k);
        ZeroShifts(k);
      } else if Shl(m, k) == 0 {
        ShlZero(m, k);
        ZeroShifts(k);
      }
    }
  }

  lemma {:induction false} ZeroShifts(k: nat)
    ensures Shl(0, k) == 0
  {
    if k > 0 { ZeroShifts(k - 1); }
  }

  lemma {:induction false} ShlZero(m: nat, k: nat)
    requires Shl(m, k) == 0
    ensures m == 0
  {
    if k > 0 { ShlZero(m, k - 1); }
  }

  /** Bytes are or-ed below a field whose low part is zero. */
  lemma OrAbove(low: nat, high: nat, k: nat)
    requires low < Pow2(k)
    ensures Or(low, Shl(high, k)) == low + Shl(high, k)
  {
    ZeroShifts(k);
    OrSplit(k, 0, low, high, 0);
    OrZero(high);
    OrZero(low);
  }

  lemma MaskedByte(x: nat)
    ensures And(x, 0xFF00) == 0x100 * (x / 0x100 % 0x100)
    ensures And(x, 0xFF_0000) == 0x1_0000 * (x / 0x1_0000 % 0x100)
    ensures And(x, 0xFF00_0000) == 0x100_0000 * (x / 0x100_0000 % 0x100)
  {
    hide And, Shl, Shr;
    LeftShifts(0xFF);
    RightShifts(x);
    AndHigh(x, 0xFF, 8);
    AndHigh(x, 0xFF, 16);
    AndHigh(x, 0xFF, 24);
    ByteMasks(Shr(x, 8));
    ByteMasks(Shr(x, 16));
    ByteMasks(Shr(x, 24));
    LeftShifts(x / 0x100 % 0x100);
    LeftShifts(x / 0x1_0000 % 0x100);
    LeftShifts(x / 0x100_0000 % 0x100);
  }

  function FromBytes(a: byte, b: byte, c: byte, d: byte): (x: uint32) {
    a + 0x100 * b + 0x1_0000 * c + 0x100_0000 * d
  }

  lemma BytesOr(a: byte, b: byte, c: byte, d: byte)
    ensures Or(Or(Or(a, 0x100 * b), 0x1_0000 * c), 0x100_0000 * d) == FromBytes(a, b, c, d)
  {
    hide Or, Shl;
    Pow2Of32();
    LeftShifts(b);
    LeftShifts(c);
    LeftShifts(d);
    OrAbove(a, b, 8);
    OrAbove(a + 0x100 * b, c, 16);
    OrAbove(a + 0x100 * b + 0x1_0000 * c, d, 24);
  }

  /** It reverses the bytes, whatever the CPU. */
  lemma ReversesBytes(a: byte, b: byte, c: byte, d: byte)
    ensures Le32ToHost(FromBytes(a, b, c, d)) == FromBytes(d, c, b, a)
  {
    hide Or, And, Shr, Shl;
    var x := FromBytes(a, b, c, d);
    RightShifts(x);
    LeftShifts(x);
    ByteMasks(Shr(x, 24));
    MaskedByte(Shr(x, 8));
    MaskedByte(Wrap32(Shl(x, 8)));
    MaskedByte(Wrap32(Shl(x, 24)));
    FourBytes(a, b, c, d);
    BytesOr(d, c, b, a);
  }

  lemma DropAbove(q: nat, r: uint32)
    ensures Wrap32(TWO32 * q + r) == r
  {
  }

  lemma ByteOf(q: nat, b: byte, r: nat, unit: nat)
    requires unit == 0x100 || unit == 0x1_0000 || unit == 0x100_0000
    requires r < unit
    ensures (unit * (0x100 * q + b) + r) / unit % 0x100 == b
  {
    assert (unit * (0x100 * q + b) + r) / unit == 0x100 * q + b;
  }

  lemma FourBytes(a: byte, b: byte, c: byte, d: byte)
    ensures var x := FromBytes(a, b, c, d);
      && x / 0x100_0000 % 0x100 == d
      && x / 0x100 / 0x100 % 0x100 == c
      && Wrap32(0x100 * (x as int)) / 0x1_0000 % 0x100 == b
      && Wrap32(0x100_0000 * (x as int)) / 0x100_0000 % 0x100 == a
  {
    hide Wrap32;
    var x: int := FromBytes(a, b, c, d);
    DropAbove(d, 0x100 * (a + 0x100 * b + 0x1_0000 * c));
    DropAbove(b + 0x100 * c + 0x1_0000 * d, 0x100_0000 * a);
    ByteOf(0, d, a + 0x100 * b + 0x1_0000 * c, 0x100_0000);
    ByteOf(d, c, a + 0x100 * b, 0x1_0000);
    ByteOf(c, b, 0x100 * a, 0x1_0000);
    ByteOf(0, a, 0, 0x100_0000);
    assert x / 0x100 / 0x100 == x / 0x1_0000;
  }

  /** Twice is nothing; once is nothing exactly for words that read the same from both ends. */
  lemma SwapLaws(a: byte, b: byte, c: byte, d: byte)
    ensures var x := FromBytes(a, b, c, d);
      && Le32ToHost(x) < TWO32 && Le32ToHost(Le32ToHost(x)) == x
      && (Le32ToHost(x) == x <==> a == d && b == c)
  {
    hide Le32ToHost;
    ReversesBytes(a, b, c, d);
    ReversesBytes(d, c, b, a);
  }

  /** Reading the magic number through it would refuse every assembled image. */
  lemma SwappedMagicDiffers()
    ensures Le32ToHost(APP_MAGIC) == 0xCEFA_FECA
  {
    hide Le32ToHost;
    ReversesBytes(0xCE, 0xFA, 0xFE, 0xCA);
  }
}
