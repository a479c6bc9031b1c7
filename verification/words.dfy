/** Machine words as bounded integers, with the C bit operators spelled out bit by bit. */
module Words {

  datatype Option<+T> = None | Some(value: T)

  /** `xs` with the k-th element taken out. */
  function Without<T>(xs: seq<T>, k: nat): (r: seq<T>)
    requires k < |xs|
    ensures |r| == |xs| - 1
    ensures forall j :: 0 <= j < |r| ==> r[j] == xs[if j < k then j else j + 1]
  {
    xs[..k] + xs[k + 1..]
  }

  ghost predicate AllDifferent<T>(xs: seq<T>) {
    forall i, j :: 0 <= i < j < |xs| ==> xs[i] != xs[j]
  }

  lemma WithoutStaysDifferent<T>(xs: seq<T>, k: nat)
    requires AllDifferent(xs) && k < |xs|
    ensures AllDifferent(Without(xs, k))
    ensures forall j :: 0 <= j < |xs| && j != k ==> xs[j] != xs[k]
  {
    hide Without;
  }

  /** The first place from `from` on that holds `x`, or the length. */
  function IndexOf<T(==)>(xs: seq<T>, x: T, from: nat): (r: nat)
    requires from <= |xs|
    ensures from <= r <= |xs|
    ensures forall k :: from <= k < r ==> xs[k] != x
    ensures r < |xs| ==> xs[r] == x
    decreases |xs| - from
  {
    if from < |xs| && xs[from] != x then IndexOf(xs, x, from + 1) else from
  }

  /** How many are false. */
  function CountClear(bits: seq<bool>): nat {
    if |bits| == 0 then 0
    else CountClear(bits[..|bits| - 1]) + if bits[|bits| - 1] then 0 else 1
  }

  lemma {:induction false} CountClearUpdate(bits: seq<bool>, i: nat, value: bool)
    requires i < |bits|
    ensures CountClear(bits[i := value]) ==
      CountClear(bits) + (if bits[i] then 1 else 0) - (if value then 1 else 0)
    decreases |bits|
  {
    var n := |bits| - 1;
    if i < n {
      CountClearUpdate(bits[..n], i, value);
      assert bits[i := value][..n] == bits[..n][i := value];
    } else {
      assert bits[i := value][..n] == bits[..n];
    }
  }

  lemma {:induction false} AllClear(bits: seq<bool>)
    requires forall i :: 0 <= i < |bits| ==> !bits[i]
    ensures CountClear(bits) == |bits|
  {
    if |bits| > 0 {
      AllClear(bits[..|bits| - 1]);
    }
  }

  const TWO32: nat := 0x1_0000_0000

  type byte = x: int | 0 <= x < 256
  type uint32 = x: int | 0 <= x < 0x1_0000_0000

  function Pow2(n: nat): (p: nat)
    ensures p > 0
  {
    if n == 0 then 1 else 2 * Pow2(n - 1)
  }

  /** Unsigned 32-bit arithmetic keeps the low 32 bits. */
  function Wrap32(x: int): uint32 {
    x % TWO32
  }

  lemma WrapAdd(x: int, y: int)
    ensures Wrap32(Wrap32(x) + y) == Wrap32(x + y)
  {
  }

  lemma WrapSmall(x: uint32)
    ensures Wrap32(x) == x
  {
  }

  /** C's `x >> n` on an unsigned operand. */
  function Shr(x: nat, n: nat): nat {
    if n == 0 then x else Shr(x / 2, n - 1)
  }

  predicate Bit(x: nat, n: nat) {
    Shr(x, n) % 2 == 1
  }

  /** C's `x | y`. */
  function Or(x: nat, y: nat): nat {
    if x == 0 then y
    else if y == 0 then x
    else 2 * Or(x / 2, y / 2) + (if x % 2 == 1 || y % 2 == 1 then 1 else 0)
  }

  /** C's `x & y`. */
  function And(x: nat, y: nat): nat {
    if x == 0 || y == 0 then 0
    else 2 * And(x / 2, y / 2) + (if x % 2 == 1 && y % 2 == 1 then 1 else 0)
  }

  /** C's `~x` on a `uint32_t`. */
  function Not32(x: uint32): uint32 {
    0xFFFF_FFFF - x
  }

  lemma ZeroHasNoBits(n: nat)
    ensures Shr(0, n) == 0 && !Bit(0, n)
  {
  }

  lemma {:induction false} OrBits(x: nat, y: nat, n: nat)
    ensures Bit(Or(x, y), n) <==> Bit(x, n) || Bit(y, n)
    decreases x + y
  {
    ZeroHasNoBits(n);
    if x != 0 && y != 0 && n > 0 {
      OrBits(x / 2, y / 2, n - 1);
      assert Or(x, y) / 2 == Or(x / 2, y / 2);
    }
  }

  lemma {:induction false} AndBits(x: nat, y: nat, n: nat)
    ensures Bit(And(x, y), n) <==> Bit(x, n) && Bit(y, n)
    decreases x + y
  {
    ZeroHasNoBits(n);
    if x != 0 && y != 0 && n > 0 {
      AndBits(x / 2, y / 2, n - 1);
      assert And(x, y) / 2 == And(x / 2, y / 2);
    }
  }

  lemma {:induction false} Pow2Bits(k: nat, n: nat)
    ensures Bit(Pow2(k), n) <==> n == k
  {
    if k == 0 {
      if n > 0 { ZeroHasNoBits(n - 1); }
    } else if n > 0 {
      Pow2Bits(k - 1, n - 1);
    }
  }

  lemma {:induction false} ComplementBits(width: nat, x: nat, n: nat)
    requires n < width && x < Pow2(width)
    ensures Bit(Pow2(width) - 1 - x, n) <==> !Bit(x, n)
  {
    if n > 0 {
      ComplementBits(width - 1, x / 2, n - 1);
      assert (Pow2(width) - 1 - x) / 2 == Pow2(width - 1) - 1 - x / 2;
    }
  }

  lemma Pow2Of32()
    ensures Pow2(8) == 256 && Pow2(16) == 0x1_0000 && Pow2(24) == 0x100_0000 && Pow2(32) == TWO32
  {
    assert Pow2(8) == 256;
    assert Pow2(16) == 0x1_0000;
    assert Pow2(24) == 0x100_0000;
  }

  lemma {:induction false} OrBelow(width: nat, x: nat, y: nat)
    requires x < Pow2(width) && y < Pow2(width)
    ensures Or(x, y) < Pow2(width)
    decreases width
  {
    if x != 0 && y != 0 {
      OrBelow(width - 1, x / 2, y / 2);
    }
  }

  lemma {:induction false} AndBelow(x: nat, y: nat)
    ensures And(x, y) <= x
    decreases x + y
  {
    if x != 0 && y != 0 {
      AndBelow(x / 2, y / 2);
    }
  }

  /** A word below `2^width` whose low `width` bits are all set is `2^width - 1`, and no other is. */
  lemma {:induction false} AllOnes(width: nat, x: nat)
    requires x < Pow2(width)
    ensures x == Pow2(width) - 1 <==> forall n :: 0 <= n < width ==> Bit(x, n)
  {
    if width > 0 {
      AllOnes(width - 1, x / 2);
      if forall n :: 0 <= n < width ==> Bit(x, n) {
        forall n | 0 <= n < width - 1 ensures Bit(x / 2, n) {
          assert Bit(x, n + 1);
        }
        assert Bit(x, 0);
      }
      if x == Pow2(width) - 1 {
        assert x / 2 == Pow2(width - 1) - 1;
        forall n | 0 <= n < width ensures Bit(x, n) {
          if n > 0 { assert Bit(x / 2, n - 1); }
        }
      }
    }
  }

  /** `w |= 1u << k`. */
  function SetBit(w: uint32, k: nat): (r: uint32)
    requires k < 32
    ensures forall n :: 0 <= n < 32 ==> (Bit(r, n) <==> n == k || Bit(w, n))
  {
    Pow2Of32();
    Pow2Below(k, 32);
    OrBelow(32, w, Pow2(k));
    assert forall n :: 0 <= n < 32 ==> (Bit(Or(w, Pow2(k)), n) <==> n == k || Bit(w, n)) by {
      forall n | 0 <= n < 32 ensures Bit(Or(w, Pow2(k)), n) <==> n == k || Bit(w, n) {
        OrBits(w, Pow2(k), n);
        Pow2Bits(k, n);
      }
    }
    Or(w, Pow2(k))
  }

  /** `w &= ~(1u << k)`. */
  function ClearBit(w: uint32, k: nat): (r: uint32)
    requires k < 32
    ensures forall n :: 0 <= n < 32 ==> (Bit(r, n) <==> n != k && Bit(w, n))
  {
    Pow2Of32();
    Pow2Below(k, 32);
    AndBelow(w, Not32(Pow2(k)));
    assert forall n :: 0 <= n < 32 ==> (Bit(And(w, Not32(Pow2(k))), n) <==> n != k && Bit(w, n)) by {
      forall n | 0 <= n < 32 ensures Bit(And(w, Not32(Pow2(k))), n) <==> n != k && Bit(w, n) {
        AndBits(w, Not32(Pow2(k)), n);
        ComplementBits(32, Pow2(k), n);
        Pow2Bits(k, n);
      }
    }
    And(w, Not32(Pow2(k)))
  }

  lemma {:induction false} Pow2Below(k: nat, n: nat)
    requires k < n
    ensures Pow2(k) < Pow2(n)
    decreases n
  {
    if k < n - 1 {
      Pow2Below(k, n - 1);
    }
  }

  lemma FullWordBits(w: uint32)
    ensures w == 0xFFFF_FFFF <==> forall n :: 0 <= n < 32 ==> Bit(w, n)
  {
    Pow2Of32();
    AllOnes(32, w);
  }

  /** `i * size` by name, so that proofs can keep the product out of sight. */
  function Times(i: nat, size: nat): nat {
    i * size
  }

  lemma TimesNext(i: nat, size: nat)
    ensures Times(i + 1, size) == Times(i, size) + size && Times(0, size) == 0
  {
  }

  lemma MulOrder(i: nat, j: nat, size: nat)
    requires i <= j
    ensures i * size <= j * size
    ensures i < j ==> i * size + size <= j * size
  {
    if i < j {
      assert j * size == i * size + (j - i) * size;
      assert (j - i) * size == size + (j - i - 1) * size;
    }
  }

  // ----- fields of a word -----

  lemma {:induction false} ShrIsDivision(x: nat, n: nat)
    ensures Shr(x, n) == x / Pow2(n)
    decreases n
  {
    if n > 0 {
      ShrIsDivision(x / 2, n - 1);
      DivideTwice(x, Pow2(n - 1));
    }
  }

  lemma DivideTwice(x: nat, p: nat)
    requires p > 0
    ensures x / 2 / p == x / (2 * p)
  {
    var q := x / (2 * p);
    assert q * (2 * p) <= x < q * (2 * p) + 2 * p;
    assert q * p <= x / 2 < q * p + p;
    var r := x / 2 / p;
    if r < q { MulOrder(r, q, p); }
    if q < r { MulOrder(q, r, p); }
  }

  /** C's `x << n`, before any wrap. */
  function Shl(x: nat, n: nat): nat {
    if n == 0 then x else 2 * Shl(x, n - 1)
  }

  /** The low `n` bits of `x`. */
  function Low(x: nat, n: nat): nat {
    if n == 0 then 0 else 2 * Low(x / 2, n - 1) + x % 2
  }

  /** The mask of `n` ones. */
  function Ones(n: nat): nat {
    if n == 0 then 0 else 2 * Ones(n - 1) + 1
  }

  /** Or works on the high and the low part of its operands separately. */
  lemma {:induction false} OrSplit(k: nat, h: nat, l: nat, m: nat, n: nat)
    requires l < Pow2(k) && n < Pow2(k)
    ensures Or(Shl(h, k) + l, Shl(m, k) + n) == Shl(Or(h, m), k) + Or(l, n)
    decreases k
  {
    if k > 0 {
      OrSplit(k - 1, h, l / 2, m, n / 2);
      OrOfDoubles(Shl(h, k - 1), l, Shl(m, k - 1), n);
      OrHalves(l, n);
    }
  }

  lemma OrOfDoubles(a: nat, l: nat, b: nat, n: nat)
    ensures Or(2 * a + l, 2 * b + n) ==
      2 * Or(a + l / 2, b + n / 2) + (if l % 2 == 1 || n % 2 == 1 then 1 else 0)
  {
    OrHalves(2 * a + l, 2 * b + n);
    assert (2 * a + l) / 2 == a + l / 2 && (2 * b + n) / 2 == b + n / 2;
  }

  /** The recursion of `Or` without its shortcuts. */
  lemma OrHalves(x: nat, y: nat)
    ensures Or(x, y) == 2 * Or(x / 2, y / 2) + (if x % 2 == 1 || y % 2 == 1 then 1 else 0)
  {
  }

  lemma {:induction false} AndMask(x: nat, n: nat)
    ensures And(x, Ones(n)) == Low(x, n)
    decreases n
  {
    if n > 0 {
      AndMask(x / 2, n - 1);
      LowOfZero(n);
      assert Ones(n) / 2 == Ones(n - 1);
    }
  }

  lemma {:induction false} LowOfZero(n: nat)
    ensures Low(0, n) == 0
  {
    if n > 0 { LowOfZero(n - 1); }
  }

  lemma {:induction false} LowIsMod(x: nat, n: nat, p: nat)
    requires p == Pow2(n)
    ensures Low(x, n) == x % p
    decreases n
  {
    if n > 0 {
      LowIsMod(x / 2, n - 1, Pow2(n - 1));
      ModTwice(x, Pow2(n - 1));
    }
  }

  lemma ModTwice(x: nat, p: nat)
    requires p > 0
    ensures x % (2 * p) == 2 * (x / 2 % p) + x % 2
  {
    DivideTwice(x, p);
    var q := x / (2 * p);
    assert x % (2 * p) == x - q * (2 * p);
    assert x / 2 % p == x / 2 - q * p;
  }

  lemma {:induction false} ShlTwice(x: nat, a: nat, b: nat)
    ensures Shl(x, a + b) == Shl(Shl(x, a), b)
    decreases b
  {
    if b > 0 { ShlTwice(x, a, b - 1); }
  }

  /** Shifts by the byte distances used in the sources, as multiplications and divisions. */
  lemma LeftShifts(x: nat)
    ensures Shl(x, 8) == 0x100 * x && Shl(x, 16) == 0x1_0000 * x && Shl(x, 24) == 0x100_0000 * x
  {
    ShlTwice(x, 4, 4);
    ShlTwice(x, 8, 8);
    ShlTwice(Shl(x, 8), 4, 4);
    ShlTwice(x, 16, 8);
    ShlTwice(Shl(x, 16), 4, 4);
    ShlOfFour(x);
    ShlOfFour(Shl(x, 4));
    ShlOfFour(Shl(x, 8));
    ShlOfFour(Shl(Shl(x, 8), 4));
    ShlOfFour(Shl(x, 16));
    ShlOfFour(Shl(Shl(x, 16), 4));
  }

  lemma ShlOfFour(x: nat)
    ensures Shl(x, 4) == 16 * x
  {
    assert Shl(x, 1) == 2 * x;
    assert Shl(x, 2) == 4 * x;
    assert Shl(x, 3) == 8 * x;
  }

  lemma RightShifts(x: nat)
    ensures Shr(x, 8) == x / 0x100 && Shr(x, 16) == x / 0x1_0000 && Shr(x, 24) == x / 0x100_0000
  {
    Pow2Of32();
    ShrIsDivision(x, 8);
    ShrIsDivision(x, 16);
    ShrIsDivision(x, 24);
  }

  lemma ByteMasks(x: nat)
    ensures And(x, 0xFF) == x % 0x100 && And(x, 0xFFFF) == x % 0x1_0000 && And(x, 0xFF_FFFF) == x % 0x100_0000
  {
    Pow2Of32();
    assert Ones(8) == 0xFF;
    assert Ones(16) == 0xFFFF;
    assert Ones(24) == 0xFF_FFFF;
    AndMask(x, 8);
    AndMask(x, 16);
    AndMask(x, 24);
    LowIsMod(x, 8, 0x100);
    LowIsMod(x, 16, 0x1_0000);
    LowIsMod(x, 24, 0x100_0000);
  }

  lemma OrZero(x: nat)
    ensures Or(x, 0) == x && Or(0, x) == x
  {
  }

  lemma PackTop(op: byte, rd: byte)
    ensures Or(Shl(op, 24), Shl(rd, 16)) == 0x100_0000 * op + 0x1_0000 * rd
  {
    Pow2Of32();
    LeftShifts(op);
    LeftShifts(rd);
    OrZero(op);
    OrZero(0x1_0000 * rd);
    LeftShifts(0);
    OrSplit(24, op, 0, 0, 0x1_0000 * rd);
  }

  lemma PackThird(top: nat, rs: byte)
    ensures Or(0x1_0000 * top, Shl(rs, 8)) == 0x1_0000 * top + 0x100 * rs
  {
    Pow2Of32();
    LeftShifts(top);
    LeftShifts(rs);
    LeftShifts(0);
    OrZero(top);
    OrZero(0x100 * rs);
    OrSplit(16, top, 0, 0, 0x100 * rs);
  }

  lemma HighAndByte(top: nat, a: byte, b: byte)
    ensures Or(0x100 * top + a, b) == 0x100 * top + Or(a, b)
  {
    Pow2Of32();
    LeftShifts(top);
    LeftShifts(0);
    OrZero(top);
    OrSplit(8, top, a, 0, b);
  }

  lemma PackLow(high: nat, low: nat)
    ensures Or(0x100 * high, low) == 0x100 * Or(high, low / 0x100) + low % 0x100
  {
    Pow2Of32();
    LeftShifts(high);
    LeftShifts(low / 0x100);
    LeftShifts(Or(high, low / 0x100));
    OrZero(low % 0x100);
    OrSplit(8, high, 0, low / 0x100, low % 0x100);
  }

  /** Four byte-sized fields, or-ed together at their places; the last two may overlap. */
  lemma Packed(op: byte, rd: byte, rs: byte, low: nat)
    requires low < 0x1_0000
    ensures Or(Or(Or(Shl(op, 24), Shl(rd, 16)), Shl(rs, 8)), low)
         == 0x100_0000 * op + 0x1_0000 * rd + 0x100 * Or(rs, low / 0x100) + low % 0x100
    ensures Or(rs, low / 0x100) < 0x100
  {
    hide Or, Shl;
    PackTop(op, rd);
    PackThird(0x100 * op + rd, rs);
    PackLow(0x1_0000 * op + 0x100 * rd + rs, low);
    HighAndByte(0x100 * op + rd, rs, low / 0x100);
    Pow2Of32();
    OrBelow(8, rs, low / 0x100);
  }
}
