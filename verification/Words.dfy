/**
 32-bit words and bytes read as bit sequences, most significant bit first.
 */
module Words {
  import opened Lfsr

  const TOP: bv32 := 0x8000_0000

  /** The top `n` bits of a word. */
  function TopBits(w: bv32, n: nat): (r: Bits)
    ensures |r| == n
    decreases n, w
  {
    if n == 0 then [] else [w & TOP != 0] + TopBits(w << 1, n - 1)
  }

  function WordBits(w: bv32): (r: Bits)
    ensures |r| == 32
  {
    TopBits(w, 32)
  }

  /** The word shifted left `k` times. */
  function Shl(w: bv32, k: nat): bv32
    decreases k
  {
    if k == 0 then w else Shl(w << 1, k - 1)
  }

  lemma {:induction false} TopBitsSplit(w: bv32, k: nat, m: nat)
    ensures TopBits(w, k + m) == TopBits(w, k) + TopBits(Shl(w, k), m)
    decreases k
  {
    if k != 0 {
      TopBitsSplit(w << 1, k - 1, m);
      assert TopBits(w, k + m) == [w & TOP != 0] + TopBits(w << 1, k - 1 + m);
    }
  }

  lemma XorShifts(a: bv32, b: bv32)
    ensures (a ^ b) << 1 == (a << 1) ^ (b << 1)
    ensures ((a ^ b) & TOP != 0) == ((a & TOP != 0) != (b & TOP != 0))
  {
  }

  lemma XorOfCons(x: bool, a: Bits, y: bool, b: Bits)
    requires |a| == |b|
    ensures Xor([x] + a, [y] + b) == [x != y] + Xor(a, b)
  {
  }

  lemma {:induction false} TopBitsXor(a: bv32, b: bv32, n: nat)
    ensures TopBits(a ^ b, n) == Xor(TopBits(a, n), TopBits(b, n))
    decreases n
  {
    if n != 0 {
      XorShifts(a, b);
      TopBitsXor(a << 1, b << 1, n - 1);
      XorOfCons(a & TOP != 0, TopBits(a << 1, n - 1), b & TOP != 0, TopBits(b << 1, n - 1));
    }
  }

  lemma {:induction false} ShlAdd(w: bv32, k: nat, m: nat)
    ensures Shl(w, k + m) == Shl(Shl(w, k), m)
    decreases k
  {
    if k != 0 { ShlAdd(w << 1, k - 1, m); }
  }

  lemma ShlByte(w: bv32)
    ensures Shl(w, 8) == w << 8
  {
    assert Shl(w, 8) == Shl(w << 1, 7) == Shl(w << 1 << 1, 6) == Shl(w << 1 << 1 << 1, 5);
    assert Shl(w << 3, 5) == Shl(w << 3 << 1, 4) == Shl(w << 3 << 1 << 1, 3) == Shl(w << 6, 2);
    assert Shl(w << 6, 2) == Shl(w << 6 << 1, 1) == w << 6 << 1 << 1;
    assert w << 1 << 1 << 1 == w << 3 && w << 3 << 1 << 1 << 1 == w << 6 && w << 6 << 1 << 1 == w << 8;
  }

  lemma ShlBytes(w: bv32)
    ensures Shl(w, 8) == w << 8 && Shl(w, 16) == w << 16 && Shl(w, 24) == w << 24 && Shl(w, 32) == 0
  {
    ShlByte(w);
    ShlAdd(w, 8, 8);
    ShlByte(w << 8);
    ShlAdd(w, 16, 8);
    ShlByte(w << 16);
    ShlAdd(w, 24, 8);
    ShlByte(w << 24);
    assert w << 8 << 8 == w << 16 && w << 16 << 8 == w << 24 && w << 24 << 8 == 0;
  }

  lemma WordBitsXor(a: bv32, b: bv32)
    ensures WordBits(a ^ b) == Xor(WordBits(a), WordBits(b))
  {
    TopBitsXor(a, b, 32);
  }

  lemma TopBit(w: bv32)
    ensures (w & TOP != 0) == WordBits(w)[0]
  {
  }

  // ----- one bit of a word -----

  predicate OneHot(j: bv32) {
    j != 0 && j & (j - 1) == 0
  }

  lemma OneHotShift(j: bv32)
    requires OneHot(j)
    ensures j & TOP != 0 ==> j == TOP && j << 1 == 0
    ensures j & TOP == 0 ==> OneHot(j << 1)
  {
  }

  lemma {:induction false} ShlZero(k: nat)
    ensures Shl(0, k) == 0
    decreases k
  {
    if k != 0 {
      assert (0 as bv32) << 1 == 0;
      ShlZero(k - 1);
    }
  }

  lemma MaskShift(w: bv32, j: bv32)
    requires j & TOP == 0
    ensures (w & j != 0) == ((w << 1) & (j << 1) != 0)
  {
  }

  /** Testing a word against the single bit that `k` shifts take to the top is testing the shifted word's top bit. */
  lemma {:induction false} TestBit(w: bv32, j: bv32, k: nat)
    requires OneHot(j) && Shl(j, k) == TOP
    ensures (w & j != 0) == (Shl(w, k) & TOP != 0)
    decreases k
  {
    if k != 0 {
      OneHotShift(j);
      if j & TOP != 0 { ShlZero(k - 1); }
      MaskShift(w, j);
      TestBit(w << 1, j << 1, k - 1);
    }
  }

  lemma BitAt(w: bv32, j: bv32, k: nat)
    requires k < 32 && OneHot(j) && Shl(j, k) == TOP
    ensures (w & j != 0) == WordBits(w)[k]
  {
    TestBit(w, j, k);
    TopBitsSplit(w, k, 32 - k);
    assert TopBits(Shl(w, k), 32 - k)[0] == (Shl(w, k) & TOP != 0);
  }

  // ----- shifts -----

  lemma WordBitsShiftLeft(w: bv32)
    ensures WordBits(w << 1) == WordBits(w)[1..] + [false]
  {
    TopBitsSplit(w, 32, 1);
    ShlBytes(w);
    ZeroWordBits(1);
    assert TopBits(w, 33)[1..] == TopBits(w << 1, 32);
    assert TopBits(w, 33) == WordBits(w) + [false];
  }

  lemma {:induction false} ZeroWordBits(n: nat)
    ensures TopBits(0, n) == Zeros(n)
    decreases n
  {
    if n != 0 {
      assert (0 as bv32) << 1 == 0;
      ZeroWordBits(n - 1);
    }
  }

  lemma {:induction false} WordBitsShl(w: bv32, k: nat)
    requires k <= 32
    ensures WordBits(Shl(w, k)) == WordBits(w)[k..] + Zeros(k)
    decreases k
  {
    if k != 0 {
      WordBitsShiftLeft(w);
      WordBitsShl(w << 1, k - 1);
    }
  }

  function Shr(w: bv32, k: nat): bv32
    decreases k
  {
    if k == 0 then w else Shr(w >> 1, k - 1)
  }

  lemma ShiftsUndone(w: bv32)
    ensures (w >> 1) & TOP == 0
    ensures (w >> 1) << 1 == w ^ (w & 1)
  {
  }

  lemma ZeroOrOne(w: bv32)
    ensures w & 1 == 0 || w & 1 == 1
  {
  }

  /** Of the lowest bit alone, the bits above it are zero. */
  lemma LowBitTops(w: bv32, n: nat)
    requires n <= 31
    ensures TopBits(w & 1, n) == Zeros(n)
  {
    ZeroOrOne(w);
    if w & 1 == 0 {
      ZeroWordBits(n);
    } else {
      OneIsLast();
      HighBitsOfOneHot(1, 31, n);
    }
  }

  lemma LowBitIsLast(w: bv32, c: bv32, v: bv32, n: nat)
    requires c == w ^ v && TopBits(v, n) == Zeros(n)
    ensures TopBits(c, n) == TopBits(w, n)
  {
    TopBitsXor(w, v, n);
    assert Xor(TopBits(w, n), Zeros(n)) == TopBits(w, n);
  }

  lemma TopBitsBelowZero(r: bv32, n: nat, tail: Bits)
    requires r & TOP == 0 && TopBits(r << 1, n) == tail
    ensures TopBits(r, n + 1) == [false] + tail
  {
  }

  /** Only the lowest bit is lost by shifting right and back. */
  lemma TopBitsBack(w: bv32, n: nat)
    requires n <= 31
    ensures TopBits((w >> 1) << 1, n) == TopBits(w, n)
  {
    ShiftsUndone(w);
    LowBitTops(w, n);
    LowBitIsLast(w, (w >> 1) << 1, w & 1, n);
  }

  lemma TopBitsShiftRight(w: bv32, n: nat)
    requires n <= 31
    ensures TopBits(w >> 1, n + 1) == [false] + TopBits(w, n)
  {
    ShiftsUndone(w);
    TopBitsBack(w, n);
    TopBitsBelowZero(w >> 1, n, TopBits(w, n));
  }

  lemma TopBitsPrefix(w: bv32, n: nat, m: nat)
    requires n <= m
    ensures TopBits(w, n) == TopBits(w, m)[..n]
  {
    TopBitsSplit(w, n, m - n);
  }

  lemma WordBitsShiftRight(w: bv32)
    ensures WordBits(w >> 1) == [false] + WordBits(w)[..31]
  {
    TopBitsShiftRight(w, 31);
    TopBitsPrefix(w, 31, 32);
  }

  lemma {:induction false} WordBitsShr(w: bv32, k: nat)
    requires k <= 32
    ensures WordBits(Shr(w, k)) == Zeros(k) + WordBits(w)[..32 - k]
    decreases k
  {
    if k != 0 {
      WordBitsShiftRight(w);
      WordBitsShr(w >> 1, k - 1);
    }
  }

  lemma {:induction false} ShrAdd(w: bv32, k: nat, m: nat)
    ensures Shr(w, k + m) == Shr(Shr(w, k), m)
    decreases k
  {
    if k != 0 { ShrAdd(w >> 1, k - 1, m); }
  }

  lemma ShrByte(w: bv32)
    ensures Shr(w, 8) == w >> 8
  {
    assert Shr(w, 8) == Shr(w >> 1, 7) == Shr(w >> 1 >> 1, 6) == Shr(w >> 1 >> 1 >> 1, 5);
    assert Shr(w >> 3, 5) == Shr(w >> 3 >> 1, 4) == Shr(w >> 3 >> 1 >> 1, 3) == Shr(w >> 6, 2);
    assert Shr(w >> 6, 2) == Shr(w >> 6 >> 1, 1) == w >> 6 >> 1 >> 1;
    assert w >> 1 >> 1 >> 1 == w >> 3 && w >> 3 >> 1 >> 1 >> 1 == w >> 6 && w >> 6 >> 1 >> 1 == w >> 8;
  }

  lemma ShrBytes(w: bv32)
    ensures Shr(w, 8) == w >> 8 && Shr(w, 16) == w >> 16 && Shr(w, 24) == w >> 24
  {
    ShrByte(w);
    ShrAdd(w, 8, 8);
    ShrByte(w >> 8);
    ShrAdd(w, 16, 8);
    ShrByte(w >> 16);
    assert w >> 8 >> 8 == w >> 16 && w >> 16 >> 8 == w >> 24;
  }

  lemma OneIsLast()
    ensures OneHot(1) && Shl(1, 31) == TOP
  {
    ShlBytes(1);
    ShlAdd(1, 24, 7);
    assert Shl(0x0100_0000, 7) == TOP;
  }

  lemma {:induction false} HighBitsOfOneHot(j: bv32, k: nat, n: nat)
    requires OneHot(j) && Shl(j, k) == TOP && n <= k
    ensures TopBits(j, n) == Zeros(n)
    decreases n
  {
    if n != 0 {
      OneHotShift(j);
      if j & TOP != 0 { ShlZero(k - 1); }
      HighBitsOfOneHot(j << 1, k - 1, n - 1);
    }
  }

  // ----- bytes -----

  function TopByteBits(b: bv8, n: nat): (r: Bits)
    ensures |r| == n
    decreases n, b
  {
    if n == 0 then [] else [b & 0x80 != 0] + TopByteBits(b << 1, n - 1)
  }

  function ByteBits(b: bv8): (r: Bits)
    ensures |r| == 8
  {
    TopByteBits(b, 8)
  }

  lemma ByteInWord(b: bv8)
    ensures (b & 0x80 != 0) == (((b as bv32) << 24) & TOP != 0)
    ensures ((b << 1) as bv32) << 24 == ((b as bv32) << 24) << 1
  {
  }

  lemma {:induction false} ByteBitsAreTopBits(b: bv8, n: nat)
    ensures TopByteBits(b, n) == TopBits((b as bv32) << 24, n)
    decreases n
  {
    if n != 0 {
      ByteInWord(b);
      ByteBitsAreTopBits(b << 1, n - 1);
    }
  }

  /** Byte `i` of a word, counted from the least significant. */
  function ByteOf(w: bv32, i: nat): bv8
    requires i < 4
  {
    (Shr(w, 8 * i) & 0xFF) as bv8
  }

  lemma LowByte(w: bv32)
    ensures ((w & 0xFF) as bv8) as bv32 << 24 == w << 24
  {
  }

  lemma LowByteBits(s: bv32)
    ensures ByteBits((s & 0xFF) as bv8) == WordBits(s)[24..]
  {
    LowByte(s);
    ByteBitsAreTopBits((s & 0xFF) as bv8, 8);
    ShlBytes(s);
    TopBitsSplit(s, 24, 8);
  }

  lemma ShiftedByteBits(w: bv32, s: bv32, k: nat)
    requires s == Shr(w, k) && k <= 24
    ensures ByteBits((s & 0xFF) as bv8) == WordBits(w)[24 - k..32 - k]
  {
    WordBitsShr(w, k);
    LowByteBits(s);
  }

  lemma ByteOfBits(w: bv32, i: nat)
    requires i < 4
    ensures ByteBits(ByteOf(w, i)) == WordBits(w)[24 - 8 * i..32 - 8 * i]
  {
    ShiftedByteBits(w, Shr(w, 8 * i), 8 * i);
  }
}
