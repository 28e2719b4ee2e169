/**
 What the check values of byte messages guarantee, for every size from one to four octets.
 */
module CrcLaws {
  import opened Lfsr
  import opened Words
  import opened Crc

  lemma ZeroLowBits(size: nat)
    requires 1 <= size <= 4
    ensures LowBits(0, size) == Zeros(8 * size)
  {
    ZeroWordBits(32);
  }

  lemma XorZeros(a: Bits, n: nat)
    requires |a| == n
    ensures Xor(a, Zeros(n)) == a
  {
  }

  lemma InOrderTwice(msFirst: bool, out: Bits)
    ensures InOrder(msFirst, InOrder(msFirst, out)) == out
  {
    ReverseTwice(out);
  }

  lemma ResultBitsIff(n: nat, msFirst: bool, w: Bits, top: Bits, low: Bits, reg: Bits, x: Bits)
    requires |reg| == |x| == |low| == n && w == top + low && |top| == 32 - n
    ensures w == Zeros(32 - n) + InOrder(msFirst, Xor(reg, x)) <==>
              top == Zeros(32 - n) && Xor(InOrder(msFirst, low), x) == reg
  {
    var out := Xor(reg, x);
    EqualParts(top, low, Zeros(32 - n), InOrder(msFirst, out));
    InOrderTwice(msFirst, low);
    InOrderTwice(msFirst, out);
    XorMoves(InOrder(msFirst, low), reg, x);
  }

  lemma WordResultIff(size: nat, msFirst: bool, w: Bits, low: Bits, reg: Bits, x: Bits, out: Bits)
    requires 1 <= size <= 4 && |w| == 32 && low == w[32 - 8 * size..] && |reg| == |x| == 8 * size
    requires out == Zeros(32 - 8 * size) + InOrder(msFirst, Xor(reg, x))
    ensures w == out <==> w[..32 - 8 * size] == Zeros(32 - 8 * size) && Xor(InOrder(msFirst, low), x) == reg
  {
    assert w == w[..32 - 8 * size] + low;
    ResultBitsIff(8 * size, msFirst, w, w[..32 - 8 * size], low, reg, x);
  }

  /** A word is the result exactly if its bits above the check value are zero, and the others are, in order and with
      `xorOut` added, the register. */
  lemma ResultIff(cfg: CrcConfig, bytes: seq<bv8>, r: bv32)
    requires 1 <= cfg.size <= 4
    ensures WordBits(r) == CrcBits(cfg, bytes) <==>
              && WordBits(r)[..32 - 8 * cfg.size] == Zeros(32 - 8 * cfg.size)
              && Xor(InOrder(cfg.msFirst, LowBits(r, cfg.size)), LowBits(cfg.xorOut, cfg.size)) == Register(cfg, bytes)
  {
    WordResultIff(cfg.size, cfg.msFirst, WordBits(r), LowBits(r, cfg.size), Register(cfg, bytes),
                  LowBits(cfg.xorOut, cfg.size), CrcBits(cfg, bytes));
  }

  lemma EqualParts(a: Bits, b: Bits, a': Bits, b': Bits)
    requires |a| == |a'|
    ensures a + b == a' + b' <==> a == a' && b == b'
  {
    if a + b == a' + b' { SplitEqual(a, b, a', b'); }
  }

  lemma XorMoves(a: Bits, b: Bits, x: Bits)
    requires |a| == |b| == |x|
    ensures a == Xor(b, x) <==> Xor(a, x) == b
  {
    if Xor(a, x) == b { assert a == Xor(b, x); }
    if a == Xor(b, x) { assert Xor(a, x) == b; }
  }

  /** For every configuration: the result, in order and with `xorOut` added, is the remainder of the seeded message by
      x^n + poly, under zero bits; and nothing else is the result. */
  lemma CrcIsTheRemainder(cfg: CrcConfig, bytes: seq<bv8>, r: bv32)
    requires 1 <= cfg.size <= 4
    ensures WordBits(r) == CrcBits(cfg, bytes) <==>
              && WordBits(r)[..32 - 8 * cfg.size] == Zeros(32 - 8 * cfg.size)
              && IsRemainder(Seeded(LowBits(cfg.seed, cfg.size), MsgBits(cfg.refIn, bytes)),
                             [true] + LowBits(cfg.poly, cfg.size),
                             Xor(if cfg.msFirst then LowBits(r, cfg.size) else Reverse(LowBits(r, cfg.size)),
                                 LowBits(cfg.xorOut, cfg.size)))
  {
    ResultIff(cfg, bytes, r);
    RunIsTheRemainder(LowBits(cfg.seed, cfg.size), LowBits(cfg.poly, cfg.size), MsgBits(cfg.refIn, bytes),
                      Xor(InOrder(cfg.msFirst, LowBits(r, cfg.size)), LowBits(cfg.xorOut, cfg.size)));
  }

  lemma PlainBits(cfg: CrcConfig, bytes: seq<bv8>)
    requires 1 <= cfg.size <= 4
    ensures CrcBits(cfg.(xorOut := 0), bytes) == Zeros(32 - 8 * cfg.size) + InOrder(cfg.msFirst, Register(cfg, bytes))
  {
    ZeroLowBits(cfg.size);
    XorZeros(Register(cfg, bytes), 8 * cfg.size);
  }

  /** What `xorOut` does to the result: its low bits are added to it, in reverse for LS byte first. */
  lemma XorOutIsAdded(cfg: CrcConfig, bytes: seq<bv8>, r: bv32, r0: bv32)
    requires 1 <= cfg.size <= 4
    requires WordBits(r) == CrcBits(cfg, bytes) && WordBits(r0) == CrcBits(cfg.(xorOut := 0), bytes)
    ensures WordBits(r ^ r0) == Zeros(32 - 8 * cfg.size) +
              if cfg.msFirst then LowBits(cfg.xorOut, cfg.size) else Reverse(LowBits(cfg.xorOut, cfg.size))
  {
    WordBitsXor(r, r0);
    PlainBits(cfg, bytes);
    DifferenceIsXorOut(32 - 8 * cfg.size, cfg.msFirst, Register(cfg, bytes), LowBits(cfg.xorOut, cfg.size),
                       WordBits(r), WordBits(r0));
  }

  lemma DifferenceIsXorOut(k: nat, msFirst: bool, reg: Bits, x: Bits, w: Bits, w0: Bits)
    requires |reg| == |x| && w == Zeros(k) + InOrder(msFirst, Xor(reg, x))
    requires w0 == Zeros(k) + InOrder(msFirst, reg)
    ensures Xor(w, w0) == Zeros(k) + InOrder(msFirst, x)
  {
    InOrderXor(msFirst, reg, x);
    XorBehindZeros(k, InOrder(msFirst, Xor(reg, x)), InOrder(msFirst, reg));
  }

  lemma InOrderXor(msFirst: bool, reg: Bits, x: Bits)
    requires |reg| == |x|
    ensures Xor(InOrder(msFirst, Xor(reg, x)), InOrder(msFirst, reg)) == InOrder(msFirst, x)
  {
  }

  lemma XorBehindZeros(k: nat, a: Bits, b: Bits)
    requires |a| == |b|
    ensures Xor(Zeros(k) + a, Zeros(k) + b) == Zeros(k) + Xor(a, b)
  {
  }

  // ----- splitting a message -----

  lemma MsgBitsConcatOne(refIn: bool, a: seq<bv8>, b: seq<bv8>, x: bv8)
    requires MsgBits(refIn, a + b) == MsgBits(refIn, a) + MsgBits(refIn, b)
    ensures MsgBits(refIn, a + b + [x]) == MsgBits(refIn, a) + MsgBits(refIn, b + [x])
  {
    MsgBitsAppend(refIn, a + b, x);
    MsgBitsAppend(refIn, b, x);
    Regroup(MsgBits(refIn, a), MsgBits(refIn, b), InputBits(refIn, x));
  }

  lemma Regroup<T>(a: seq<T>, b: seq<T>, c: seq<T>)
    ensures (a + b) + c == a + (b + c)
  {
  }

  lemma {:induction false} MsgBitsConcat(refIn: bool, a: seq<bv8>, b: seq<bv8>)
    ensures MsgBits(refIn, a + b) == MsgBits(refIn, a) + MsgBits(refIn, b)
    decreases |b|
  {
    if b == [] {
      EmptyEnd(a, b);
    } else {
      var k := |b| - 1;
      LastEnd(a, b);
      MsgBitsConcat(refIn, a, b[..k]);
      MsgBitsConcatOne(refIn, a, b[..k], b[k]);
    }
  }

  lemma EmptyEnd<T>(a: seq<T>, b: seq<T>)
    requires b == []
    ensures a + b == a
  {
  }

  lemma LastEnd<T>(a: seq<T>, b: seq<T>)
    requires b != []
    ensures b == b[..|b| - 1] + [b[|b| - 1]] && a + b == a + b[..|b| - 1] + [b[|b| - 1]]
  {
  }

  lemma RegisterSplits(cfg: CrcConfig, next: CrcConfig, a: seq<bv8>, b: seq<bv8>)
    requires 1 <= cfg.size <= 4 && next.size == cfg.size && next.poly == cfg.poly && next.refIn == cfg.refIn
    requires LowBits(next.seed, cfg.size) == Register(cfg, a)
    ensures Register(cfg, a + b) == Register(next, b)
  {
    MsgBitsConcat(cfg.refIn, a, b);
    RunAppend(LowBits(cfg.seed, cfg.size), LowBits(cfg.poly, cfg.size),
              MsgBits(cfg.refIn, a), MsgBits(cfg.refIn, b));
  }

  /** The check value of a ++ b is that of b, seeded with that of a in order and with `xorOut` added. */
  lemma CrcSplits(cfg: CrcConfig, a: seq<bv8>, b: seq<bv8>, r: bv32, seed: bv32)
    requires 1 <= cfg.size <= 4 && WordBits(r) == CrcBits(cfg, a)
    requires LowBits(seed, cfg.size) ==
               Xor(if cfg.msFirst then LowBits(r, cfg.size) else Reverse(LowBits(r, cfg.size)), LowBits(cfg.xorOut, cfg.size))
    ensures CrcBits(cfg, a + b) == CrcBits(cfg.(seed := seed), b)
  {
    ResultIff(cfg, a, r);
    RegisterSplits(cfg, cfg.(seed := seed), a, b);
    SameRegister(cfg, seed, a + b, b);
  }

  lemma SameRegister(cfg: CrcConfig, seed: bv32, m: seq<bv8>, b: seq<bv8>)
    requires 1 <= cfg.size <= 4 && Register(cfg, m) == Register(cfg.(seed := seed), b)
    ensures CrcBits(cfg, m) == CrcBits(cfg.(seed := seed), b)
  {
  }

  // ----- a message followed by its check value -----

  /** The `k` low bytes of a word, most or least significant first. */
  function LowBytes(w: bv32, msFirst: bool, k: nat): (r: seq<bv8>)
    requires k <= 4
    ensures |r| == k
  {
    seq(k, i requires 0 <= i < k => ByteOf(w, if msFirst then k - 1 - i else i))
  }

  /** The processed bits of a message, byte by byte. */
  ghost predicate Spells(refIn: bool, bytes: seq<bv8>, bits: Bits) {
    |bits| == 8 * |bytes| && forall i :: 0 <= i < |bytes| ==> SpellsByte(refIn, bytes[i], bits, i)
  }

  predicate SpellsByte(refIn: bool, b: bv8, bits: Bits, i: nat) {
    8 * i + 8 <= |bits| && bits[8 * i..8 * i + 8] == InputBits(refIn, b)
  }

  lemma SliceOfPrefix(bits: Bits, i: nat, k: nat)
    requires i < k && 8 * k <= |bits|
    ensures bits[..8 * k][8 * i..8 * i + 8] == bits[8 * i..8 * i + 8]
  {
  }

  lemma SpellsPrefix(refIn: bool, bytes: seq<bv8>, bits: Bits, k: nat)
    requires Spells(refIn, bytes, bits) && k == |bytes| - 1
    ensures Spells(refIn, bytes[..k], bits[..8 * k]) && bits == bits[..8 * k] + InputBits(refIn, bytes[k])
  {
    forall i | 0 <= i < k ensures SpellsByte(refIn, bytes[..k][i], bits[..8 * k], i) {
      assert SpellsByte(refIn, bytes[i], bits, i);
      SliceOfPrefix(bits, i, k);
    }
    assert SpellsByte(refIn, bytes[k], bits, k);
    assert bits == bits[..8 * k] + bits[8 * k..8 * k + 8];
  }

  lemma {:induction false} MsgBitsAre(refIn: bool, bytes: seq<bv8>, bits: Bits)
    requires Spells(refIn, bytes, bits)
    ensures MsgBits(refIn, bytes) == bits
    decreases |bytes|
  {
    if bytes != [] {
      SpellsPrefix(refIn, bytes, bits, |bytes| - 1);
      MsgBitsAre(refIn, bytes[..|bytes| - 1], bits[..8 * (|bytes| - 1)]);
    }
  }

  lemma SliceOfRest(w: Bits, a: nat, i: nat, j: nat)
    requires i <= j && a + j <= |w|
    ensures w[a..][i..j] == w[a + i..a + j]
  {
  }

  lemma SliceOfReverse(w: Bits, i: nat, j: nat)
    requires i <= j <= |w|
    ensures Reverse(w)[i..j] == Reverse(w[|w| - j..|w| - i])
  {
  }

  lemma SliceOfSlice(w: Bits, k: nat, i: nat)
    requires |w| == 32 && i < k <= 4
    ensures w[32 - 8 * k..][8 * i..8 * i + 8] == w[24 - 8 * (k - 1 - i)..32 - 8 * (k - 1 - i)]
    ensures Reverse(w[32 - 8 * k..])[8 * i..8 * i + 8] == Reverse(w[24 - 8 * i..32 - 8 * i])
  {
    SliceOfRest(w, 32 - 8 * k, 8 * i, 8 * i + 8);
    SliceOfReverse(w[32 - 8 * k..], 8 * i, 8 * i + 8);
    SliceOfRest(w, 32 - 8 * k, 8 * k - 8 * i - 8, 8 * k - 8 * i);
  }

  lemma LowByteSpelled(w: bv32, k: nat, i: nat)
    requires i < k <= 4
    ensures SpellsByte(false, ByteOf(w, k - 1 - i), WordBits(w)[32 - 8 * k..], i)
    ensures SpellsByte(true, ByteOf(w, i), Reverse(WordBits(w)[32 - 8 * k..]), i)
  {
    ByteOfBits(w, k - 1 - i);
    ByteOfBits(w, i);
    SliceOfSlice(WordBits(w), k, i);
  }

  lemma LowBytesSpelled(w: bv32, k: nat, big: seq<bv8>, little: seq<bv8>, low: Bits)
    requires k <= 4 && big == LowBytes(w, true, k) && little == LowBytes(w, false, k) && low == WordBits(w)[32 - 8 * k..]
    ensures Spells(false, big, low) && Spells(true, little, Reverse(low))
  {
    forall i | 0 <= i < k ensures SpellsByte(false, big[i], low, i) && SpellsByte(true, little[i], Reverse(low), i) {
      LowByteSpelled(w, k, i);
    }
  }

  /** Big-endian bytes, unreflected, are the word's low bits in order; little-endian bytes, each reflected, are those
      bits in reverse. */
  lemma LowBytesBits(w: bv32, k: nat)
    requires k <= 4
    ensures MsgBits(false, LowBytes(w, true, k)) == WordBits(w)[32 - 8 * k..]
    ensures MsgBits(true, LowBytes(w, false, k)) == Reverse(WordBits(w)[32 - 8 * k..])
  {
    var big, little, low := LowBytes(w, true, k), LowBytes(w, false, k), WordBits(w)[32 - 8 * k..];
    LowBytesSpelled(w, k, big, little, low);
    MsgBitsAre(false, big, low);
    MsgBitsAre(true, little, Reverse(low));
  }

  lemma ReverseTwice(a: Bits)
    ensures Reverse(Reverse(a)) == a
  {
  }

  lemma AppendedBits(size: nat, refIn: bool, msFirst: bool, r: bv32, reg: Bits)
    requires 1 <= size <= 4 && |reg| == 8 * size && msFirst == !refIn
    requires LowBits(r, size) == if msFirst then reg else Reverse(reg)
    ensures MsgBits(refIn, LowBytes(r, msFirst, size)) == reg
  {
    LowBytesBits(r, size);
    ReverseTwice(reg);
  }

  /** What is left after a message and its check value: the same whatever the message and the seed. */
  function Residue(cfg: CrcConfig): (r: Bits)
    requires 1 <= cfg.size <= 4
    ensures |r| == 32
  {
    var x, n := LowBits(cfg.xorOut, cfg.size), 8 * cfg.size;
    Zeros(32 - n) + InOrder(cfg.msFirst, Xor(Run(Zeros(n), LowBits(cfg.poly, cfg.size), x), x))
  }

  lemma RunZeroMessage(poly: Bits, k: nat)
    requires 0 < |poly|
    ensures Run(Zeros(|poly|), poly, Zeros(k)) == Zeros(|poly|)
    decreases k
  {
    if k != 0 {
      RunZeros(Zeros(|poly|), poly, k);
      assert Clock(Zeros(|poly|), poly, false) == Zeros(|poly|);
      RunZeroMessage(poly, k - 1);
    }
  }

  lemma ZeroOutput(n: nat)
    requires n <= 32
    ensures Reverse(Zeros(n)) == Zeros(n) && Zeros(32 - n) + Zeros(n) == Zeros(32)
  {
  }

  /** Without `xorOut` nothing is left. */
  lemma PlainResidueIsZero(cfg: CrcConfig)
    requires 1 <= cfg.size <= 4 && cfg.xorOut == 0
    ensures Residue(cfg) == WordBits(0)
  {
    var n := 8 * cfg.size;
    ZeroLowBits(cfg.size);
    RunZeroMessage(LowBits(cfg.poly, cfg.size), n);
    XorZeros(Zeros(n), n);
    ZeroOutput(n);
    ZeroWordBits(32);
  }

  /** A register fed itself with `x` added ends as one that is fed `x` from zero. */
  lemma OwnBitsWith(reg: Bits, poly: Bits, x: Bits)
    requires 0 < |reg| == |poly| == |x|
    ensures Run(reg, poly, Xor(reg, x)) == Run(Zeros(|poly|), poly, x)
  {
    assert reg + Zeros(0) == reg;
    OwnBitsCancel(reg, 0, poly);
    RunXor(reg, Zeros(|poly|), poly, reg, x);
    XorZeros(reg, |poly|);
    ZerosXor(Run(Zeros(|poly|), poly, x), |poly|);
  }

  lemma ZerosXor(a: Bits, n: nat)
    requires |a| == n
    ensures Xor(Zeros(n), a) == a
  {
  }

  lemma RegisterOfChecked(cfg: CrcConfig, msg: seq<bv8>, check: seq<bv8>, x: Bits)
    requires 1 <= cfg.size <= 4 && |x| == 8 * cfg.size && MsgBits(cfg.refIn, check) == Xor(Register(cfg, msg), x)
    ensures Register(cfg, msg + check) == Run(Zeros(8 * cfg.size), LowBits(cfg.poly, cfg.size), x)
  {
    MsgBitsConcat(cfg.refIn, msg, check);
    RunAppend(LowBits(cfg.seed, cfg.size), LowBits(cfg.poly, cfg.size), MsgBits(cfg.refIn, msg), MsgBits(cfg.refIn, check));
    OwnBitsWith(Register(cfg, msg), LowBits(cfg.poly, cfg.size), x);
  }

  lemma CheckBits(cfg: CrcConfig, msg: seq<bv8>, r: bv32)
    requires 1 <= cfg.size <= 4 && cfg.msFirst == !cfg.refIn && WordBits(r) == CrcBits(cfg, msg)
    ensures MsgBits(cfg.refIn, LowBytes(r, cfg.msFirst, cfg.size)) == Xor(Register(cfg, msg), LowBits(cfg.xorOut, cfg.size))
  {
    var out := InOrder(cfg.msFirst, LowBits(r, cfg.size));
    ResultIff(cfg, msg, r);
    XorMoves(out, Register(cfg, msg), LowBits(cfg.xorOut, cfg.size));
    ReverseTwice(LowBits(r, cfg.size));
    AppendedBits(cfg.size, cfg.refIn, cfg.msFirst, r, out);
  }

  /** Whatever the message and the seed, a message followed by its own check value leaves the residue, which is zero
      without `xorOut`: big-endian bytes for unreflected MS-first, little-endian bytes for reflected LS-first. */
  lemma CheckedMessage(cfg: CrcConfig, msg: seq<bv8>, r: bv32, check: seq<bv8>)
    requires 1 <= cfg.size <= 4 && cfg.msFirst == !cfg.refIn && WordBits(r) == CrcBits(cfg, msg)
    requires check == LowBytes(r, cfg.msFirst, cfg.size)
    ensures CrcBits(cfg, msg + check) == Residue(cfg)
    ensures cfg.xorOut == 0 ==> CrcBits(cfg, msg + check) == WordBits(0)
  {
    CheckBits(cfg, msg, r);
    RegisterOfChecked(cfg, msg, check, LowBits(cfg.xorOut, cfg.size));
    if cfg.xorOut == 0 { PlainResidueIsZero(cfg); }
  }

  // ----- burst errors -----

  lemma OddPoly(poly: bv32, size: nat)
    requires 1 <= size <= 4 && poly & 1 != 0
    ensures LowBits(poly, size)[8 * size - 1]
  {
    OneIsLast();
    BitAt(poly, 1, 31);
  }

  lemma OutputIsInjective(cfg: CrcConfig, m: seq<bv8>, m': seq<bv8>)
    requires 1 <= cfg.size <= 4 && CrcBits(cfg, m) == CrcBits(cfg, m')
    ensures Register(cfg, m) == Register(cfg, m')
  {
    var x, n := LowBits(cfg.xorOut, cfg.size), 8 * cfg.size;
    var out, out' := Xor(Register(cfg, m), x), Xor(Register(cfg, m'), x);
    assert CrcBits(cfg, m)[32 - n..] == if cfg.msFirst then out else Reverse(out);
    assert CrcBits(cfg, m')[32 - n..] == if cfg.msFirst then out' else Reverse(out');
    ReverseTwice(out);
    ReverseTwice(out');
    XorSwap(Register(cfg, m), x, Register(cfg, m'), x);
    XorZero(x, x);
    XorZero(Register(cfg, m), Register(cfg, m'));
  }

  lemma ByteBitsInjective(a: bv8, b: bv8)
    requires ByteBits(a) == ByteBits(b)
    ensures a == b
  {
    ByteBitsAre(a);
    ByteBitsAre(b);
    SameTests(a, b);
  }

  lemma SameTests(a: bv8, b: bv8)
    requires [a & 0x80 != 0, a & 0x40 != 0, a & 0x20 != 0, a & 0x10 != 0, a & 8 != 0, a & 4 != 0, a & 2 != 0, a & 1 != 0]
          == [b & 0x80 != 0, b & 0x40 != 0, b & 0x20 != 0, b & 0x10 != 0, b & 8 != 0, b & 4 != 0, b & 2 != 0, b & 1 != 0]
    ensures a == b
  {
    var x := [a & 0x80 != 0, a & 0x40 != 0, a & 0x20 != 0, a & 0x10 != 0, a & 8 != 0, a & 4 != 0, a & 2 != 0, a & 1 != 0];
    assert x[0] == (b & 0x80 != 0) && x[1] == (b & 0x40 != 0) && x[2] == (b & 0x20 != 0) && x[3] == (b & 0x10 != 0);
    assert x[4] == (b & 8 != 0) && x[5] == (b & 4 != 0) && x[6] == (b & 2 != 0) && x[7] == (b & 1 != 0);
  }

  lemma InputBitsInjective(refIn: bool, a: bv8, b: bv8)
    requires InputBits(refIn, a) == InputBits(refIn, b)
    ensures a == b
  {
    ReverseTwice(ByteBits(a));
    ReverseTwice(ByteBits(b));
    ByteBitsInjective(a, b);
  }

  lemma SplitEqual(a: Bits, b: Bits, a': Bits, b': Bits)
    requires |a| == |a'| && a + b == a' + b'
    ensures a == a' && b == b'
  {
    assert a == (a + b)[..|a|] && b == (a + b)[|a|..];
    assert a' == (a' + b')[..|a'|] && b' == (a' + b')[|a'|..];
  }

  lemma LastPart<T>(a: seq<T>, b: seq<T>)
    requires |a| == |b| && a != [] && a[..|a| - 1] == b[..|b| - 1] && a[|a| - 1] == b[|b| - 1]
    ensures a == b
  {
    assert a == a[..|a| - 1] + [a[|a| - 1]];
    assert b == b[..|b| - 1] + [b[|b| - 1]];
  }

  lemma {:induction false} MsgBitsInjective(refIn: bool, m: seq<bv8>, m': seq<bv8>)
    requires |m| == |m'| && MsgBits(refIn, m) == MsgBits(refIn, m')
    ensures m == m'
    decreases |m|
  {
    if m != [] {
      var k := |m| - 1;
      SplitEqual(MsgBits(refIn, m[..k]), InputBits(refIn, m[k]), MsgBits(refIn, m'[..k]), InputBits(refIn, m'[k]));
      MsgBitsInjective(refIn, m[..k], m'[..k]);
      InputBitsInjective(refIn, m[k], m'[k]);
      LastPart(m, m');
    }
  }

  /** With an odd polynomial, messages of equal length whose processed bits differ only inside a window of n bits
      have equal check values exactly when they are equal, whatever seed, xor and output order. */
  lemma BurstChangesCrc(cfg: CrcConfig, m: seq<bv8>, m': seq<bv8>, from: nat, to: nat)
    requires 1 <= cfg.size <= 4 && cfg.poly & 1 != 0 && |m| == |m'|
    requires from <= to <= 8 * |m| && to - from <= 8 * cfg.size
    requires forall i :: 0 <= i < 8 * |m| && !(from <= i < to) ==>
               MsgBits(cfg.refIn, m)[i] == MsgBits(cfg.refIn, m')[i]
    ensures CrcBits(cfg, m) == CrcBits(cfg, m') <==> m == m'
  {
    if CrcBits(cfg, m) == CrcBits(cfg, m') {
      OutputIsInjective(cfg, m, m');
      OddPoly(cfg.poly, cfg.size);
      BurstIsDetected(LowBits(cfg.seed, cfg.size), LowBits(cfg.poly, cfg.size),
                      MsgBits(cfg.refIn, m), MsgBits(cfg.refIn, m'), from, to);
      MsgBitsInjective(cfg.refIn, m, m');
    }
  }
}
