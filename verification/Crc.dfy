/**
 The software CRC adapter: a left-aligned 32-bit shift register clocked bit by bit, proved against the register
 of `Lfsr`, and what follows for the check values of byte messages.
 */
module Crc {
  import opened Lfsr
  import opened Words

  /** The configuration fields the computation reads; `size` is in octets. */
  datatype CrcConfig = CrcConfig(refIn: bool, msFirst: bool, seed: bv32, poly: bv32, xorOut: bv32,
                                 size: nat, startByte: nat)

  // ----- the register of 8 * size bits inside a 32-bit word -----

  /** A configured value shifted up against the top of the word. */
  function Aligned(w: bv32, size: nat): bv32
    requires 1 <= size <= 4
  {
    match size case 1 => w << 24 case 2 => w << 16 case 3 => w << 8 case _ => w
  }

  /** The lowest bit of the aligned register. */
  function LowestBit(size: nat): bv32
    requires 1 <= size <= 4
  {
    match size case 1 => 0x100_0000 case 2 => 0x1_0000 case 3 => 0x100 case _ => 1
  }

  function LowBits(w: bv32, size: nat): (r: Bits)
    requires 1 <= size <= 4
    ensures |r| == 8 * size
  {
    WordBits(w)[32 - 8 * size..]
  }

  /** The word's top bits are the register, and the rest are zero. */
  ghost predicate Holds(w: bv32, size: nat, reg: Bits)
    requires 1 <= size <= 4
  {
    |reg| == 8 * size && WordBits(w) == reg + Zeros(32 - 8 * size)
  }

  lemma AlignedIsShl(w: bv32, size: nat)
    requires 1 <= size <= 4
    ensures Aligned(w, size) == Shl(w, 32 - 8 * size)
  {
    ShlBytes(w);
    assert Shl(w, 0) == w;
  }

  lemma AlignedHolds(w: bv32, size: nat)
    requires 1 <= size <= 4
    ensures Holds(Aligned(w, size), size, LowBits(w, size))
  {
    AlignedIsShl(w, size);
    WordBitsShl(w, 32 - 8 * size);
  }

  lemma LowestBitIsLast(size: nat)
    requires 1 <= size <= 4
    ensures OneHot(LowestBit(size)) && Shl(LowestBit(size), 8 * size - 1) == TOP
  {
    OneIsLast();
    ShlBytes(1);
    ShlAdd(1, 8, 23);
    ShlAdd(1, 16, 15);
    ShlAdd(1, 24, 7);
  }

  lemma LowestBitTest(w: bv32, size: nat, reg: Bits, low: bv32)
    requires 1 <= size <= 4 && Holds(w, size, reg) && OneHot(low) && Shl(low, 8 * size - 1) == TOP
    ensures (w & low != 0) == reg[8 * size - 1]
  {
    BitAt(w, low, 8 * size - 1);
  }

  lemma SetOrClear(w: bv32, low: bv32)
    requires OneHot(low)
    ensures w & low != 0 ==> w | low == w
    ensures w & low == 0 ==> w & !low == w
  {
  }

  /** The word after the shift and the conditional addition of the generator. */
  function ShiftAdd(w: bv32, poly: bv32, add: bool): bv32 {
    if add then (w << 1) ^ poly else w << 1
  }

  /** Clocking a register above `z` is shifting the whole, and adding the generator above zeros. */
  lemma ClockAbove(reg: Bits, p: Bits, bit: bool, k: nat)
    requires 0 < |reg| == |p|
    ensures var up := (reg + Zeros(k))[1..] + [false];
      Clock(reg, p, bit) + Zeros(k) == if bit != reg[0] then Xor(up, p + Zeros(k)) else up
  {
  }

  lemma ShiftAddBits(w: bv32, poly: bv32, add: bool)
    ensures WordBits(ShiftAdd(w, poly, add)) ==
              var up := WordBits(w)[1..] + [false];
              if add then Xor(up, WordBits(poly)) else up
  {
    WordBitsShiftLeft(w);
    if add { WordBitsXor(w << 1, poly); }
  }

  lemma ShiftAddClocks(w: bv32, poly: bv32, size: nat, reg: Bits, p: Bits, bit: bool)
    requires 1 <= size <= 4 && Holds(w, size, reg) && Holds(poly, size, p)
    ensures (w & TOP != 0) == reg[0]
    ensures Holds(ShiftAdd(w, poly, bit != reg[0]), size, Clock(reg, p, bit))
  {
    TopBit(w);
    ShiftAddBits(w, poly, bit != reg[0]);
    ClockAbove(reg, p, bit, 32 - 8 * size);
  }

  lemma ClockLast(reg: Bits, p: Bits, bit: bool)
    requires 0 < |reg| == |p|
    ensures Clock(reg, p, bit)[|p| - 1] == (bit != reg[0] && p[|p| - 1])
  {
  }

  function SetLowest(sum: bv32, poly: bv32, low: bv32, add: bool): bv32 {
    if add && poly & low != 0 then sum | low else sum & !low
  }

  lemma SettingWhatIsSet(sum: bv32, poly: bv32, low: bv32, add: bool)
    requires OneHot(low) && (sum & low != 0) == (add && poly & low != 0)
    ensures SetLowest(sum, poly, low, add) == sum
  {
    SetOrClear(sum, low);
  }

  lemma LowestBitAgrees(sum: bv32, poly: bv32, size: nat, reg: Bits, p: Bits, bit: bool, low: bv32)
    requires 1 <= size <= 4 && |reg| == 8 * size && Holds(poly, size, p) && Holds(sum, size, Clock(reg, p, bit))
    requires OneHot(low) && Shl(low, 8 * size - 1) == TOP
    ensures (sum & low != 0) == (bit != reg[0] && poly & low != 0)
  {
    LowestBitTest(sum, size, Clock(reg, p, bit), low);
    LowestBitTest(poly, size, p, low);
    ClockLast(reg, p, bit);
  }

  /** Setting or clearing the lowest active bit of a word that holds the clocked register changes nothing. */
  lemma LowestBitIsRight(sum: bv32, poly: bv32, size: nat, reg: Bits, p: Bits, bit: bool, low: bv32)
    requires 1 <= size <= 4 && |reg| == 8 * size && Holds(poly, size, p) && Holds(sum, size, Clock(reg, p, bit))
    requires OneHot(low) && Shl(low, 8 * size - 1) == TOP
    ensures SetLowest(sum, poly, low, bit != reg[0]) == sum
  {
    LowestBitAgrees(sum, poly, size, reg, p, bit, low);
    SettingWhatIsSet(sum, poly, low, bit != reg[0]);
  }

  // ----- reflection of an input byte -----

  /** What the reflection loop still makes of `acc` and the `k` low bits of `b`. */
  function ReflectFrom(acc: bv8, b: bv8, k: nat): bv8
    decreases k, b
  {
    if k == 0 then acc else ReflectFrom((acc << 1) | (if b & 1 != 0 then 1 else 0), b >> 1, k - 1)
  }

  lemma ByteTests(b: bv8)
    ensures (b << 1) & 0x80 != 0 <==> b & 0x40 != 0
    ensures (b << 1 << 1) & 0x80 != 0 <==> b & 0x20 != 0
    ensures (b << 1 << 1 << 1) & 0x80 != 0 <==> b & 0x10 != 0
    ensures (b << 1 << 1 << 1 << 1) & 0x80 != 0 <==> b & 8 != 0
    ensures (b << 1 << 1 << 1 << 1 << 1) & 0x80 != 0 <==> b & 4 != 0
    ensures (b << 1 << 1 << 1 << 1 << 1 << 1) & 0x80 != 0 <==> b & 2 != 0
    ensures (b << 1 << 1 << 1 << 1 << 1 << 1 << 1) & 0x80 != 0 <==> b & 1 != 0
  {
  }

  lemma TopTwoBits(b: bv8, n: nat)
    requires 2 <= n
    ensures TopByteBits(b, n) == [b & 0x80 != 0, (b << 1) & 0x80 != 0] + TopByteBits(b << 1 << 1, n - 2)
  {
    assert TopByteBits(b, n) == [b & 0x80 != 0] + TopByteBits(b << 1, n - 1);
  }

  lemma TopFourBits(b: bv8, n: nat)
    requires 4 <= n
    ensures TopByteBits(b, n) ==
              [b & 0x80 != 0, (b << 1) & 0x80 != 0, (b << 1 << 1) & 0x80 != 0, (b << 1 << 1 << 1) & 0x80 != 0]
              + TopByteBits(b << 1 << 1 << 1 << 1, n - 4)
  {
    TopTwoBits(b, n);
    TopTwoBits(b << 1 << 1, n - 2);
    FourInFront(b & 0x80 != 0, (b << 1) & 0x80 != 0, (b << 1 << 1) & 0x80 != 0, (b << 1 << 1 << 1) & 0x80 != 0,
                TopByteBits(b << 1 << 1 << 1 << 1, n - 4));
  }

  lemma FourInFront(x: bool, y: bool, z: bool, w: bool, rest: Bits)
    ensures [x, y] + ([z, w] + rest) == [x, y, z, w] + rest
  {
  }

  lemma ByteBitsAre(b: bv8)
    ensures ByteBits(b) == [b & 0x80 != 0, b & 0x40 != 0, b & 0x20 != 0, b & 0x10 != 0,
                            b & 8 != 0, b & 4 != 0, b & 2 != 0, b & 1 != 0]
  {
    ByteTests(b);
    TopFourBits(b, 8);
    TopFourBits(b << 1 << 1 << 1 << 1, 4);
  }

  lemma ReflectShiftsIn(acc: bv8, b: bv8, next: bv8)
    requires next == (acc << 1) | (if b & 1 != 0 then 1 else 0)
    ensures ByteBits(next) == ByteBits(acc)[1..] + [b & 1 != 0]
  {
    ByteBitsAre(acc);
    ByteBitsAre(next);
  }

  lemma ByteShiftRight(b: bv8)
    ensures ByteBits(b >> 1) == [false] + ByteBits(b)[..7]
    ensures ByteBits(b)[7] == (b & 1 != 0)
  {
    ByteBitsAre(b);
    ByteBitsAre(b >> 1);
  }

  lemma ReflectStep(acc: Bits, next: Bits, b: Bits, rest: Bits, k: nat)
    requires |acc| == |next| == |b| == |rest| == 8 && 1 <= k <= 8
    requires next == acc[1..] + [b[7]] && rest == [false] + b[..7]
    ensures next[k - 1..] + Reverse(rest[9 - k..]) == acc[k..] + Reverse(b[8 - k..])
  {
  }

  /** The loop moves the low bits of `b`, lowest first, in behind `acc`. */
  lemma {:induction false} ReflectFromBits(acc: bv8, b: bv8, k: nat)
    requires k <= 8
    ensures ByteBits(ReflectFrom(acc, b, k)) == ByteBits(acc)[k..] + Reverse(ByteBits(b)[8 - k..])
    decreases k
  {
    if k == 0 {
      assert ByteBits(b)[8..] == [];
    } else {
      var next := (acc << 1) | (if b & 1 != 0 then 1 else 0);
      ReflectFromBits(next, b >> 1, k - 1);
      ReflectShiftsIn(acc, b, next);
      ByteShiftRight(b);
      ReflectStep(ByteBits(acc), ByteBits(next), ByteBits(b), ByteBits(b >> 1), k);
    }
  }

  // ----- reflection of the result word -----

  /** What the output loop still makes of `acc` and the bits of `w` from the one bit in `j` up. */
  function ReverseFrom(acc: bv32, w: bv32, j: bv32, k: nat): bv32
    decreases k, w
  {
    if k == 0 then acc else ReverseFrom((acc << 1) | (if w & j != 0 then 1 else 0), w, j << 1, k - 1)
  }

  lemma OrIsXor(c: bv32, bit: bool)
    ensures (c << 1) | (if bit then 1 else 0) == (c << 1) ^ (if bit then 1 else 0)
  {
  }

  lemma BitWord(bit: bool)
    ensures WordBits(if bit then 1 else 0) == Zeros(31) + [bit]
  {
    if bit {
      OneIsLast();
      HighBitsOfOneHot(1, 31, 31);
      TopBitsSplit(1, 31, 1);
      BitAt(1, 1, 31);
    } else {
      ZeroWordBits(32);
    }
  }

  lemma XorLast(a: Bits, bit: bool)
    ensures Xor(a + [false], Zeros(|a|) + [bit]) == a + [bit]
  {
  }

  lemma ShiftInXor(c: bv32, one: bv32, bit: bool)
    requires WordBits(one) == Zeros(31) + [bit]
    ensures WordBits((c << 1) ^ one) == WordBits(c)[1..] + [bit]
  {
    WordBitsShiftLeft(c);
    WordBitsXor(c << 1, one);
    XorLast(WordBits(c)[1..], bit);
  }

  lemma ShiftInBits(c: bv32, bit: bool)
    ensures WordBits((c << 1) | (if bit then 1 else 0)) == WordBits(c)[1..] + [bit]
  {
    OrIsXor(c, bit);
    BitWord(bit);
    ShiftInXor(c, if bit then 1 else 0, bit);
  }

  lemma NextBit(w: bv32, j: bv32, k: nat)
    requires 0 < k <= 32 && OneHot(j) && Shl(j, k - 1) == TOP
    ensures (w & j != 0) == WordBits(w)[k - 1]
    ensures 1 < k ==> OneHot(j << 1) && Shl(j << 1, k - 2) == TOP
  {
    BitAt(w, j, k - 1);
    OneHotShift(j);
    if 1 < k && j & TOP != 0 { ShlZero(k - 2); }
  }

  lemma ReverseSnoc(a: Bits, bit: bool)
    ensures Reverse(a + [bit]) == [bit] + Reverse(a)
  {
  }

  lemma ReverseStep(acc: Bits, w: Bits, k: nat)
    requires |acc| == |w| == 32 && 1 <= k <= 32
    ensures (acc[1..] + [w[k - 1]])[k - 1..] + Reverse(w[..k - 1]) == acc[k..] + Reverse(w[..k])
  {
    assert w[..k] == w[..k - 1] + [w[k - 1]];
    ReverseSnoc(w[..k - 1], w[k - 1]);
  }

  /** The loop moves the top `k` bits of `w`, lowest first, in behind `acc`. */
  lemma {:induction false} ReverseFromBits(acc: bv32, w: bv32, j: bv32, k: nat)
    requires k <= 32 && (0 < k ==> OneHot(j) && Shl(j, k - 1) == TOP)
    ensures WordBits(ReverseFrom(acc, w, j, k)) == WordBits(acc)[k..] + Reverse(WordBits(w)[..k])
    decreases k
  {
    if k == 0 {
      assert WordBits(w)[..0] == [];
    } else {
      var next := (acc << 1) | (if w & j != 0 then 1 else 0);
      NextBit(w, j, k);
      ReverseFromBits(next, w, j << 1, k - 1);
      ShiftInBits(acc, w & j != 0);
      ReverseStep(WordBits(acc), WordBits(w), k);
    }
  }

  // ----- what is computed -----

  /** A byte's bits in the order they are processed. */
  function InputBits(refIn: bool, b: bv8): Bits {
    if refIn then Reverse(ByteBits(b)) else ByteBits(b)
  }

  function MsgBits(refIn: bool, bytes: seq<bv8>): (r: Bits)
    ensures |r| == 8 * |bytes|
    decreases |bytes|
  {
    if bytes == [] then [] else MsgBits(refIn, bytes[..|bytes| - 1]) + InputBits(refIn, bytes[|bytes| - 1])
  }

  /** The bytes the computation covers. */
  function Covered(cfg: CrcConfig, data: seq<bv8>, length: nat): seq<bv8>
    requires length <= |data|
  {
    if cfg.startByte <= length then data[cfg.startByte..length] else []
  }

  /** The register after a message. */
  function Register(cfg: CrcConfig, bytes: seq<bv8>): (r: Bits)
    requires 1 <= cfg.size <= 4
    ensures |r| == 8 * cfg.size
  {
    Run(LowBits(cfg.seed, cfg.size), LowBits(cfg.poly, cfg.size), MsgBits(cfg.refIn, bytes))
  }

  /** From the order of the register to that of the result, and back. */
  function InOrder(msFirst: bool, out: Bits): (r: Bits)
    ensures |r| == |out|
  {
    if msFirst then out else Reverse(out)
  }

  /** The 32 bits of the result: the register with `xorOut` added, low-aligned, reversed for LS byte first. */
  function CrcBits(cfg: CrcConfig, bytes: seq<bv8>): (r: Bits)
    requires 1 <= cfg.size <= 4
    ensures |r| == 32
  {
    Zeros(32 - 8 * cfg.size) + InOrder(cfg.msFirst, Xor(Register(cfg, bytes), LowBits(cfg.xorOut, cfg.size)))
  }

  // ----- the computation -----

  method ReflectByte(byte: bv8) returns (r: bv8)
    ensures ByteBits(r) == Reverse(ByteBits(byte))
  {
    var data := byte;
    r := 0;
    for j := 0 to 8
      invariant ReflectFrom(r, data, 8 - j) == ReflectFrom(0, byte, 8)
    {
      r := (r << 1) | (if data & 1 != 0 then 1 else 0);
      data := data >> 1;
    }
    ReflectFromBits(0, byte, 8);
    assert ByteBits(0)[8..] == [] && ByteBits(byte)[0..] == ByteBits(byte);
  }

  /** One clock: the new bit is the message bit, flipped if the top bit goes out; the word shifts, takes the generator
      if the new bit is set, and has its lowest active bit set or cleared. */
  lemma WordClocks(w: bv32, poly: bv32, size: nat, reg: Bits, p: Bits, msgBit: bool, low: bv32,
                   add: bool, sum: bv32, r: bv32)
    requires 1 <= size <= 4 && Holds(w, size, reg) && Holds(poly, size, p)
    requires OneHot(low) && Shl(low, 8 * size - 1) == TOP
    requires add == (if w & TOP != 0 then !msgBit else msgBit)
    requires sum == ShiftAdd(w, poly, add) && r == SetLowest(sum, poly, low, add)
    ensures Holds(r, size, Clock(reg, p, msgBit))
  {
    ShiftAddClocks(w, poly, size, reg, p, msgBit);
    LowestBitIsRight(sum, poly, size, reg, p, msgBit, low);
  }

  method Shift(w: bv32, poly: bv32, add: bool) returns (r: bv32)
    ensures r == ShiftAdd(w, poly, add)
  {
    r := w << 1;
    if add { r := r ^ poly; }
  }

  method FixLowest(sum: bv32, poly: bv32, low: bv32, add: bool) returns (r: bv32)
    ensures r == SetLowest(sum, poly, low, add)
  {
    if add && poly & low != 0 { r := sum | low; } else { r := sum & !low; }
  }

  method ClockBit(w: bv32, poly: bv32, low: bv32, msgBit: bool, ghost size: nat, ghost reg: Bits, ghost p: Bits)
    returns (r: bv32)
    requires 1 <= size <= 4 && Holds(w, size, reg) && Holds(poly, size, p)
    requires OneHot(low) && Shl(low, 8 * size - 1) == TOP
    ensures Holds(r, size, Clock(reg, p, msgBit))
  {
    var add := msgBit;
    if w & TOP != 0 { add := !add; }
    var sum := Shift(w, poly, add);
    r := FixLowest(sum, poly, low, add);
    WordClocks(w, poly, size, reg, p, msgBit, low, add, sum, r);
  }

  lemma RunByteStep(reg: Bits, p: Bits, data: bv8, k: nat)
    requires 0 < |reg| == |p| && 0 < k
    ensures Run(reg, p, TopByteBits(data, k)) ==
              Run(Clock(reg, p, data & 0x80 != 0), p, TopByteBits(data << 1, k - 1))
  {
    assert TopByteBits(data, k)[1..] == TopByteBits(data << 1, k - 1);
  }

  /** Clocks the eight bits of a byte, top bit first, through the aligned register. */
  method ClockByte(w: bv32, poly: bv32, low: bv32, byte: bv8, ghost size: nat, ghost reg: Bits, ghost p: Bits)
    returns (r: bv32)
    requires 1 <= size <= 4 && Holds(w, size, reg) && Holds(poly, size, p)
    requires OneHot(low) && Shl(low, 8 * size - 1) == TOP
    ensures Holds(r, size, Run(reg, p, ByteBits(byte)))
  {
    r := w;
    var data := byte;
    ghost var now := reg;
    for j := 0 to 8
      invariant |now| == 8 * size && Holds(r, size, now)
      invariant Run(now, p, TopByteBits(data, 8 - j)) == Run(reg, p, ByteBits(byte))
    {
      RunByteStep(now, p, data, 8 - j);
      r := ClockBit(r, poly, low, data & 0x80 != 0, size, now, p);
      now := Clock(now, p, data & 0x80 != 0);
      data := data << 1;
    }
  }

  method ReverseWord(w: bv32) returns (r: bv32)
    ensures WordBits(r) == Reverse(WordBits(w))
  {
    var j: bv32 := 1;
    r := 0;
    for i := 0 to 32
      invariant ReverseFrom(r, w, j, 32 - i) == ReverseFrom(0, w, 1, 32)
    {
      r := (r << 1) | (if w & j != 0 then 1 else 0);
      j := j << 1;
    }
    OneIsLast();
    ReverseFromBits(0, w, 1, 32);
    assert WordBits(0)[32..] == [] && WordBits(w)[..32] == WordBits(w);
  }

  lemma HoldsXor(a: bv32, b: bv32, size: nat, x: Bits, y: Bits)
    requires 1 <= size <= 4 && Holds(a, size, x) && Holds(b, size, y)
    ensures Holds(a ^ b, size, Xor(x, y))
  {
    WordBitsXor(a, b);
    var z := Zeros(32 - 8 * size);
    assert Xor(x + z, y + z) == Xor(x, y) + z;
  }

  /** The aligned register shifted down to the bottom of the word. */
  function Lowered(w: bv32, size: nat): bv32
    requires 1 <= size <= 4
  {
    match size case 1 => w >> 24 case 2 => w >> 16 case 3 => w >> 8 case _ => w
  }

  lemma LoweredIsShr(w: bv32, size: nat)
    requires 1 <= size <= 4
    ensures Lowered(w, size) == Shr(w, 32 - 8 * size)
  {
    ShrBytes(w);
    assert Shr(w, 0) == w;
  }

  method Output(msFirst: bool, size: nat, w: bv32, ghost out: Bits) returns (crc: bv32)
    requires 1 <= size <= 4 && Holds(w, size, out)
    ensures WordBits(crc) == Zeros(32 - 8 * size) + if msFirst then out else Reverse(out)
  {
    if msFirst {
      LoweredIsShr(w, size);
      WordBitsShr(w, 32 - 8 * size);
      crc := Lowered(w, size);
    } else {
      crc := ReverseWord(w);
      assert Reverse(out + Zeros(32 - 8 * size)) == Zeros(32 - 8 * size) + Reverse(out);
    }
  }

  lemma MsgBitsAppend(refIn: bool, bytes: seq<bv8>, b: bv8)
    ensures MsgBits(refIn, bytes + [b]) == MsgBits(refIn, bytes) + InputBits(refIn, b)
  {
    assert (bytes + [b])[..|bytes|] == bytes;
  }

  lemma RunMsgAppend(refIn: bool, bytes: seq<bv8>, b: bv8, seed: Bits, p: Bits)
    requires 0 < |seed| == |p|
    ensures Run(seed, p, MsgBits(refIn, bytes + [b])) == Run(Run(seed, p, MsgBits(refIn, bytes)), p, InputBits(refIn, b))
  {
    MsgBitsAppend(refIn, bytes, b);
    RunAppend(seed, p, MsgBits(refIn, bytes), InputBits(refIn, b));
  }

  method ProcessByte(refIn: bool, b: bv8, w: bv32, poly: bv32, low: bv32,
                     ghost size: nat, ghost reg: Bits, ghost p: Bits) returns (r: bv32)
    requires 1 <= size <= 4 && Holds(w, size, reg) && Holds(poly, size, p)
    requires low == LowestBit(size)
    ensures Holds(r, size, Run(reg, p, InputBits(refIn, b)))
  {
    LowestBitIsLast(size);
    var byte := b;
    if refIn { byte := ReflectByte(byte); }
    r := ClockByte(w, poly, low, byte, size, reg, p);
  }

  lemma PrefixSnoc<T>(s: seq<T>, i: nat)
    requires i < |s|
    ensures s[..i + 1] == s[..i] + [s[i]]
  {
  }

  lemma RunPrefix(refIn: bool, bytes: seq<bv8>, i: nat, seed: Bits, p: Bits, b: bv8)
    requires 0 < |seed| == |p| && i < |bytes| && b == bytes[i]
    ensures Run(seed, p, MsgBits(refIn, bytes[..i + 1])) ==
            Run(Run(seed, p, MsgBits(refIn, bytes[..i])), p, InputBits(refIn, b))
  {
    PrefixSnoc(bytes, i);
    RunMsgAppend(refIn, bytes[..i], bytes[i], seed, p);
  }

  lemma RunNothing(refIn: bool, bytes: seq<bv8>, seed: Bits, p: Bits)
    requires 0 < |seed| == |p|
    ensures Run(seed, p, MsgBits(refIn, bytes[..0])) == seed
  {
  }

  lemma RunWhole(refIn: bool, bytes: seq<bv8>, n: nat, seed: Bits, p: Bits)
    requires 0 < |seed| == |p| && n == |bytes|
    ensures Run(seed, p, MsgBits(refIn, bytes[..n])) == Run(seed, p, MsgBits(refIn, bytes))
  {
    assert bytes[..n] == bytes;
  }

  lemma CoveredLength(cfg: CrcConfig, data: seq<bv8>, length: nat)
    requires length <= |data|
    ensures |Covered(cfg, data, length)| == if cfg.startByte <= length then length - cfg.startByte else 0
  {
  }

  lemma CoveredAt(cfg: CrcConfig, data: seq<bv8>, length: nat, i: nat)
    requires cfg.startByte <= i < length <= |data|
    ensures |Covered(cfg, data, length)| == length - cfg.startByte
    ensures Covered(cfg, data, length)[i - cfg.startByte] == data[i]
  {
  }

  /** The register after the first `k` bytes. */
  ghost predicate Reached(now: Bits, seed: Bits, p: Bits, refIn: bool, bytes: seq<bv8>, k: nat) {
    0 < |seed| == |p| && k <= |bytes| && now == Run(seed, p, MsgBits(refIn, bytes[..k]))
  }

  lemma ReachNext(now: Bits, seed: Bits, p: Bits, refIn: bool, bytes: seq<bv8>, k: nat, b: bv8)
    requires Reached(now, seed, p, refIn, bytes, k) && k < |bytes| && b == bytes[k]
    ensures 0 < |now| == |p| && Reached(Run(now, p, InputBits(refIn, b)), seed, p, refIn, bytes, k + 1)
  {
    RunPrefix(refIn, bytes, k, seed, p, b);
  }

  lemma ReachAll(now: Bits, seed: Bits, p: Bits, refIn: bool, bytes: seq<bv8>, k: nat)
    requires Reached(now, seed, p, refIn, bytes, k) && k == |bytes|
    ensures now == Run(seed, p, MsgBits(refIn, bytes))
  {
    RunWhole(refIn, bytes, k, seed, p);
  }

  /** The next byte of the covered ones. */
  method ProcessNext(refIn: bool, b: bv8, w: bv32, poly: bv32, low: bv32, ghost size: nat, ghost seed: Bits, ghost p: Bits,
                     ghost bytes: seq<bv8>, ghost k: nat, ghost now: Bits) returns (r: bv32, ghost next: Bits)
    requires 1 <= size <= 4 && Holds(w, size, now) && Holds(poly, size, p)
    requires low == LowestBit(size)
    requires Reached(now, seed, p, refIn, bytes, k) && k < |bytes| && b == bytes[k]
    ensures Holds(r, size, next) && Reached(next, seed, p, refIn, bytes, k + 1)
  {
    ReachNext(now, seed, p, refIn, bytes, k, b);
    r := ProcessByte(refIn, b, w, poly, low, size, now, p);
    next := Run(now, p, InputBits(refIn, b));
  }

  /** The adapter's loop over the message. */
  method ProcessBytes(cfg: CrcConfig, data: seq<bv8>, length: nat, w: bv32, poly: bv32, low: bv32,
                      ghost seed: Bits, ghost p: Bits) returns (r: bv32)
    requires 1 <= cfg.size <= 4 && Holds(w, cfg.size, seed) && Holds(poly, cfg.size, p) && length <= |data|
    requires low == LowestBit(cfg.size)
    ensures Holds(r, cfg.size, Run(seed, p, MsgBits(cfg.refIn, Covered(cfg, data, length))))
  {
    r := w;
    ghost var bytes, now := Covered(cfg, data, length), seed;
    CoveredLength(cfg, data, length);
    RunNothing(cfg.refIn, bytes, seed, p);
    var i := cfg.startByte;
    while i < length
      invariant cfg.startByte <= i && i - cfg.startByte <= |bytes|
      invariant Reached(now, seed, p, cfg.refIn, bytes, i - cfg.startByte) && Holds(r, cfg.size, now)
    {
      CoveredAt(cfg, data, length, i);
      r, now := ProcessNext(cfg.refIn, data[i], r, poly, low, cfg.size, seed, p, bytes, i - cfg.startByte, now);
      i := i + 1;
    }
    ReachAll(now, seed, p, cfg.refIn, bytes, i - cfg.startByte);
  }

  /** The adapter's computation; size 0 bypasses it. */
  method CrcCompute(cfg: CrcConfig, data: seq<bv8>, length: nat) returns (crc: bv32)
    requires cfg.size <= 4 && length <= |data|
    ensures cfg.size == 0 ==> crc == 0
    ensures 0 < cfg.size ==>
              WordBits(crc) == CrcBits(cfg, if cfg.startByte <= length then data[cfg.startByte..length] else [])
  {
    if cfg.size == 0 { return 0; }
    var seed, poly := Aligned(cfg.seed, cfg.size), Aligned(cfg.poly, cfg.size);
    var xorOut := Aligned(cfg.xorOut, cfg.size);
    AlignedHolds(cfg.seed, cfg.size);
    AlignedHolds(cfg.poly, cfg.size);
    AlignedHolds(cfg.xorOut, cfg.size);
    var shiftReg := ProcessBytes(cfg, data, length, seed, poly, LowestBit(cfg.size),
                                 LowBits(cfg.seed, cfg.size), LowBits(cfg.poly, cfg.size));
    ghost var reg, x := Register(cfg, Covered(cfg, data, length)), LowBits(cfg.xorOut, cfg.size);
    HoldsXor(shiftReg, xorOut, cfg.size, reg, x);
    crc := Output(cfg.msFirst, cfg.size, shiftReg ^ xorOut, Xor(reg, x));
  }
}
