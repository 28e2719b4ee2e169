/**
 A cyclic redundancy check on bit sequences, most significant bit first: the shift register, and polynomials
 over the two-element field, where a sequence stands for the polynomial with those coefficients.
 */
module Lfsr {

  type Bits = seq<bool>

  function Zeros(n: nat): Bits {
    seq(n, _ => false)
  }

  function Xor(a: Bits, b: Bits): (r: Bits)
    requires |a| == |b|
    ensures |r| == |a|
    ensures forall i :: 0 <= i < |r| ==> r[i] == (a[i] != b[i])
  {
    seq(|a|, i requires 0 <= i < |a| => a[i] != b[i])
  }

  function Reverse(a: Bits): (r: Bits)
    ensures |r| == |a|
    ensures forall i :: 0 <= i < |r| ==> r[i] == a[|a| - 1 - i]
  {
    seq(|a|, i requires 0 <= i < |a| => a[|a| - 1 - i])
  }

  // ----- the register -----

  /** One clock of the register for the generator x^n + poly: shift out the top bit, and add `poly` if it differs
      from the message bit. */
  function Clock(reg: Bits, poly: Bits, bit: bool): (r: Bits)
    requires 0 < |reg| == |poly|
    ensures |r| == |reg|
  {
    if reg[0] != bit then Xor(reg[1..] + [false], poly) else reg[1..] + [false]
  }

  function Run(reg: Bits, poly: Bits, msg: Bits): (r: Bits)
    requires 0 < |reg| == |poly|
    ensures |r| == |reg|
    decreases |msg|
  {
    if msg == [] then reg else Run(Clock(reg, poly, msg[0]), poly, msg[1..])
  }

  lemma {:induction false} RunAppend(reg: Bits, poly: Bits, a: Bits, b: Bits)
    requires 0 < |reg| == |poly|
    ensures Run(reg, poly, a + b) == Run(Run(reg, poly, a), poly, b)
    decreases |a|
  {
    if a == [] {
      assert a + b == b;
    } else {
      assert (a + b)[1..] == a[1..] + b;
      RunAppend(Clock(reg, poly, a[0]), poly, a[1..], b);
    }
  }

  // ----- division -----

  /** The schoolbook product of q(x) and gen(x), written with |q| + |gen| - 1 coefficients. */
  function Mul(q: Bits, gen: Bits): (r: Bits)
    requires 0 < |gen|
    ensures |r| == |q| + |gen| - 1
  {
    if q == [] then Zeros(|gen| - 1)
    else
      var k := |q| - 1;
      Xor(Mul(q[..k], gen) + [false], if q[k] then Zeros(k) + gen else Zeros(|q| + |gen| - 1))
  }

  /** `r` is what is left of `dividend` after subtracting some multiple of `gen`, and is shorter than `gen`. */
  ghost predicate IsRemainder(dividend: Bits, gen: Bits, r: Bits) {
    && 0 < |gen| && |r| == |gen| - 1 <= |dividend|
    && exists q :: QuotientRemainder(dividend, gen, q, r)
  }

  ghost predicate QuotientRemainder(dividend: Bits, gen: Bits, q: Bits, r: Bits)
    requires 0 < |gen| && |r| == |gen| - 1 <= |dividend|
  {
    |q| == |dividend| - |r| && dividend == Xor(Mul(q, gen), Zeros(|q|) + r)
  }

  /** msg(x) * x^n with the seed added to its first n coefficients. */
  function Seeded(seed: Bits, msg: Bits): (d: Bits)
    ensures |d| == |msg| + |seed|
  {
    Xor(msg + Zeros(|seed|), seed + Zeros(|msg|))
  }

  lemma SeededAt(seed: Bits, msg: Bits, bit: bool, i: nat)
    requires 0 < |seed| && i < |msg| + 1 + |seed|
    ensures Seeded(seed, msg + [bit])[i] == if i < |msg| + |seed| then Seeded(seed, msg)[i] != (i == |msg| && bit) else false
  {
  }

  lemma ClockDividesAt(seed: Bits, msg: Bits, poly: Bits, m: Bits, reg: Bits, bit: bool, i: nat)
    requires 0 < |poly| == |reg| == |seed| && |m| == |msg| + |poly| && i < |msg| + 1 + |poly|
    requires Seeded(seed, msg) == Xor(m, Zeros(|msg|) + reg)
    ensures var k := |msg|;
      Seeded(seed, msg + [bit])[i] ==
        (((m + [false])[i] != (reg[0] != bit && (Zeros(k) + [true] + poly)[i]))
           != (Zeros(k + 1) + Clock(reg, poly, bit))[i])
  {
    var k := |msg|;
    SeededAt(seed, msg, bit, i);
    if i < k + |poly| {
      assert Seeded(seed, msg)[i] == (m[i] != (Zeros(k) + reg)[i]);
    }
  }

  lemma MulSnoc(q: Bits, bit: bool, gen: Bits)
    requires 0 < |gen|
    ensures Mul(q + [bit], gen) == Xor(Mul(q, gen) + [false], if bit then Zeros(|q|) + gen else Zeros(|q| + |gen|))
  {
    assert (q + [bit])[..|q|] == q;
  }

  lemma XorIs(a: Bits, b: Bits, c: Bits)
    requires |a| == |b| == |c| && forall i :: 0 <= i < |a| ==> a[i] == (b[i] != c[i])
    ensures a == Xor(b, c)
  {
  }

  lemma ClockDividesAll(seed: Bits, msg: Bits, poly: Bits, m: Bits, reg: Bits, bit: bool, m': Bits)
    requires 0 < |poly| == |reg| == |seed| && |m| == |msg| + |poly|
    requires Seeded(seed, msg) == Xor(m, Zeros(|msg|) + reg)
    requires m' == Xor(m + [false], if reg[0] != bit then Zeros(|msg|) + ([true] + poly) else Zeros(|msg| + 1 + |poly|))
    ensures Seeded(seed, msg + [bit]) == Xor(m', Zeros(|msg| + 1) + Clock(reg, poly, bit))
  {
    var d, c, k := Seeded(seed, msg + [bit]), Zeros(|msg| + 1) + Clock(reg, poly, bit), |msg|;
    assert Zeros(k) + ([true] + poly) == Zeros(k) + [true] + poly;
    forall i | 0 <= i < |d| ensures d[i] == (m'[i] != c[i]) { ClockDividesAt(seed, msg, poly, m, reg, bit, i); }
    XorIs(d, m', c);
  }

  lemma ClockDivides(seed: Bits, msg: Bits, poly: Bits, q: Bits, reg: Bits, bit: bool)
    requires 0 < |poly| == |reg| == |seed| && |q| == |msg|
    requires QuotientRemainder(Seeded(seed, msg), [true] + poly, q, reg)
    ensures QuotientRemainder(Seeded(seed, msg + [bit]), [true] + poly, q + [reg[0] != bit], Clock(reg, poly, bit))
  {
    var gen, q' := [true] + poly, q + [reg[0] != bit];
    MulSnoc(q, reg[0] != bit, gen);
    ClockDividesAll(seed, msg, poly, Mul(q, gen), reg, bit, Mul(q', gen));
  }

  /** The register holds the remainder of the seeded message by x^n + poly. */
  lemma {:induction false} RunIsRemainder(seed: Bits, poly: Bits, msg: Bits) returns (q: Bits)
    requires 0 < |poly| == |seed|
    ensures |q| == |msg|
    ensures QuotientRemainder(Seeded(seed, msg), [true] + poly, q, Run(seed, poly, msg))
    decreases |msg|
  {
    if msg == [] {
      q := [];
      NothingDivided(seed, poly, msg);
    } else {
      var k := |msg| - 1;
      var reg := Run(seed, poly, msg[..k]);
      q := RunIsRemainder(seed, poly, msg[..k]);
      ClockDivides(seed, msg[..k], poly, q, reg, msg[k]);
      RunLast(seed, poly, msg, k);
      q := q + [reg[0] != msg[k]];
    }
  }

  lemma NothingDivided(seed: Bits, poly: Bits, msg: Bits)
    requires 0 < |poly| == |seed| && msg == []
    ensures QuotientRemainder(Seeded(seed, msg), [true] + poly, [], Run(seed, poly, msg))
  {
    assert Seeded(seed, msg) == seed == Zeros(0) + seed;
    assert Xor(Zeros(|seed|), seed) == seed;
  }

  lemma RunOne(reg: Bits, poly: Bits, bit: bool)
    requires 0 < |reg| == |poly|
    ensures Run(reg, poly, [bit]) == Clock(reg, poly, bit)
  {
    assert [bit][1..] == [];
  }

  lemma AllButLast(msg: Bits, k: nat)
    requires k + 1 == |msg|
    ensures msg == msg[..k] + [msg[k]]
  {
  }

  lemma RunLast(reg: Bits, poly: Bits, msg: Bits, k: nat)
    requires 0 < |reg| == |poly| && k + 1 == |msg|
    ensures msg == msg[..k] + [msg[k]] && Run(reg, poly, msg) == Clock(Run(reg, poly, msg[..k]), poly, msg[k])
  {
    AllButLast(msg, k);
    RunAppend(reg, poly, msg[..k], [msg[k]]);
    RunOne(Run(reg, poly, msg[..k]), poly, msg[k]);
  }

  lemma {:induction false} MulXor(a: Bits, b: Bits, gen: Bits)
    requires |a| == |b| && 0 < |gen|
    ensures Mul(Xor(a, b), gen) == Xor(Mul(a, gen), Mul(b, gen))
    decreases |a|
  {
    if a != [] {
      var k := |a| - 1;
      assert Xor(a, b)[..k] == Xor(a[..k], b[..k]);
      MulXor(a[..k], b[..k], gen);
    }
  }

  /** The last bit of a factor plays no part in the coefficients before it, and shows in the one at its own place. */
  lemma LastFactorBit(q: Bits, gen: Bits, k: nat, m: Bits, m': Bits)
    requires 0 < |gen| && gen[0] && k == |q| - 1 && m == Mul(q, gen) && m' == Mul(q[..k], gen)
    ensures m[..k] == m'[..k]
    ensures m' == Zeros(|m'|) ==> m[k] == q[k] && (!q[k] ==> m == Zeros(|m|))
  {
  }

  lemma ShorterPrefix(m: Bits, k: nat)
    requires k < |m| && m[..k + 1] == Zeros(k + 1)
    ensures m[..k] == Zeros(k) && !m[k]
  {
    assert m[..k + 1][k] == m[k];
    assert m[..k] == m[..k + 1][..k];
  }

  /** A product with no coefficient above the generator's degree is a product with zero. */
  lemma {:induction false} SmallProduct(q: Bits, gen: Bits)
    requires 0 < |gen| && gen[0] && Mul(q, gen)[..|q|] == Zeros(|q|)
    ensures q == Zeros(|q|)
    ensures Mul(q, gen) == Zeros(|q| + |gen| - 1)
    decreases |q|
  {
    if q != [] {
      var k := |q| - 1;
      LastFactorBit(q, gen, k, Mul(q, gen), Mul(q[..k], gen));
      ShorterPrefix(Mul(q, gen), k);
      SmallProduct(q[..k], gen);
      assert q == q[..k] + [q[k]];
    }
  }

  lemma XorSwap(a: Bits, b: Bits, c: Bits, d: Bits)
    requires |a| == |b| == |c| == |d| && Xor(a, b) == Xor(c, d)
    ensures Xor(a, c) == Xor(b, d)
  {
    forall i | 0 <= i < |a| ensures Xor(a, c)[i] == Xor(b, d)[i] {
      assert Xor(a, b)[i] == Xor(c, d)[i];
    }
  }

  lemma XorZero(a: Bits, b: Bits)
    requires |a| == |b|
    ensures Xor(a, b) == Zeros(|a|) <==> a == b
  {
    if Xor(a, b) == Zeros(|a|) {
      forall i | 0 <= i < |a| ensures a[i] == b[i] { assert !Xor(a, b)[i]; }
    }
  }

  /** Quotient and remainder are unique, so a remainder is the remainder. */
  lemma RemainderIsUnique(dividend: Bits, gen: Bits, q: Bits, r: Bits, q': Bits, r': Bits)
    requires 0 < |gen| && gen[0] && |r| == |r'| == |gen| - 1 <= |dividend|
    requires QuotientRemainder(dividend, gen, q, r) && QuotientRemainder(dividend, gen, q', r')
    ensures q == q' && r == r'
  {
    var p, p' := Zeros(|q|) + r, Zeros(|q|) + r';
    XorSwap(Mul(q, gen), p, Mul(q', gen), p');
    MulXor(q, q', gen);
    assert Xor(p, p')[..|q|] == Zeros(|q|);
    SmallProduct(Xor(q, q'), gen);
    XorZero(q, q');
    XorZero(p, p');
    assert r == p[|q|..] && r' == p'[|q|..];
  }

  /** The register holds the one remainder of the seeded message by x^n + poly; from zero, that of msg(x) * x^n. */
  lemma RunIsTheRemainder(seed: Bits, poly: Bits, msg: Bits, r: Bits)
    requires 0 < |poly| == |seed|
    ensures IsRemainder(Seeded(seed, msg), [true] + poly, r) <==> r == Run(seed, poly, msg)
    ensures Seeded(Zeros(|poly|), msg) == msg + Zeros(|poly|)
  {
    var gen, dividend := [true] + poly, Seeded(seed, msg);
    var q := RunIsRemainder(seed, poly, msg);
    if IsRemainder(dividend, gen, r) {
      var q' :| QuotientRemainder(dividend, gen, q', r);
      RemainderIsUnique(dividend, gen, q, Run(seed, poly, msg), q', r);
    }
  }

  // ----- appending the check value -----

  /** A register fed its own bits cancels them one by one. */
  lemma {:induction false} OwnBitsCancel(own: Bits, k: nat, poly: Bits)
    requires 0 < |poly| == |own| + k
    ensures Run(own + Zeros(k), poly, own) == Zeros(|poly|)
    decreases |own|
  {
    if own == [] {
      assert own + Zeros(k) == Zeros(|poly|);
    } else {
      assert (own + Zeros(k))[1..] + [false] == own[1..] + Zeros(k + 1);
      OwnBitsCancel(own[1..], k + 1, poly);
    }
  }

  /** A message followed by its own check bits checks to zero, whatever the seed. */
  lemma CheckedMessageIsZero(reg: Bits, poly: Bits, msg: Bits)
    requires 0 < |reg| == |poly|
    ensures Run(reg, poly, msg + Run(reg, poly, msg)) == Zeros(|poly|)
  {
    var own := Run(reg, poly, msg);
    RunAppend(reg, poly, msg, own);
    assert own + Zeros(0) == own;
    OwnBitsCancel(own, 0, poly);
  }

  // ----- detecting bursts -----

  lemma ClockXor(r: Bits, r': Bits, poly: Bits, b: bool, b': bool)
    requires 0 < |r| == |r'| == |poly|
    ensures Clock(Xor(r, r'), poly, b != b') == Xor(Clock(r, poly, b), Clock(r', poly, b'))
  {
  }

  /** The register is linear in seed and message together. */
  lemma {:induction false} RunXor(r: Bits, r': Bits, poly: Bits, m: Bits, m': Bits)
    requires 0 < |r| == |r'| == |poly| && |m| == |m'|
    ensures Run(Xor(r, r'), poly, Xor(m, m')) == Xor(Run(r, poly, m), Run(r', poly, m'))
    decreases |m|
  {
    if m != [] {
      ClockXor(r, r', poly, m[0], m'[0]);
      assert Xor(m, m')[1..] == Xor(m[1..], m'[1..]);
      RunXor(Clock(r, poly, m[0]), Clock(r', poly, m'[0]), poly, m[1..], m'[1..]);
    }
  }

  lemma ClockZero(reg: Bits, poly: Bits)
    requires 0 < |reg| == |poly| && poly[|poly| - 1]
    ensures Clock(reg, poly, false) == Zeros(|poly|) <==> reg == Zeros(|poly|)
  {
    var r := Clock(reg, poly, false);
    if r == Zeros(|poly|) {
      assert r[|poly| - 1] == reg[0];
      forall i | 1 <= i < |reg| ensures !reg[i] { assert r[i - 1] == reg[i]; }
    }
  }

  /** With an odd generator, zero message bits never bring a register to zero. */
  lemma {:induction false} ZerosKeepZero(reg: Bits, poly: Bits, k: nat)
    requires 0 < |reg| == |poly| && poly[|poly| - 1]
    ensures Run(reg, poly, Zeros(k)) == Zeros(|poly|) <==> reg == Zeros(|poly|)
    decreases k
  {
    if k != 0 {
      assert Zeros(k)[1..] == Zeros(k - 1);
      ClockZero(reg, poly);
      ZerosKeepZero(Clock(reg, poly, false), poly, k - 1);
    }
  }

  /** Message bits added to the register beforehand. */
  function Load(reg: Bits, w: Bits): (r: Bits)
    requires |w| <= |reg|
    ensures |r| == |reg|
  {
    Xor(reg, w + Zeros(|reg| - |w|))
  }

  lemma ClockLoaded(reg: Bits, poly: Bits, w: Bits)
    requires 0 < |w| <= |reg| == |poly|
    ensures Clock(Load(reg, w), poly, false) == Load(Clock(reg, poly, w[0]), w[1..])
  {
  }

  lemma LoadNothing(reg: Bits, w: Bits)
    requires w == []
    ensures Load(reg, w) == reg
  {
  }

  lemma RunZeros(reg: Bits, poly: Bits, k: nat)
    requires 0 < |reg| == |poly| && 0 < k
    ensures Run(reg, poly, Zeros(k)) == Run(Clock(reg, poly, false), poly, Zeros(k - 1))
  {
    assert Zeros(k)[1..] == Zeros(k - 1);
  }

  /** Up to n message bits may be added to the register beforehand, and zeros clocked in instead. */
  lemma {:induction false} Preload(reg: Bits, poly: Bits, w: Bits)
    requires |w| <= |reg| == |poly| && 0 < |poly|
    ensures Run(reg, poly, w) == Run(Load(reg, w), poly, Zeros(|w|))
    decreases |w|
  {
    if w == [] {
      LoadNothing(reg, w);
    } else {
      ClockLoaded(reg, poly, w);
      RunZeros(Load(reg, w), poly, |w|);
      Preload(Clock(reg, poly, w[0]), poly, w[1..]);
    }
  }

  /** A burst of at most n bits, alone in a run of zeros, leaves a zero register only if it is all zeros. */
  lemma LoneBurst(poly: Bits, before: nat, burst: Bits, after: nat)
    requires |burst| <= |poly| && 0 < |poly| && poly[|poly| - 1]
    requires Run(Zeros(|poly|), poly, Zeros(before) + burst + Zeros(after)) == Zeros(|poly|)
    ensures burst == Zeros(|burst|)
  {
    var n := |poly|;
    RunAppend(Zeros(n), poly, Zeros(before) + burst, Zeros(after));
    RunAppend(Zeros(n), poly, Zeros(before), burst);
    ZerosKeepZero(Zeros(n), poly, before);
    ZerosKeepZero(Run(Zeros(n), poly, burst), poly, after);
    AloneBurst(poly, burst);
  }

  lemma AloneBurst(poly: Bits, burst: Bits)
    requires |burst| <= |poly| && 0 < |poly| && poly[|poly| - 1]
    requires Run(Zeros(|poly|), poly, burst) == Zeros(|poly|)
    ensures burst == Zeros(|burst|)
  {
    var n := |poly|;
    LoadZero(n, burst);
    Preload(Zeros(n), poly, burst);
    ZerosKeepZero(Load(Zeros(n), burst), poly, |burst|);
    PaddedZeros(burst, n - |burst|);
  }

  lemma LoadZero(n: nat, w: Bits)
    requires |w| <= n
    ensures Load(Zeros(n), w) == w + Zeros(n - |w|)
  {
  }

  lemma PaddedZeros(a: Bits, k: nat)
    ensures a + Zeros(k) == Zeros(|a| + k) ==> a == Zeros(|a|)
  {
    if a + Zeros(k) == Zeros(|a| + k) {
      forall i | 0 <= i < |a| ensures !a[i] { assert !(a + Zeros(k))[i]; }
    }
  }

  lemma EqualChecks(reg: Bits, poly: Bits, m: Bits, m': Bits)
    requires 0 < |reg| == |poly| && |m| == |m'| && Run(reg, poly, m) == Run(reg, poly, m')
    ensures Run(Zeros(|poly|), poly, Xor(m, m')) == Zeros(|poly|)
  {
    RunXor(reg, reg, poly, m, m');
    XorZero(reg, reg);
    XorZero(Run(reg, poly, m), Run(reg, poly, m'));
  }

  lemma ZeroOutsideWindow(d: Bits, from: nat, to: nat)
    requires from <= to <= |d| && forall i :: 0 <= i < |d| && !(from <= i < to) ==> !d[i]
    ensures d == Zeros(from) + d[from..to] + Zeros(|d| - to)
    ensures d[from..to] == Zeros(to - from) ==> d == Zeros(|d|)
  {
    if d[from..to] == Zeros(to - from) {
      forall i | 0 <= i < |d| ensures !d[i] {
        if from <= i < to { assert !d[from..to][i - from]; }
      }
    }
  }

  /** Two messages that differ, and only inside a window of n bits, never share a check value. */
  lemma BurstIsDetected(reg: Bits, poly: Bits, m: Bits, m': Bits, from: nat, to: nat)
    requires 0 < |reg| == |poly| && poly[|poly| - 1]
    requires |m| == |m'| && from <= to <= |m| && to - from <= |poly|
    requires forall i :: 0 <= i < |m| && !(from <= i < to) ==> m[i] == m'[i]
    ensures Run(reg, poly, m) == Run(reg, poly, m') <==> m == m'
  {
    if Run(reg, poly, m) == Run(reg, poly, m') {
      EqualChecks(reg, poly, m, m');
      ZeroOutsideWindow(Xor(m, m'), from, to);
      LoneBurst(poly, from, Xor(m, m')[from..to], |m| - to);
      XorZero(m, m');
    }
  }
}
