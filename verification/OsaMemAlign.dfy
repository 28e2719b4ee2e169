/**
 Aligned allocation of the bare-metal OSA on a 32-bit machine: a control block just below the aligned address
 lets the free find the raw block again.
 */
module OsaMemAlign {
  import opened Rings

  const U16 := 0x1_0000
  const U32 := 0x1_0000_0000
  const MAGIC := 12345
  /** sizeof(osa_mem_align_cb_t) */
  const CB_SIZE := 4

  datatype ControlBlock = ControlBlock(identifier: nat, offset: nat)
  datatype Option<T> = None | Some(value: T)

  function Pow2(k: nat): (r: nat)
    ensures 0 < r
    decreases k
  {
    if k == 0 then 1 else 2 * Pow2(k - 1)
  }

  /** The bitwise conjunction of two naturals. */
  function And(x: nat, y: nat): nat
    decreases x
  {
    if x == 0 then 0 else (x % 2) * (y % 2) + 2 * And(x / 2, y / 2)
  }

  /** OSA_MEM_SIZE_ALIGN: a 32-bit sum, which may wrap, masked with the complement of the low bits. */
  function AlignUp(x: nat, a: nat): nat
    requires 0 < a < U32
  {
    And((x + (a - 1)) % U32, U32 - 1 - (a - 1))
  }

  /** The size to ask the raw allocator for, unless one of the two overflow checks fails. */
  function Request(length: nat, a: nat): Option<nat>
    requires 0 < a < U32
  {
    var aligned := AlignUp(length, a);
    if aligned < length then None
    else if aligned > U32 - 1 - a - CB_SIZE then None
    else Some(aligned + (a + CB_SIZE))
  }

  /** The aligned address inside the raw block. */
  function Place(raw: nat, a: nat): nat
    requires 0 < a < U32
  {
    AlignUp(raw + CB_SIZE, a)
  }

  /** The least multiple of `a` that is not below `x`, without a word size. */
  function Ceiling(x: nat, a: nat): (c: nat)
    requires 0 < a
    ensures x <= c < x + a
    decreases x
  {
    if x == 0 then 0 else if x <= a then a else a + Ceiling(x - a, a)
  }

  /** Payload, room to align and control block, without a word size. */
  function Size(length: nat, a: nat): nat
    requires 0 < a
  {
    Ceiling(length, a) + a + CB_SIZE
  }

  predicate PowerOfTwo(a: nat) {
    exists k: nat :: k < 32 && a == Pow2(k)
  }

  // ----- The mask

  lemma HalveMod(x: nat, m: nat)
    requires 0 < m
    ensures x % (2 * m) == 2 * ((x / 2) % m) + x % 2
  {
    var h := x / 2;
    var q := h / m;
    assert x == (2 * m) * q + (2 * (h % m) + x % 2);
    ModUnique(x, 2 * m, q, 2 * (h % m) + x % 2);
  }

  lemma {:induction false} MaskClears(x: nat, k: nat, n: nat)
    requires x < Pow2(n) && k <= n
    ensures Pow2(k) <= Pow2(n) && And(x, Pow2(n) - Pow2(k)) == x - x % Pow2(k)
    decreases n
  {
    if n != 0 {
      MaskClears(x / 2, if k == 0 then 0 else k - 1, n - 1);
      if k == 0 {
        MaskOnes(x, n);
      } else {
        HalveMod(x, Pow2(k - 1));
      }
    }
  }

  lemma OddHalf(m: nat)
    requires 0 < m
    ensures (2 * m - 1) % 2 == 1 && (2 * m - 1) / 2 == m - 1
  {
  }

  lemma {:induction false} MaskOnes(x: nat, n: nat)
    requires x < Pow2(n)
    ensures And(x, Pow2(n) - 1) == x
    decreases n
  {
    if n != 0 && x != 0 {
      OddHalf(Pow2(n - 1));
      MaskOnes(x / 2, n - 1);
    }
  }

  /** The alignments are the powers of two of 32 bits. */
  lemma {:induction false} PowersFit(k: nat, n: nat)
    requires k < n
    ensures 2 * Pow2(k) <= Pow2(n)
    decreases n
  {
    if k < n - 1 { PowersFit(k, n - 1); }
  }

  lemma PowersOfTwo()
    ensures Pow2(15) == 0x8000 && Pow2(16) == U16 && Pow2(31) == U32 / 2 && Pow2(32) == U32
  {
    assert Pow2(8) == 256;
    assert Pow2(15) == 0x8000;
    assert Pow2(16) == U16;
    assert Pow2(24) == 256 * U16;
  }

  lemma {:induction false} CeilingIsMultiple(x: nat, a: nat)
    requires 0 < a
    ensures Ceiling(x, a) % a == 0
    decreases x
  {
    if a < x {
      CeilingIsMultiple(x - a, a);
      AddMod(Ceiling(x - a, a), a);
    } else {
      ModUnique(a, a, 1, 0);
    }
  }

  lemma CeilingMod(x: nat, a: nat)
    requires 0 < a
    ensures Ceiling(x, a) == x + (a - 1) - (x + (a - 1)) % a
  {
    var c := Ceiling(x, a);
    CeilingIsMultiple(x, a);
    ModUnique(x + (a - 1), a, c / a, x + (a - 1) - c);
  }

  lemma AddMod(x: nat, a: nat)
    requires 0 < a
    ensures (x + a) % a == x % a
  {
    ModUnique(x + a, a, x / a + 1, x % a);
  }

  lemma PowerIsSmall(a: nat)
    requires PowerOfTwo(a)
    ensures 0 < a <= U32 / 2
  {
    var k: nat :| k < 32 && a == Pow2(k);
    PowersOfTwo();
    PowersFit(k, 32);
  }

  /** Masking a word with the complement of the low bits. */
  lemma MaskWord(t: nat, a: nat)
    requires t < U32 && PowerOfTwo(a)
    ensures 0 < a <= U32 && And(t, U32 - a) == t - t % a
    ensures t < a ==> And(t, U32 - a) == 0
  {
    var k: nat :| k < 32 && a == Pow2(k);
    PowersOfTwo();
    MaskClears(t, k, 32);
    if t < a { ModUnique(t, a, 0, t); }
  }

  lemma ModWord(s: nat)
    requires s < 2 * U32
    ensures s % U32 == if s < U32 then s else s - U32
  {
    ModUnique(s, U32, if s < U32 then 0 else 1, if s < U32 then s else s - U32);
  }

  lemma AlignUpMasks(x: nat, a: nat, t: nat)
    requires 0 < a < U32 && t == (x + (a - 1)) % U32
    ensures AlignUp(x, a) == And(t, U32 - a)
  {
  }

  /** Rounding up either is exact or, if the sum wraps, gives 0. */
  lemma AlignUpIsCeiling(x: nat, a: nat)
    requires x < U32 && PowerOfTwo(a)
    ensures 0 < a <= U32 / 2
    ensures AlignUp(x, a) == if x + (a - 1) < U32 then Ceiling(x, a) else 0
  {
    PowerIsSmall(a);
    var t := if x + (a - 1) < U32 then x + (a - 1) else x + (a - 1) - U32;
    ModWord(x + (a - 1));
    AlignUpMasks(x, a, t);
    MaskWord(t, a);
    if x + (a - 1) < U32 { CeilingMod(x, a); }
  }

  // ----- The block

  /** A request is refused exactly when the size it needs, computed without bound, does not fit a word. */
  lemma RefusedIffTooBig(length: nat, a: nat)
    requires length < U32 && PowerOfTwo(a)
    ensures 0 < a <= U32 / 2
    ensures Request(length, a) == if Size(length, a) < U32 then Some(Size(length, a)) else None
  {
    AlignUpIsCeiling(length, a);
  }

  /** What the raw allocator promises of the block it returns for a request: it is not at 0 and lies in memory. */
  ghost predicate Admissible(length: nat, a: nat, raw: nat)
    requires 0 < a
  {
    Size(length, a) < U32 && 0 < raw && raw + Size(length, a) <= U32
  }

  /** The control block fits below the aligned address and the rounded-up payload above, all inside the raw block. */
  lemma BlockHolds(length: nat, a: nat, raw: nat)
    requires length < U32 && PowerOfTwo(a) && 0 < a < U32 && Admissible(length, a, raw)
    ensures Place(raw, a) == Ceiling(raw + CB_SIZE, a) && Place(raw, a) % a == 0
    ensures raw + CB_SIZE <= Place(raw, a) < raw + CB_SIZE + a
    ensures length <= Ceiling(length, a)
    ensures Place(raw, a) + Ceiling(length, a) < raw + Size(length, a) <= U32
  {
    RefusedIffTooBig(length, a);
    AlignUpIsCeiling(raw + CB_SIZE, a);
    CeilingIsMultiple(raw + CB_SIZE, a);
  }

  /** Where the truncated offset leads. */
  function Recovered(raw: nat, p: nat): int
    requires raw <= p
  {
    p - (p - raw) % U16
  }

  lemma RecoveredIff(raw: nat, p: nat)
    requires raw <= p
    ensures Recovered(raw, p) == raw <==> p - raw < U16
  {
  }

  ghost predicate AlwaysRecovers(a: nat)
    requires 0 < a < U32
  {
    forall length: nat, raw: nat {:trigger Admissible(length, a, raw)} :: length < U32 && Admissible(length, a, raw) ==>
      raw <= Place(raw, a) && Recovered(raw, Place(raw, a)) == raw
  }

  /** The 16-bit offset leads back to the raw block of every request exactly when the alignment is at most 2^15. */
  lemma RecoversIff(a: nat)
    requires PowerOfTwo(a)
    ensures 0 < a < U32
    ensures AlwaysRecovers(a) <==> a <= 0x8000
  {
    RefusedIffTooBig(0, a);
    if a <= 0x8000 {
      forall length: nat, raw: nat {:trigger Admissible(length, a, raw)} | length < U32 && Admissible(length, a, raw)
        ensures raw <= Place(raw, a) && Recovered(raw, Place(raw, a)) == raw
      {
        BlockHolds(length, a, raw);
        RecoveredIff(raw, Place(raw, a));
      }
    } else {
      LargerThanHalf(a);
      LosesTheBlock(a);
    }
  }

  lemma LargerThanHalf(a: nat)
    requires PowerOfTwo(a) && 0x8000 < a
    ensures U16 <= a
  {
    var k: nat :| k < 32 && a == Pow2(k);
    PowersOfTwo();
    if k < 16 { PowersFit(k, 16); }
    if 16 < k { PowersFit(16, k); }
  }

  /** A raw block, itself well aligned, that a larger alignment loses. */
  lemma LosesTheBlock(a: nat)
    requires PowerOfTwo(a) && U16 <= a < U32
    ensures !AlwaysRecovers(a)
  {
    RefusedIffTooBig(0, a);
    var raw := if a == U32 / 2 then 8 else a;
    if a < U32 / 2 { HalfWord(a); }
    assert Admissible(0, a, raw);
    BlockHolds(0, a, raw);
    RecoveredIff(raw, Place(raw, a));
  }

  lemma HalfWord(a: nat)
    requires PowerOfTwo(a) && a < U32 / 2
    ensures a <= U32 / 4
  {
    var k: nat :| k < 32 && a == Pow2(k);
    PowersOfTwo();
    if k < 31 { PowersFit(k, 31); }
  }

  datatype RawBlock = RawBlock(raw: nat, size: nat, alignment: nat)

  ghost predicate Apart(b: RawBlock, c: RawBlock) {
    b.raw + b.size <= c.raw || c.raw + c.size <= b.raw
  }

  /** The block lies behind its aligned address, with its control block in memory. */
  ghost predicate Holds(cbs: map<nat, ControlBlock>, p: nat, b: RawBlock) {
    && b.raw + CB_SIZE <= p < b.raw + b.size && p < b.raw + CB_SIZE + b.alignment
    && p - CB_SIZE in cbs && cbs[p - CB_SIZE] == ControlBlock(MAGIC, (p - b.raw) % U16)
  }

  ghost predicate AllHold(cbs: map<nat, ControlBlock>, live: map<nat, RawBlock>) {
    && (forall p {:trigger live[p]} :: p in live ==> Holds(cbs, p, live[p]))
    && (forall p, q {:trigger live[p], live[q]} :: p in live && q in live && p != q ==> Apart(live[p], live[q]))
  }

  /** The memory after zeroing a raw block. */
  function Zeroed(cbs: map<nat, ControlBlock>, raw: nat, size: nat): map<nat, ControlBlock> {
    map q | q in cbs && !(raw <= q < raw + size) :: cbs[q]
  }

  lemma DifferentPlace(cbs: map<nat, ControlBlock>, p: nat, b: RawBlock, q: nat, c: RawBlock)
    requires Holds(cbs, q, c) && Apart(b, c) && b.raw + CB_SIZE <= p < b.raw + b.size
    ensures p != q
  {
  }

  lemma NewBlockHolds(cbs: map<nat, ControlBlock>, live: map<nat, RawBlock>, p: nat, b: RawBlock)
    requires AllHold(cbs, live) && forall q :: q in live ==> Apart(b, live[q])
    requires b.raw + CB_SIZE <= p < b.raw + b.size && p < b.raw + CB_SIZE + b.alignment
    ensures p !in live
    ensures AllHold(Zeroed(cbs, b.raw, b.size)[p - CB_SIZE := ControlBlock(MAGIC, (p - b.raw) % U16)], live[p := b])
  {
    forall q {:trigger live[q]} | q in live ensures p != q { DifferentPlace(cbs, p, b, q, live[q]); }
    var cbs' := Zeroed(cbs, b.raw, b.size)[p - CB_SIZE := ControlBlock(MAGIC, (p - b.raw) % U16)];
    forall q {:trigger live[q]} | q in live ensures Holds(cbs', q, live[q]) {
      assert Holds(cbs, q, live[q]) && Apart(b, live[q]);
    }
  }

  class AlignedMemory {
    /** The control blocks in memory, by address; memory that was never written reads as zeros. */
    var cbs: map<nat, ControlBlock>
    /** The raw block behind each live aligned address. */
    ghost var live: map<nat, RawBlock>

    ghost predicate Valid()
      reads this
    {
      AllHold(cbs, live)
    }

    constructor ()
      ensures Valid() && live == map[]
    {
      cbs, live := map[], map[];
    }

    /** Allocates with `raw` the raw allocator's answer, 0 for none. */
    method AllocateAlign(length: nat, a: nat, raw: nat) returns (p: nat)
      requires Valid() && length < U32 && PowerOfTwo(a) && 0 < a < U32
      requires Size(length, a) < U32 && 0 < raw ==> Admissible(length, a, raw)
      requires Size(length, a) < U32 && 0 < raw ==>
                 forall q :: q in live ==> Apart(RawBlock(raw, Size(length, a), a), live[q])
      modifies this
      ensures Valid()
      ensures p == 0 <==> raw == 0 || U32 <= Size(length, a)
      ensures p == 0 ==> live == old(live) && cbs == old(cbs)
      ensures p != 0 ==> p % a == 0 && p !in old(live) && live == old(live)[p := RawBlock(raw, Size(length, a), a)]
      ensures p != 0 ==> p + Ceiling(length, a) < raw + Size(length, a)
    {
      RefusedIffTooBig(length, a);
      match Request(length, a)
      case None => return 0;
      case Some(size) =>
        if raw == 0 { return 0; }
        BlockHolds(length, a, raw);
        p := Place(raw, a);
        Mark(p, RawBlock(raw, size, a));
    }

    /** Zeroes the raw block and writes its control block. */
    method Mark(p: nat, b: RawBlock)
      requires Valid() && b.raw + CB_SIZE <= p < b.raw + b.size && p < b.raw + CB_SIZE + b.alignment
      requires forall q :: q in live ==> Apart(b, live[q])
      modifies this
      ensures Valid() && p !in old(live) && live == old(live)[p := b]
    {
      NewBlockHolds(cbs, live, p, b);
      cbs := Zeroed(cbs, b.raw, b.size);
      cbs := cbs[p - CB_SIZE := ControlBlock(MAGIC, (p - b.raw) % U16)];
      live := live[p := b];
    }

    /** The address handed back to the raw allocator; without the magic number nothing is freed. */
    method FreeAlign(p: nat) returns (freed: Option<nat>)
      requires Valid() && CB_SIZE <= p < U32
      modifies this`live
      ensures Valid() && live == old(live) - {p}
      ensures freed.Some? <==> p - CB_SIZE in cbs && cbs[p - CB_SIZE].identifier == MAGIC
      ensures p in old(live) && p < old(live)[p].raw + U16 ==> freed == Some(old(live)[p].raw)
      ensures p in old(live) && old(live)[p].alignment <= 0x8000 ==> freed == Some(old(live)[p].raw)
    {
      var cb := if p - CB_SIZE in cbs then cbs[p - CB_SIZE] else ControlBlock(0, 0);
      ghost var was := live;
      live := live - {p};
      if cb.identifier != MAGIC { return None; }
      if p in was { RecoveredIff(was[p].raw, p); }
      freed := Some((p - cb.offset) % U32);
    }
  }
}
