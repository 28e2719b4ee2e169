/**
 The light memory manager seen as a sequence of blocks in address order: what an allocation and a
 free do to the sequence, and what every run of allocations and frees guarantees.

 Addresses and sizes are `int`s; the 32-bit arithmetic of the fit test is written out.
 */
module HeapModel {

  const WRAP := 0x1_0000_0000
  const HALF := 0x8000_0000

  /** One registered area: its first byte, its `end_address` and the size of a block header. */
  datatype Geometry = Geometry(start: nat, end: nat, hdr: nat) {
    /** What registration relies on: a word-aligned, non-NULL start, a header that is a whole number of words,
        room for the first header, a width below 2^31 and an end that a rounded address cannot wrap past. */
    ghost predicate Ok() {
      && 0 < start && start % 4 == 0
      && 0 < hdr && hdr % 4 == 0
      && start + hdr <= end + 1
      && end - start < HALF && end + 4 + hdr < WRAP
    }
  }

  datatype Block = Block(addr: nat, used: bool)

  function RoundUpWord(x: int): nat {
    ((x - 1) / 4 * 4 + 4) % WRAP
  }

  lemma RoundUpWordIsNextMultiple(x: int)
    requires 0 <= x <= WRAP - 4
    ensures RoundUpWord(x) % 4 == 0 && x <= RoundUpWord(x) < x + 4
  {
  }

  predicate WordAligned(x: int) {
    x % 4 == 0
  }

  /** A block sequence as the area's header chain spells it out. */
  ghost predicate Chain(g: Geometry, bs: seq<Block>) {
    && 0 < g.hdr
    && 0 < |bs| && bs[0].addr == g.start
    && !bs[|bs| - 1].used
    && (forall i {:trigger WordAligned(bs[i].addr)} :: 0 <= i < |bs| ==> WordAligned(bs[i].addr))
    && (forall i, j :: 0 <= i < j < |bs| ==> bs[i].addr + g.hdr <= bs[j].addr)
  }

  /** What clean-up mode 2 keeps: the block just below the tail is in use. */
  ghost predicate TopIsTrimmed(bs: seq<Block>) {
    1 < |bs| ==> bs[|bs| - 2].used
  }

  /** Every header, the tail's included, ends at or below `end_address`. */
  ghost predicate InArea(g: Geometry, bs: seq<Block>) {
    0 < |bs| && bs[|bs| - 1].addr + g.hdr <= g.end + 1
  }

  function Payload(g: Geometry, bs: seq<Block>, i: nat): int
    requires i + 1 < |bs|
  {
    bs[i + 1].addr - bs[i].addr - g.hdr
  }

  /** Bytes left above the tail's header. */
  function Room(g: Geometry, bs: seq<Block>): int
    requires 0 < |bs|
  {
    g.end - (bs[|bs| - 1].addr + g.hdr - 1)
  }

  // ----- the fit test at the tail, in 32-bit arithmetic -----

  function AsInt32(x: int): int {
    var w := x % WRAP;
    if w < HALF then w else w - WRAP
  }

  /** `remaining_bytes`: what an `int32_t` holds after the 32-bit total is subtracted from the room. */
  function Remaining(g: Geometry, room: int, numBytes: nat): int {
    AsInt32(room - AsInt32((numBytes + g.hdr) % WRAP))
  }

  function TailServes(g: Geometry, bs: seq<Block>, numBytes: nat): bool
    requires 0 < |bs|
  {
    Remaining(g, Room(g, bs), numBytes) >= 0
  }

  /** The 32-bit test means "the buffer and one more header fit" exactly outside two bands of huge requests:
      those whose total wraps to something that fits, and those at least 2^31 above the room. */
  lemma TailTestIsExact(g: Geometry, room: int, numBytes: nat)
    requires g.Ok() && -4 < room < HALF && numBytes < WRAP
    ensures (Remaining(g, room, numBytes) >= 0 <==> numBytes + g.hdr <= room)
       <==> numBytes + g.hdr <= room + HALF || WRAP + room < numBytes + g.hdr
    ensures numBytes + g.hdr <= room + HALF ==>
              Remaining(g, room, numBytes) == room - (numBytes + g.hdr) || Remaining(g, room, numBytes) < 0
  {
  }

  // ----- allocation -----

  predicate Fits(g: Geometry, bs: seq<Block>, i: nat, n: nat) {
    i + 1 < |bs| && !bs[i].used && n <= Payload(g, bs, i)
  }

  /** A fit that wastes less than half the block, or a block of at most one word. */
  predicate FitsTightly(g: Geometry, bs: seq<Block>, i: nat, n: nat) {
    Fits(g, bs, i, n) && (Payload(g, bs, i) <= 4 || Payload(g, bs, i) - n < Payload(g, bs, i) / 2)
  }

  /** The least index from `k` on that fits (tightly, if so asked), or |bs|. */
  function FirstFit(g: Geometry, bs: seq<Block>, n: nat, tightly: bool, k: nat): (r: nat)
    requires k <= |bs|
    ensures k <= r <= |bs|
    ensures r < |bs| ==> if tightly then FitsTightly(g, bs, r, n) else Fits(g, bs, r, n)
    ensures forall j :: k <= j < r ==> !(if tightly then FitsTightly(g, bs, j, n) else Fits(g, bs, j, n))
    decreases |bs| - k
  {
    if k == |bs| || (if tightly then FitsTightly(g, bs, k, n) else Fits(g, bs, k, n)) then k
    else FirstFit(g, bs, n, tightly, k + 1)
  }

  datatype Plan = Reuse(index: nat) | Extend | Refuse

  function Choose(g: Geometry, bs: seq<Block>, n: nat): (p: Plan)
    requires 0 < |bs|
    ensures p.Reuse? ==> Fits(g, bs, p.index, n)
  {
    var tight := FirstFit(g, bs, n, true, 0);
    var loose := FirstFit(g, bs, n, false, 0);
    if tight < |bs| then Reuse(tight)
    else if TailServes(g, bs, n) then Extend
    else if loose < |bs| then Reuse(loose)
    else Refuse
  }

  function NewTail(g: Geometry, bs: seq<Block>, n: nat): nat
    requires 0 < |bs|
  {
    RoundUpWord(bs[|bs| - 1].addr + (n + g.hdr) % WRAP)
  }

  function Allocated(g: Geometry, bs: seq<Block>, n: nat): (r: seq<Block>)
    requires 0 < |bs|
    ensures |bs| <= |r|
  {
    match Choose(g, bs, n)
    case Reuse(i) => bs[i := bs[i].(used := true)]
    case Extend => bs[|bs| - 1 := bs[|bs| - 1].(used := true)] + [Block(NewTail(g, bs, n), false)]
    case Refuse => bs
  }

  // ----- free -----

  /** Drops the tail while the block below it is free, so that the topmost free run becomes the tail. */
  function Trimmed(bs: seq<Block>): (r: seq<Block>)
    ensures r <= bs && (0 < |bs| ==> 0 < |r|)
    ensures TopIsTrimmed(r)
    ensures forall i :: |r| <= i + 1 < |bs| ==> !bs[i].used
  {
    if 1 < |bs| && !bs[|bs| - 2].used then Trimmed(bs[..|bs| - 1]) else bs
  }

  function Freed(bs: seq<Block>, k: nat): (r: seq<Block>)
    requires k < |bs|
    ensures 0 < |r|
  {
    Trimmed(bs[k := bs[k].(used := false)])
  }

  // ----- the invariant of one area -----

  ghost predicate Inv(g: Geometry, bs: seq<Block>) {
    Chain(g, bs) && TopIsTrimmed(bs) && -4 < Room(g, bs)
  }

  /** The 32-bit test at the tail tells the truth about this request. */
  predicate Truthful(g: Geometry, bs: seq<Block>, n: nat)
    requires 0 < |bs|
  {
    TailServes(g, bs, n) <==> n + g.hdr <= Room(g, bs)
  }

  /** Requests small enough for the test to tell the truth in every state. */
  predicate Sensible(g: Geometry, n: nat) {
    n + g.hdr + 4 <= HALF
  }

  lemma SensibleIsTruthful(g: Geometry, bs: seq<Block>, n: nat)
    requires g.Ok() && Inv(g, bs) && Sensible(g, n)
    ensures Truthful(g, bs, n)
    ensures TailServes(g, bs, n) ==> Remaining(g, Room(g, bs), n) == Room(g, bs) - (n + g.hdr)
  {
  }

  lemma NewTailIsRoundedUp(g: Geometry, bs: seq<Block>, n: nat)
    requires g.Ok() && 0 < |bs| && g.start <= bs[|bs| - 1].addr && n + g.hdr <= Room(g, bs)
    ensures var top := bs[|bs| - 1].addr + g.hdr + n;
      WordAligned(NewTail(g, bs, n)) && top <= NewTail(g, bs, n) < top + 4
  {
    var top := bs[|bs| - 1].addr + g.hdr + n;
    assert (n + g.hdr) % WRAP == n + g.hdr;
    assert NewTail(g, bs, n) == RoundUpWord(top);
    RoundUpWordIsNextMultiple(top);
  }

  lemma PayloadIsWords(g: Geometry, bs: seq<Block>, i: nat)
    requires Chain(g, bs) && g.hdr % 4 == 0 && i + 1 < |bs|
    ensures 0 <= Payload(g, bs, i) && Payload(g, bs, i) % 4 == 0
  {
    assert WordAligned(bs[i].addr) && WordAligned(bs[i + 1].addr);
  }

  lemma HalfUsed(p: int, n: nat)
    requires p % 4 == 0
    ensures p - n < p / 2 <==> p < 2 * n
  {
  }

  /** Payloads are whole words, so a tight fit is one that uses more than half the block. */
  lemma TightIffHalfUsed(g: Geometry, bs: seq<Block>, n: nat, i: nat)
    requires g.Ok() && Inv(g, bs) && i < |bs| - 1
    ensures Fits(g, bs, i, n) <==> !bs[i].used && n <= bs[i + 1].addr - bs[i].addr - g.hdr
    ensures var p := bs[i + 1].addr - bs[i].addr - g.hdr;
            FitsTightly(g, bs, i, n) <==> !bs[i].used && n <= p && (p <= 4 || p < 2 * n)
  {
    PayloadIsWords(g, bs, i);
    HalfUsed(Payload(g, bs, i), n);
  }

  /** No free block below `k` holds the request, or none that would not waste half of itself. */
  lemma NoneFits(g: Geometry, bs: seq<Block>, n: nat, k: nat)
    requires g.Ok() && Inv(g, bs) && k < |bs|
    ensures (forall j :: 0 <= j < k ==> !Fits(g, bs, j, n)) <==>
              forall i {:trigger bs[i].used} :: 0 <= i < k && !bs[i].used ==> bs[i + 1].addr - bs[i].addr - g.hdr < n
    ensures (forall j :: 0 <= j < k ==> !FitsTightly(g, bs, j, n)) <==>
              forall i {:trigger bs[i].used} :: 0 <= i < k && !bs[i].used ==>
                var p := bs[i + 1].addr - bs[i].addr - g.hdr; p < n || (4 < p && 2 * n <= p)
  {
    forall i {:trigger bs[i].used} {:trigger Fits(g, bs, i, n)} | 0 <= i < k
      ensures Fits(g, bs, i, n) <==> !bs[i].used && n <= bs[i + 1].addr - bs[i].addr - g.hdr
      ensures var p := bs[i + 1].addr - bs[i].addr - g.hdr;
              FitsTightly(g, bs, i, n) <==> !bs[i].used && n <= p && (p <= 4 || p < 2 * n)
    {
      TightIffHalfUsed(g, bs, n, i);
    }
  }

  lemma PlanByFits(g: Geometry, bs: seq<Block>, n: nat)
    requires 0 < |bs| && Truthful(g, bs, n)
    ensures Choose(g, bs, n).Refuse? <==>
              (forall j :: 0 <= j < |bs| - 1 ==> !Fits(g, bs, j, n)) && Room(g, bs) < n + g.hdr
    ensures Choose(g, bs, n).Extend? <==>
              (forall j :: 0 <= j < |bs| - 1 ==> !FitsTightly(g, bs, j, n)) && n + g.hdr <= Room(g, bs)
    ensures Choose(g, bs, n).Reuse? ==>
              var k := Choose(g, bs, n).index;
              && Fits(g, bs, k, n) && (forall j :: 0 <= j < k ==> !FitsTightly(g, bs, j, n))
              && (!FitsTightly(g, bs, k, n) ==>
                    && Room(g, bs) < n + g.hdr && (forall j :: 0 <= j < k ==> !Fits(g, bs, j, n))
                    && forall j :: 0 <= j < |bs| - 1 ==> !FitsTightly(g, bs, j, n))
  {
  }

  /** Allocation is complete and keeps to its policy, in terms of addresses: a block of payload `p` holds `n` bytes if
      `n <= p`, and is not wasted on them if `p` is at most a word or below `2 * n`. It is NULL exactly when no free block
      holds the request and the tail lacks room, and the tail exactly when that has room and every block that holds the
      request is wasted on it. */
  lemma AllocationPolicy(g: Geometry, bs: seq<Block>, n: nat)
    requires g.Ok() && Inv(g, bs) && Truthful(g, bs, n)
    ensures Choose(g, bs, n).Refuse? <==>
              && g.end + 1 - (bs[|bs| - 1].addr + g.hdr) < n + g.hdr
              && forall i {:trigger bs[i].used} :: 0 <= i < |bs| - 1 && !bs[i].used ==>
                   bs[i + 1].addr - bs[i].addr - g.hdr < n
    ensures Choose(g, bs, n).Extend? <==>
              && n + g.hdr <= g.end + 1 - (bs[|bs| - 1].addr + g.hdr)
              && forall i {:trigger bs[i].used} :: 0 <= i < |bs| - 1 && !bs[i].used ==>
                   var p := bs[i + 1].addr - bs[i].addr - g.hdr; p < n || (4 < p && 2 * n <= p)
  {
    PlanByFits(g, bs, n);
    NoneFits(g, bs, n, |bs| - 1);
  }

  /** Else it is a free block that holds the request, and every one below it that does is wasted on it. */
  lemma ReusePolicy(g: Geometry, bs: seq<Block>, n: nat)
    requires g.Ok() && Inv(g, bs) && Truthful(g, bs, n) && Choose(g, bs, n).Reuse?
    ensures var k := Choose(g, bs, n).index;
      && k < |bs| - 1 && !bs[k].used && n <= bs[k + 1].addr - bs[k].addr - g.hdr
      && forall i {:trigger bs[i].used} :: 0 <= i < k && !bs[i].used ==>
           var p := bs[i + 1].addr - bs[i].addr - g.hdr; p < n || (4 < p && 2 * n <= p)
  {
    PlanByFits(g, bs, n);
    NoneFits(g, bs, n, Choose(g, bs, n).index);
    TightIffHalfUsed(g, bs, n, Choose(g, bs, n).index);
  }

  /** A free block that holds the request and is not wasted on it is used, or one below it. */
  lemma TightBlocksAreUsed(g: Geometry, bs: seq<Block>, n: nat, i: nat)
    requires g.Ok() && Inv(g, bs) && i < |bs| - 1 && !bs[i].used
    requires var p := bs[i + 1].addr - bs[i].addr - g.hdr; n <= p && (p <= 4 || p < 2 * n)
    ensures Choose(g, bs, n).Reuse? && Choose(g, bs, n).index <= i
  {
    TightIffHalfUsed(g, bs, n, i);
  }

  /** A block over one word and at least twice the request is taken only when the tail cannot serve and every other
      block that holds the request is wasted on it too; and then it is the lowest one. */
  lemma LargeBlocksAreKept(g: Geometry, bs: seq<Block>, n: nat, k: nat)
    requires g.Ok() && Inv(g, bs) && Truthful(g, bs, n) && Choose(g, bs, n) == Reuse(k)
    requires k < |bs| - 1 && var p := bs[k + 1].addr - bs[k].addr - g.hdr; 4 < p && 2 * n <= p
    ensures g.end + 1 - (bs[|bs| - 1].addr + g.hdr) < n + g.hdr
    ensures forall i {:trigger bs[i].used} :: 0 <= i < k && !bs[i].used ==> bs[i + 1].addr - bs[i].addr - g.hdr < n
    ensures forall i {:trigger bs[i].used} :: 0 <= i < |bs| - 1 && !bs[i].used ==>
              var p := bs[i + 1].addr - bs[i].addr - g.hdr; p < n || (4 < p && 2 * n <= p)
  {
    PlanByFits(g, bs, n);
    TightIffHalfUsed(g, bs, n, k);
    NoneFits(g, bs, n, k);
    NoneFits(g, bs, n, |bs| - 1);
  }

  lemma ExtensionKeepsInv(g: Geometry, bs: seq<Block>, n: nat)
    requires g.Ok() && Inv(g, bs) && n + g.hdr <= Room(g, bs) && Choose(g, bs, n).Extend?
    ensures Inv(g, Allocated(g, bs, n))
  {
    NewTailIsRoundedUp(g, bs, n);
    var t := |bs| - 1;
    var r := Allocated(g, bs, n);
    assert forall i :: 0 <= i < |bs| ==> r[i].addr == bs[i].addr;
    assert r[t + 1].addr == NewTail(g, bs, n);
  }

  lemma AllocationKeepsInv(g: Geometry, bs: seq<Block>, n: nat)
    requires g.Ok() && Inv(g, bs) && Truthful(g, bs, n)
    ensures Inv(g, Allocated(g, bs, n))
  {
    if Choose(g, bs, n).Extend? {
      ExtensionKeepsInv(g, bs, n);
    }
  }

  /** An allocation at the tail honours the request exactly when the 32-bit test was right to accept it. */
  lemma ExtensionHonoursIffRoom(g: Geometry, bs: seq<Block>, n: nat)
    requires g.Ok() && Inv(g, bs) && n < WRAP && Choose(g, bs, n).Extend?
    ensures n + g.hdr <= Room(g, bs) <==>
              Inv(g, Allocated(g, bs, n)) && n <= Payload(g, Allocated(g, bs, n), |bs| - 1)
  {
    var r := Allocated(g, bs, n);
    assert r[|bs| - 1].addr == bs[|bs| - 1].addr && r[|bs|].addr == NewTail(g, bs, n);
    if n + g.hdr <= Room(g, bs) {
      ExtensionKeepsInv(g, bs, n);
      NewTailIsRoundedUp(g, bs, n);
    } else if Inv(g, r) && n <= Payload(g, r, |bs| - 1) {
      TailTestIsExact(g, Room(g, bs), n);
      assert false;
    }
  }

  lemma FreeKeepsInv(g: Geometry, bs: seq<Block>, k: nat)
    requires Inv(g, bs) && k < |bs| && bs[k].used
    ensures Inv(g, Freed(bs, k))
  {
    var marked := bs[k := bs[k].(used := false)];
    var r := Freed(bs, k);
    assert forall i :: 0 <= i < |r| ==> r[i] == marked[i];
    if |r| < |bs| { assert !marked[|r| - 1].used; }
  }

}
