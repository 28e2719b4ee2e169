/**
 Runs of the light memory manager: every legal sequence of allocations and frees on one area, started
 from the fresh area, as a step machine over the block sequence and the sizes of the live buffers.
 */
module HeapRuns {
  import opened HeapModel

  /** `sizes` maps the header address of every live buffer to the number of bytes asked for. */
  datatype Heap = Heap(blocks: seq<Block>, sizes: map<nat, nat>)

  datatype Op = Alloc(numBytes: nat) | Free(addr: nat)

  function Fresh(g: Geometry): Heap {
    Heap([Block(g.start, false)], map[])
  }

  ghost predicate LiveAt(bs: seq<Block>, i: int, a: nat) {
    0 <= i < |bs| - 1 && bs[i] == Block(a, true)
  }

  /** The live buffer whose header is at `a` extends to the header at `e`. */
  ghost predicate Extent(bs: seq<Block>, a: nat, e: nat) {
    exists i :: LiveAt(bs, i, a) && bs[i + 1].addr == e
  }

  /** Every live block has a recorded size, and room for it. */
  ghost predicate SizesFit(g: Geometry, bs: seq<Block>, sizes: map<nat, nat>) {
    forall i, a: nat :: LiveAt(bs, i, a) ==> a in sizes && a + g.hdr + sizes[a] <= bs[i + 1].addr
  }

  ghost predicate SizesLive(bs: seq<Block>, sizes: map<nat, nat>) {
    forall a :: a in sizes ==> exists i :: LiveAt(bs, i, a)
  }

  ghost predicate HeapInv(g: Geometry, h: Heap) {
    Inv(g, h.blocks) && SizesFit(g, h.blocks, h.sizes) && SizesLive(h.blocks, h.sizes)
  }

  function IndexOf(bs: seq<Block>, a: nat): (i: nat)
    ensures i <= |bs| && (i < |bs| ==> bs[i].addr == a)
    ensures forall j :: 0 <= j < i ==> bs[j].addr != a
  {
    if bs == [] || bs[0].addr == a then 0 else 1 + IndexOf(bs[1..], a)
  }

  /** The header address an allocation hands out. */
  function Served(g: Geometry, bs: seq<Block>, n: nat): (a: nat)
    requires 0 < |bs| && !Choose(g, bs, n).Refuse?
  {
    if Choose(g, bs, n).Reuse? then bs[Choose(g, bs, n).index].addr else bs[|bs| - 1].addr
  }

  predicate LegalOp(g: Geometry, h: Heap, op: Op) {
    match op
    case Alloc(n) => Sensible(g, n)
    case Free(a) => a in h.sizes
  }

  function Step(g: Geometry, h: Heap, op: Op): (h': Heap)
    requires 0 < |h.blocks|
    ensures 0 < |h'.blocks|
  {
    match op
    case Alloc(n) =>
      if Choose(g, h.blocks, n).Refuse? then h
      else Heap(Allocated(g, h.blocks, n), h.sizes[Served(g, h.blocks, n) := n])
    case Free(a) =>
      var k := IndexOf(h.blocks, a);
      if k < |h.blocks| then Heap(Freed(h.blocks, k), h.sizes - {a}) else h
  }

  function Run(g: Geometry, h: Heap, ops: seq<Op>): (h': Heap)
    requires 0 < |h.blocks|
    ensures 0 < |h'.blocks|
    decreases |ops|
  {
    if ops == [] then h else Run(g, Step(g, h, ops[0]), ops[1..])
  }

  ghost predicate Legal(g: Geometry, h: Heap, ops: seq<Op>)
    requires 0 < |h.blocks|
    decreases |ops|
  {
    ops == [] || (LegalOp(g, h, ops[0]) && Legal(g, Step(g, h, ops[0]), ops[1..]))
  }

  // ----- what one step does to the live buffers -----

  /** Blocks keep their places, blocks in use stay in use, and at most `a`'s block comes into use. */
  ghost predicate Grows(bs: seq<Block>, r: seq<Block>, a: nat) {
    && |bs| <= |r|
    && (forall i :: 0 <= i < |bs| ==> r[i].addr == bs[i].addr && (bs[i].used ==> r[i] == bs[i]))
    && (forall i :: 0 <= i < |r| && r[i].used ==> i < |bs| && (bs[i].used || bs[i].addr == a))
  }

  lemma AllocationGrows(g: Geometry, bs: seq<Block>, n: nat) returns (i: nat)
    requires g.Ok() && Inv(g, bs) && Sensible(g, n) && !Choose(g, bs, n).Refuse?
    ensures Grows(bs, Allocated(g, bs, n), Served(g, bs, n))
    ensures i < |bs| && !bs[i].used && LiveAt(Allocated(g, bs, n), i, Served(g, bs, n))
    ensures n <= Payload(g, Allocated(g, bs, n), i)
  {
    SensibleIsTruthful(g, bs, n);
    if Choose(g, bs, n).Extend? { NewTailIsRoundedUp(g, bs, n); }
    i := if Choose(g, bs, n).Reuse? then Choose(g, bs, n).index else |bs| - 1;
  }

  lemma GrowthKeepsLive(bs: seq<Block>, r: seq<Block>, b: nat, i: nat, a: nat)
    requires Grows(bs, r, b) && LiveAt(bs, i, a)
    ensures LiveAt(r, i, a) && r[i + 1].addr == bs[i + 1].addr
  {
  }

  lemma GrownLive(bs: seq<Block>, r: seq<Block>, b: nat, i: nat, a: nat)
    requires 0 < |bs| && !bs[|bs| - 1].used && Grows(bs, r, b) && LiveAt(r, i, a) && a != b
    ensures LiveAt(bs, i, a) && r[i + 1].addr == bs[i + 1].addr
  {
  }

  lemma LiveAtIsUnique(g: Geometry, bs: seq<Block>, i: nat, j: nat)
    requires Chain(g, bs) && i < |bs| && j < |bs| && bs[i].addr == bs[j].addr
    ensures i == j
  {
  }

  lemma GrowthKeepsSizesFit(g: Geometry, bs: seq<Block>, sizes: map<nat, nat>, r: seq<Block>, k: nat, a: nat, n: nat)
    requires Chain(g, bs) && SizesFit(g, bs, sizes) && Chain(g, r)
    requires Grows(bs, r, a) && LiveAt(r, k, a) && a + g.hdr + n <= r[k + 1].addr
    ensures SizesFit(g, r, sizes[a := n])
  {
    forall i, b: nat | LiveAt(r, i, b)
      ensures b in sizes[a := n] && b + g.hdr + sizes[a := n][b] <= r[i + 1].addr
    {
      if b == a { LiveAtIsUnique(g, r, i, k); } else { GrownLive(bs, r, a, i, b); }
    }
  }

  lemma GrowthKeepsSizesLive(bs: seq<Block>, sizes: map<nat, nat>, r: seq<Block>, k: nat, a: nat, n: nat)
    requires SizesLive(bs, sizes) && Grows(bs, r, a) && LiveAt(r, k, a)
    ensures SizesLive(r, sizes[a := n])
  {
    forall b | b in sizes || b == a ensures exists i :: LiveAt(r, i, b) {
      if b != a {
        var i :| LiveAt(bs, i, b);
        GrowthKeepsLive(bs, r, a, i, b);
      }
    }
  }

  /** A free takes `a` out of use, keeps every other live block in place, and drops blocks only at the top. */
  ghost predicate Shrinks(bs: seq<Block>, r: seq<Block>, a: nat) {
    && 0 < |r| <= |bs|
    && (forall i :: 0 <= i < |r| ==> r[i].addr == bs[i].addr && (r[i].used <==> bs[i].used && bs[i].addr != a))
    && (forall i :: |r| <= i + 1 < |bs| && bs[i].used ==> bs[i].addr == a)
  }

  lemma FreeShrinks(g: Geometry, bs: seq<Block>, k: nat)
    requires Inv(g, bs) && k < |bs| && bs[k].used
    ensures Shrinks(bs, Freed(bs, k), bs[k].addr)
  {
    var marked := bs[k := bs[k].(used := false)];
    var r := Trimmed(marked);
    assert forall i :: 0 <= i < |r| ==> r[i] == marked[i];
    forall i | |r| <= i + 1 < |bs| && bs[i].used ensures i == k {
      assert !marked[i].used;
    }
    assert forall i :: 0 <= i < |bs| && bs[i].addr == bs[k].addr ==> i == k;
  }

  lemma ShrinkingKeepsLive(bs: seq<Block>, r: seq<Block>, b: nat, i: nat, a: nat)
    requires Shrinks(bs, r, b) && a != b && LiveAt(bs, i, a)
    ensures LiveAt(r, i, a) && r[i + 1].addr == bs[i + 1].addr
  {
  }

  lemma ShrunkLive(bs: seq<Block>, r: seq<Block>, b: nat, i: nat, a: nat)
    requires Shrinks(bs, r, b) && LiveAt(r, i, a)
    ensures a != b && LiveAt(bs, i, a) && r[i + 1].addr == bs[i + 1].addr
  {
  }

  lemma ShrinkingKeepsSizes(g: Geometry, bs: seq<Block>, sizes: map<nat, nat>, r: seq<Block>, a: nat)
    requires SizesFit(g, bs, sizes) && SizesLive(bs, sizes) && Shrinks(bs, r, a)
    ensures SizesFit(g, r, sizes - {a}) && SizesLive(r, sizes - {a})
  {
    forall i, b: nat | LiveAt(r, i, b)
      ensures b in sizes - {a} && b + g.hdr + sizes[b] <= r[i + 1].addr
    {
      ShrunkLive(bs, r, a, i, b);
    }
    forall b | b in sizes - {a} ensures exists i :: LiveAt(r, i, b) {
      var i :| LiveAt(bs, i, b);
      ShrinkingKeepsLive(bs, r, a, i, b);
    }
  }

  lemma FreeIsNotLive(g: Geometry, bs: seq<Block>, i: nat)
    requires Chain(g, bs) && i < |bs| && !bs[i].used
    ensures forall j :: !LiveAt(bs, j, bs[i].addr)
  {
  }

  /** What an allocation hands out was not live, is live now and holds at least what was asked for. */
  lemma AllocationServes(g: Geometry, h: Heap, n: nat) returns (e: nat)
    requires g.Ok() && HeapInv(g, h) && Sensible(g, n) && !Choose(g, h.blocks, n).Refuse?
    ensures Extent(Allocated(g, h.blocks, n), Served(g, h.blocks, n), e)
    ensures Served(g, h.blocks, n) + g.hdr + n <= e
    ensures Served(g, h.blocks, n) !in h.sizes
  {
    var a := Served(g, h.blocks, n);
    var i := AllocationGrows(g, h.blocks, n);
    e := Allocated(g, h.blocks, n)[i + 1].addr;
    FreeIsNotLive(g, h.blocks, i);
  }

  lemma IndexOfLive(g: Geometry, bs: seq<Block>, i: nat, a: nat)
    requires Chain(g, bs) && LiveAt(bs, i, a)
    ensures IndexOf(bs, a) == i
  {
  }

  lemma FreeStepIsFreed(g: Geometry, h: Heap, a: nat) returns (k: nat)
    requires HeapInv(g, h) && a in h.sizes
    ensures LiveAt(h.blocks, k, a) && Step(g, h, Free(a)) == Heap(Freed(h.blocks, k), h.sizes - {a})
  {
    k :| LiveAt(h.blocks, k, a);
    IndexOfLive(g, h.blocks, k, a);
  }

  lemma StepKeepsInv(g: Geometry, h: Heap, op: Op)
    requires g.Ok() && HeapInv(g, h) && LegalOp(g, h, op)
    ensures HeapInv(g, Step(g, h, op))
  {
    match op
    case Alloc(n) =>
      if !Choose(g, h.blocks, n).Refuse? {
        AllocationKeepsInv(g, h.blocks, n);
        var k := AllocationGrows(g, h.blocks, n);
        GrowthKeepsSizesFit(g, h.blocks, h.sizes, Allocated(g, h.blocks, n), k, Served(g, h.blocks, n), n);
        GrowthKeepsSizesLive(h.blocks, h.sizes, Allocated(g, h.blocks, n), k, Served(g, h.blocks, n), n);
      }
    case Free(a) =>
      var k := FreeStepIsFreed(g, h, a);
      FreeKeepsInv(g, h.blocks, k);
      FreeShrinks(g, h.blocks, k);
      ShrinkingKeepsSizes(g, h.blocks, h.sizes, Freed(h.blocks, k), a);
  }

  /** The live buffer at index `i` has the same header, end and recorded size in both states. */
  ghost predicate Keeps(h: Heap, h': Heap, i: nat, a: nat) {
    && LiveAt(h.blocks, i, a) && LiveAt(h'.blocks, i, a) && h'.blocks[i + 1].addr == h.blocks[i + 1].addr
    && a in h.sizes && a in h'.sizes && h'.sizes[a] == h.sizes[a]
  }

  lemma AllocKeepsLiveBuffer(g: Geometry, h: Heap, n: nat, i: nat, a: nat)
    requires g.Ok() && HeapInv(g, h) && Sensible(g, n) && LiveAt(h.blocks, i, a)
    ensures Keeps(h, Step(g, h, Alloc(n)), i, a)
  {
    if !Choose(g, h.blocks, n).Refuse? {
      var k := AllocationGrows(g, h.blocks, n);
      FreeIsNotLive(g, h.blocks, k);
      GrowthKeepsLive(h.blocks, Allocated(g, h.blocks, n), Served(g, h.blocks, n), i, a);
    }
  }

  lemma FreeKeepsLiveBuffer(g: Geometry, h: Heap, b: nat, i: nat, a: nat)
    requires HeapInv(g, h) && b in h.sizes && LiveAt(h.blocks, i, a) && a != b
    ensures Keeps(h, Step(g, h, Free(b)), i, a)
  {
    var k := FreeStepIsFreed(g, h, b);
    FreeShrinks(g, h.blocks, k);
    ShrinkingKeepsLive(h.blocks, Freed(h.blocks, k), b, i, a);
  }

  /** No allocation and no free of another buffer moves, shrinks or re-labels a live buffer. */
  lemma StepKeepsLiveBuffer(g: Geometry, h: Heap, op: Op, i: nat, a: nat)
    requires g.Ok() && HeapInv(g, h) && LegalOp(g, h, op) && LiveAt(h.blocks, i, a) && op != Free(a)
    ensures Keeps(h, Step(g, h, op), i, a)
  {
    match op
    case Alloc(n) => AllocKeepsLiveBuffer(g, h, n, i, a);
    case Free(b) => FreeKeepsLiveBuffer(g, h, b, i, a);
  }

  // ----- every run -----

  lemma {:induction false} RunKeepsInv(g: Geometry, h: Heap, ops: seq<Op>)
    requires g.Ok() && HeapInv(g, h) && Legal(g, h, ops)
    ensures HeapInv(g, Run(g, h, ops))
    decreases |ops|
  {
    if ops != [] {
      StepKeepsInv(g, h, ops[0]);
      RunKeepsInv(g, Step(g, h, ops[0]), ops[1..]);
    }
  }

  /** A buffer that a run does not free keeps its place, its extent and its size through the whole run. */
  lemma {:induction false} LiveBufferStays(g: Geometry, h: Heap, ops: seq<Op>, i: nat, a: nat)
    requires g.Ok() && HeapInv(g, h) && Legal(g, h, ops)
    requires LiveAt(h.blocks, i, a) && Free(a) !in ops
    ensures Keeps(h, Run(g, h, ops), i, a)
    decreases |ops|
  {
    if ops != [] {
      StepKeepsInv(g, h, ops[0]);
      StepKeepsLiveBuffer(g, h, ops[0], i, a);
      LiveBufferStays(g, Step(g, h, ops[0]), ops[1..], i, a);
    }
  }

  /** The buffer above header `a` that ends at `e`, as a set of addresses it may use. */
  ghost predicate InBuffer(g: Geometry, a: nat, e: nat, x: int) {
    a + g.hdr <= x < e
  }

  /** The buffer that ends at `e` above header `a` lies inside the chain, holds the bytes asked for, and meets
      no header and no other live buffer. */
  ghost predicate BufferIsApart(g: Geometry, h: Heap, a: nat, e: nat)
    requires 0 < |h.blocks|
  {
    && g.start <= a && e <= h.blocks[|h.blocks| - 1].addr
    && a in h.sizes && a + g.hdr + h.sizes[a] <= e
    && (forall i, x :: 0 <= i < |h.blocks| && InBuffer(g, a, e, x) ==>
          !(h.blocks[i].addr <= x < h.blocks[i].addr + g.hdr))
    && (forall b: nat, f: nat, x :: Extent(h.blocks, b, f) && b != a && InBuffer(g, a, e, x) ==>
          !InBuffer(g, b, f, x))
  }

  lemma ApartFromHeader(g: Geometry, bs: seq<Block>, k: nat, i: nat, x: int)
    requires Chain(g, bs) && k < |bs| - 1 && i < |bs| && bs[k].addr + g.hdr <= x < bs[k + 1].addr
    ensures !(bs[i].addr <= x < bs[i].addr + g.hdr)
    ensures g.start <= bs[k].addr && bs[k + 1].addr <= bs[|bs| - 1].addr
  {
  }

  lemma ApartFromBuffer(g: Geometry, bs: seq<Block>, k: nat, j: nat, x: int)
    requires Chain(g, bs) && k < |bs| - 1 && j < |bs| - 1 && j != k && bs[k].addr + g.hdr <= x < bs[k + 1].addr
    ensures !(bs[j].addr + g.hdr <= x < bs[j + 1].addr)
  {
  }

  lemma ChainSpans(g: Geometry, bs: seq<Block>, k: nat)
    requires Chain(g, bs) && k < |bs|
    ensures g.start <= bs[k].addr <= bs[|bs| - 1].addr
  {
  }

  lemma BuffersAreApart(g: Geometry, h: Heap, a: nat, e: nat)
    requires HeapInv(g, h) && Extent(h.blocks, a, e)
    ensures BufferIsApart(g, h, a, e)
  {
    var bs := h.blocks;
    var k :| LiveAt(bs, k, a) && bs[k + 1].addr == e;
    ChainSpans(g, bs, k);
    ChainSpans(g, bs, k + 1);
    forall i, x | 0 <= i < |bs| && InBuffer(g, a, e, x)
      ensures !(bs[i].addr <= x < bs[i].addr + g.hdr)
    {
      ApartFromHeader(g, bs, k, i, x);
    }
    forall b: nat, f: nat, x | Extent(bs, b, f) && b != a && InBuffer(g, a, e, x)
      ensures !InBuffer(g, b, f, x)
    {
      var j :| LiveAt(bs, j, b) && bs[j + 1].addr == f;
      ApartFromBuffer(g, bs, k, j, x);
    }
  }

  lemma ExtentBelowTheEnd(g: Geometry, bs: seq<Block>, a: nat, e: nat)
    requires g.Ok() && Inv(g, bs) && Extent(bs, a, e)
    ensures e <= bs[|bs| - 1].addr <= g.end
  {
    var i :| LiveAt(bs, i, a) && bs[i + 1].addr == e;
    ChainSpans(g, bs, i + 1);
  }

  /** In every reachable state the live buffers hold what was asked for and lie apart from each other and from every
      header. They end at or below `end_address`, be it the last byte or one past the heap; the tail's header ends at
      most a word past it, and not past it at all when `end_address + 1` is word-aligned. */
  lemma RunsAreSafe(g: Geometry, ops: seq<Op>)
    requires g.Ok() && Legal(g, Fresh(g), ops)
    ensures var h := Run(g, Fresh(g), ops);
      && HeapInv(g, h)
      && (forall a, e :: Extent(h.blocks, a, e) ==> BufferIsApart(g, h, a, e))
      && (forall a: nat, e: nat :: Extent(h.blocks, a, e) ==> e <= g.end)
      && h.blocks[|h.blocks| - 1].addr + g.hdr <= g.end + 4
      && ((g.end + 1) % 4 == 0 ==> InArea(g, h.blocks))
  {
    RunKeepsInv(g, Fresh(g), ops);
    var h := Run(g, Fresh(g), ops);
    forall a: nat, e: nat | Extent(h.blocks, a, e) ensures BufferIsApart(g, h, a, e) && e <= g.end {
      BuffersAreApart(g, h, a, e);
      ExtentBelowTheEnd(g, h.blocks, a, e);
    }
    if (g.end + 1) % 4 == 0 { AlignedEndKeepsInArea(g, h.blocks); }
  }

  // ----- the end address -----

  lemma AlignedEndKeepsInArea(g: Geometry, bs: seq<Block>)
    requires g.Ok() && Inv(g, bs) && (g.end + 1) % 4 == 0
    ensures InArea(g, bs)
  {
    assert WordAligned(bs[|bs| - 1].addr);
  }

  lemma FreshExtends(g: Geometry, n: nat)
    requires g.Ok() && n + g.hdr <= Room(g, Fresh(g).blocks)
    ensures Inv(g, Fresh(g).blocks) && Sensible(g, n)
    ensures Allocated(g, Fresh(g).blocks, n) == [Block(g.start, true), Block(NewTail(g, Fresh(g).blocks, n), false)]
  {
    var bs := Fresh(g).blocks;
    assert forall i :: !Fits(g, bs, i, n);
    assert WordAligned(bs[0].addr);
  }

  lemma FillingAnAreaOverruns(g: Geometry)
    requires g.Ok() && g.start + 2 * g.hdr <= g.end + 1 && (g.end + 1) % 4 != 0
    ensures var bs := Fresh(g).blocks;
      var n := Room(g, bs) - g.hdr;
      0 <= n && Inv(g, bs) && InArea(g, bs) && Sensible(g, n) && !InArea(g, Allocated(g, bs, n))
  {
    var bs := Fresh(g).blocks;
    var n := Room(g, bs) - g.hdr;
    FreshExtends(g, n);
    NewTailIsRoundedUp(g, bs, n);
    AboveAnUnalignedEnd(g.end, g.hdr, NewTail(g, bs, n));
  }

  lemma AboveAnUnalignedEnd(end: int, hdr: int, t: int)
    requires hdr % 4 == 0 && (end + 1) % 4 != 0 && WordAligned(t) && end + 1 <= t + hdr
    ensures end + 1 < t + hdr
  {
  }

  /** Allocations keep every header in the area exactly when `end_address + 1` is word-aligned (given an area that
      holds two headers). */
  lemma EndAlignmentIsNeeded(g: Geometry)
    requires g.Ok() && g.start + 2 * g.hdr <= g.end + 1
    ensures (g.end + 1) % 4 == 0 <==>
              forall bs, n :: Inv(g, bs) && InArea(g, bs) && Sensible(g, n) ==> InArea(g, Allocated(g, bs, n))
  {
    if (g.end + 1) % 4 == 0 {
      forall bs, n | Inv(g, bs) && InArea(g, bs) && Sensible(g, n)
        ensures InArea(g, Allocated(g, bs, n))
      {
        AllocationKeepsInv(g, bs, n);
        AlignedEndKeepsInArea(g, Allocated(g, bs, n));
      }
    } else {
      FillingAnAreaOverruns(g);
    }
  }

  lemma RoundingPastTheEnd(end: int, hdr: int, tail: int, n: int, t: int)
    requires end % 4 == 0 && hdr % 4 == 0 && WordAligned(tail) && WordAligned(t)
    requires tail + hdr + n <= t < tail + hdr + n + 4 && tail + hdr + n + hdr <= end + 1
    ensures t + hdr <= end <==> tail + hdr + n + hdr != end + 1
    ensures tail + hdr + n + hdr == end + 1 ==> n % 4 == 1 && t + hdr == end + 4
  {
  }

  /** Initialisation passes the address one past the heap. There the new tail header leaves the heap exactly
      when the request uses up the room to the last byte. */
  lemma OnePastTheEndOverrun(g: Geometry, bs: seq<Block>, n: nat)
    requires g.Ok() && Inv(g, bs) && g.end % 4 == 0 && n + g.hdr <= Room(g, bs)
    ensures NewTail(g, bs, n) + g.hdr <= g.end <==> n + g.hdr != Room(g, bs)
    ensures n + g.hdr == Room(g, bs) ==> n % 4 == 1 && NewTail(g, bs, n) + g.hdr == g.end + 4
  {
    var tail, t := bs[|bs| - 1].addr, NewTail(g, bs, n);
    assert WordAligned(tail);
    NewTailIsRoundedUp(g, bs, n);
    RoundingPastTheEnd(g.end, g.hdr, tail, n, t);
  }

  // ----- full recovery -----

  lemma NoneUsedIsFresh(g: Geometry, bs: seq<Block>)
    requires Chain(g, bs) && TopIsTrimmed(bs)
    ensures bs == Fresh(g).blocks || (1 < |bs| && LiveAt(bs, |bs| - 2, bs[|bs| - 2].addr))
  {
  }

  /** The emptiness test is exact: the area is back to its fresh state exactly when no buffer is live. */
  lemma EmptyIffNoneLive(g: Geometry, h: Heap)
    requires HeapInv(g, h)
    ensures h.blocks == Fresh(g).blocks <==> h.sizes == map[]
  {
    NoneUsedIsFresh(g, h.blocks);
    if h.blocks == Fresh(g).blocks {
      assert forall a :: a !in h.sizes;
    }
  }

  function FreeAll(order: seq<nat>): seq<Op> {
    seq(|order|, i requires 0 <= i < |order| => Free(order[i]))
  }

  lemma FreeAllUnfolds(order: seq<nat>)
    requires order != []
    ensures FreeAll(order) != [] && FreeAll(order)[0] == Free(order[0]) && FreeAll(order)[1..] == FreeAll(order[1..])
  {
  }

  /** Freeing the live buffers, each once and in any order, is legal and leaves the fresh area. The last free merges
      backwards past the head of the free list, where the source reads through NULL: `RecoveryMergesPastTheHead`. */
  lemma {:induction false} FreeingAllRecovers(g: Geometry, h: Heap, order: seq<nat>)
    requires g.Ok() && HeapInv(g, h)
    requires forall i, j :: 0 <= i < j < |order| ==> order[i] != order[j]
    requires forall a :: a in order <==> a in h.sizes
    ensures Legal(g, h, FreeAll(order)) && Run(g, h, FreeAll(order)) == Fresh(g)
    decreases |order|
  {
    if order == [] {
      EmptyIffNoneLive(g, h);
    } else {
      var a := order[0];
      FreeAllUnfolds(order);
      StepKeepsInv(g, h, Free(a));
      var k := FreeStepIsFreed(g, h, a);
      var h' := Step(g, h, Free(a));
      forall b ensures b in order[1..] <==> b in h'.sizes {
        assert b in order <==> b == a || b in order[1..];
      }
      FreeingAllRecovers(g, h', order[1..]);
    }
  }

  // ----- conservation -----

  /** Payload bytes of the blocks below index `k` that are in use, or that are free. */
  function PayloadBelow(g: Geometry, bs: seq<Block>, used: bool, k: nat): int
    requires k < |bs|
  {
    if k == 0 then 0
    else PayloadBelow(g, bs, used, k - 1) + if bs[k - 1].used == used then Payload(g, bs, k - 1) else 0
  }

  /** What the free-space query adds up. */
  function FreeSpace(g: Geometry, bs: seq<Block>): int
    requires 0 < |bs|
  {
    PayloadBelow(g, bs, false, |bs| - 1) + Room(g, bs)
  }

  lemma {:induction false} PayloadsFill(g: Geometry, bs: seq<Block>, k: nat)
    requires Chain(g, bs) && k < |bs|
    ensures PayloadBelow(g, bs, false, k) + PayloadBelow(g, bs, true, k) + g.hdr * k == bs[k].addr - g.start
    ensures 0 <= PayloadBelow(g, bs, false, k) <= bs[k].addr - g.start
  {
    if k != 0 {
      PayloadsFill(g, bs, k - 1);
      assert g.hdr * k == g.hdr * (k - 1) + g.hdr;
    }
  }

  lemma SpaceAddsUp(g: Geometry, bs: seq<Block>)
    requires Chain(g, bs)
    ensures FreeSpace(g, bs) + PayloadBelow(g, bs, true, |bs| - 1) + g.hdr * |bs| == g.end - g.start + 1
  {
    PayloadsFill(g, bs, |bs| - 1);
    assert g.hdr * |bs| == g.hdr * (|bs| - 1) + g.hdr;
  }

  /** Free space, live payloads and headers add up to the area in every reachable state. */
  lemma Conservation(g: Geometry, ops: seq<Op>)
    requires g.Ok() && Legal(g, Fresh(g), ops)
    ensures var bs := Run(g, Fresh(g), ops).blocks;
      FreeSpace(g, bs) + PayloadBelow(g, bs, true, |bs| - 1) + g.hdr * |bs| == g.end - g.start + 1
  {
    RunKeepsInv(g, Fresh(g), ops);
    SpaceAddsUp(g, Run(g, Fresh(g), ops).blocks);
  }
}
