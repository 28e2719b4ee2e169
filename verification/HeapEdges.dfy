/**
 Where the light memory manager's arithmetic and pointer reads go wrong, and exactly when: the 32-bit test at the
 tail, an end address that is not the last byte of a word, the free-space answer, and the backward merge.
 */
module HeapEdges {
  import opened HeapModel
  import opened HeapRuns

  // ----- the 32-bit test, for every 32-bit request -----

  /** The test at the tail is right exactly outside the band from 2^31 above the room to 2^32 above it. */
  lemma TruthfulIff(g: Geometry, bs: seq<Block>, n: nat)
    requires g.Ok() && Inv(g, bs) && n < WRAP
    ensures Truthful(g, bs, n) <==> n + g.hdr <= Room(g, bs) + HALF || WRAP + Room(g, bs) < n + g.hdr
  {
    TailTestIsExact(g, Room(g, bs), n);
  }

  /** The block an allocation hands out. */
  function Handed(g: Geometry, bs: seq<Block>, n: nat): nat
    requires 0 < |bs| && !Choose(g, bs, n).Refuse?
  {
    if Choose(g, bs, n).Reuse? then Choose(g, bs, n).index else |bs| - 1
  }

  /** The allocation keeps the area sound, and what it hands out holds the request. */
  ghost predicate Honoured(g: Geometry, bs: seq<Block>, n: nat)
    requires 0 < |bs|
  {
    && Inv(g, Allocated(g, bs, n))
    && (!Choose(g, bs, n).Refuse? ==> n <= Payload(g, Allocated(g, bs, n), Handed(g, bs, n)))
  }

  /** Every 32-bit request is honoured or rightly refused, unless it lies in the band and no free block fits tightly. */
  lemma HonouredIff(g: Geometry, bs: seq<Block>, n: nat)
    requires g.Ok() && Inv(g, bs) && n < WRAP
    ensures Honoured(g, bs, n) <==>
              || (exists i :: 0 <= i < |bs| && FitsTightly(g, bs, i, n))
              || n + g.hdr <= Room(g, bs) + HALF || WRAP + Room(g, bs) < n + g.hdr
    ensures Choose(g, bs, n).Refuse? ==> (forall i :: 0 <= i < |bs| ==> !Fits(g, bs, i, n)) && Room(g, bs) < n + g.hdr
  {
    TruthfulIff(g, bs, n);
    match Choose(g, bs, n)
    case Extend => ExtensionHonoursIffRoom(g, bs, n);
    case Reuse(i) => ReuseIsHonoured(g, bs, n, i);
    case Refuse =>
  }

  lemma ReuseIsHonoured(g: Geometry, bs: seq<Block>, n: nat, i: nat)
    requires g.Ok() && Inv(g, bs) && n < WRAP && Choose(g, bs, n) == Reuse(i)
    ensures Honoured(g, bs, n)
    ensures Truthful(g, bs, n) || exists j :: 0 <= j < |bs| && FitsTightly(g, bs, j, n)
  {
    var r := Allocated(g, bs, n);
    assert forall j :: 0 <= j < |bs| ==> r[j].addr == bs[j].addr;
    TruthfulIff(g, bs, n);
  }

  /** A request that wraps to nothing: it is accepted on the fresh area and ruins it. */
  lemma WrappingRequestRuinsTheArea(g: Geometry)
    requires g.Ok()
    ensures var (bs, n) := (Fresh(g).blocks, WRAP - g.hdr);
      0 <= n < WRAP && Inv(g, bs) && Choose(g, bs, n).Extend? && !Inv(g, Allocated(g, bs, n))
  {
    var bs, n := Fresh(g).blocks, WRAP - g.hdr;
    assert WordAligned(bs[0].addr);
    assert Inv(g, bs);
    TruthfulIff(g, bs, n);
    assert forall i :: !Fits(g, bs, i, n);
    assert NewTail(g, bs, n) == RoundUpWord(g.start);
    RoundUpWordIsNextMultiple(g.start);
    var r := Allocated(g, bs, n);
    assert r[0].addr == g.start && r[1].addr == g.start;
  }

  // ----- the free-space query -----

  /** The query's answer: 32 bits of the sum. */
  function FreeAnswer(g: Geometry, bs: seq<Block>): nat
    requires 0 < |bs|
  {
    FreeSpace(g, bs) % WRAP
  }

  /** A free block below the tail that has any payload. */
  ghost predicate FreePayload(g: Geometry, bs: seq<Block>, k: nat)
    requires k < |bs|
  {
    exists i :: 0 <= i < k && !bs[i].used && 0 < Payload(g, bs, i)
  }

  /** The free payload is zero, or at least a word and then some block has it. */
  lemma {:induction false} FreePayloadIsWords(g: Geometry, bs: seq<Block>, k: nat)
    requires Chain(g, bs) && g.hdr % 4 == 0 && k < |bs|
    ensures FreePayload(g, bs, k) ==> 4 <= PayloadBelow(g, bs, false, k)
    ensures !FreePayload(g, bs, k) ==> PayloadBelow(g, bs, false, k) == 0
  {
    if k != 0 {
      FreePayloadIsWords(g, bs, k - 1);
      PayloadIsWords(g, bs, k - 1);
    }
  }

  /** The sum is not negative exactly when there is room at the tail, or a free block that has any payload. */
  lemma FreeSpaceSign(g: Geometry, bs: seq<Block>)
    requires g.Ok() && Inv(g, bs)
    ensures 0 <= FreeSpace(g, bs) <==> 0 <= Room(g, bs) || FreePayload(g, bs, |bs| - 1)
    ensures -4 < FreeSpace(g, bs) < WRAP
  {
    FreePayloadIsWords(g, bs, |bs| - 1);
    PayloadsFill(g, bs, |bs| - 1);
  }

  /** The answer, payloads in use and headers add up to the area exactly when the sum is not negative. */
  lemma AnswerAddsUpIff(g: Geometry, bs: seq<Block>)
    requires g.Ok() && Inv(g, bs)
    ensures FreeAnswer(g, bs) + PayloadBelow(g, bs, true, |bs| - 1) + g.hdr * |bs| == g.end - g.start + 1
       <==> 0 <= Room(g, bs) || FreePayload(g, bs, |bs| - 1)
  {
    FreeSpaceSign(g, bs);
    SpaceAddsUp(g, bs);
    AnswerIsSum(FreeSpace(g, bs));
  }

  lemma AnswerIsSum(x: int)
    requires -4 < x < WRAP
    ensures x % WRAP == if 0 <= x then x else x + WRAP
  {
  }

  /** There is room at the tail exactly when its header ends in the area. */
  lemma RoomIffInArea(g: Geometry, bs: seq<Block>)
    requires 0 < |bs|
    ensures 0 <= Room(g, bs) <==> InArea(g, bs)
  {
  }

  /** Over every run the query's answer conserves space exactly in the states with room or free payload, and always
      does when the tail's header is in the area, as it is if `end_address + 1` is word-aligned. */
  lemma ConservationOfAnswer(g: Geometry, ops: seq<Op>)
    requires g.Ok() && Legal(g, Fresh(g), ops)
    ensures var bs := Run(g, Fresh(g), ops).blocks;
      && (FreeAnswer(g, bs) + PayloadBelow(g, bs, true, |bs| - 1) + g.hdr * |bs| == g.end - g.start + 1
          <==> InArea(g, bs) || FreePayload(g, bs, |bs| - 1))
      && ((g.end + 1) % 4 == 0 ==> InArea(g, bs))
  {
    RunKeepsInv(g, Fresh(g), ops);
    var bs := Run(g, Fresh(g), ops).blocks;
    AnswerAddsUpIff(g, bs);
    RoomIffInArea(g, bs);
    if (g.end + 1) % 4 == 0 { AlignedEndKeepsInArea(g, bs); }
  }

  /** With an end one past the heap, one allocation that fills it leaves a sum of -3, and an answer just below 2^32. */
  lemma FillingTheHeapOverflowsTheAnswer(g: Geometry)
    requires g.Ok() && g.end % 4 == 0 && g.start + 2 * g.hdr <= g.end + 1
    ensures var n := Room(g, Fresh(g).blocks) - g.hdr;
      && 0 <= n && Legal(g, Fresh(g), [Alloc(n)])
      && var bs := Run(g, Fresh(g), [Alloc(n)]).blocks;
         FreeSpace(g, bs) == -3 && FreeAnswer(g, bs) == 4294967293 && !InArea(g, bs)
  {
    var bs := Fresh(g).blocks;
    var n := Room(g, bs) - g.hdr;
    FreshExtends(g, n);
    OnePastTheEndOverrun(g, bs, n);
    var h := Step(g, Fresh(g), Alloc(n));
    assert [Alloc(n)][1..] == [];
    assert Legal(g, h, []) && Run(g, h, []) == h;
    assert Allocated(g, bs, n)[1].addr + g.hdr == g.end + 4;
    assert PayloadBelow(g, Allocated(g, bs, n), false, 0) == 0;
  }

  // ----- the assertion at the tail -----

  /** An allocation reaches the tail, where it asserts that there is no lack of room, unless a block fits tightly. */
  ghost predicate TailAssertHolds(g: Geometry, bs: seq<Block>, n: nat)
    requires 0 < |bs|
  {
    (exists i :: 0 <= i < |bs| && FitsTightly(g, bs, i, n)) || 0 <= Room(g, bs)
  }

  /** It holds for every request exactly while the tail's header is in the area. */
  lemma TailAssertHoldsIff(g: Geometry, bs: seq<Block>)
    requires g.Ok() && Inv(g, bs)
    ensures (forall n: nat :: n < WRAP ==> TailAssertHolds(g, bs, n)) <==> InArea(g, bs)
  {
    RoomIffInArea(g, bs);
    if Room(g, bs) < 0 {
      var n := WRAP - 1;
      forall i | 0 <= i < |bs| ensures !FitsTightly(g, bs, i, n) { NoBlockIsHuge(g, bs, i); }
      assert !TailAssertHolds(g, bs, n);
    }
  }

  lemma NoBlockIsHuge(g: Geometry, bs: seq<Block>, i: nat)
    requires g.Ok() && Inv(g, bs) && i < |bs|
    ensures i + 1 < |bs| ==> Payload(g, bs, i) < WRAP - 1
  {
  }

  // ----- the backward merge -----

  /** Freeing block `k` merges backwards from the top into the head of the free list, whose `prev_free` is NULL:
      block `k` is the topmost one, and of the blocks below it the free ones are those nearest to it. */
  ghost predicate MergesPastTheHead(bs: seq<Block>, k: nat) {
    k + 2 == |bs| && forall i, j :: 0 <= i < j < k && bs[j].used ==> bs[i].used
  }

  /** Trimming a sequence whose block `k` and the tail above it are free drops at least that tail. */
  lemma TrimsTheTop(bs: seq<Block>, k: nat)
    requires k + 2 == |bs| && !bs[k].used
    ensures |Trimmed(bs)| <= k + 1
  {
    assert bs[..|bs| - 1] == bs[..k + 1];
  }

  /** Such a free, and no other free at the top, leaves a new tail that is the whole free list. */
  lemma MergesPastTheHeadIff(g: Geometry, bs: seq<Block>, k: nat)
    requires g.Ok() && Inv(g, bs) && k < |bs| - 1 && bs[k].used
    ensures MergesPastTheHead(bs, k) <==>
              k + 2 == |bs| && forall i :: 0 <= i < |Freed(bs, k)| - 1 ==> Freed(bs, k)[i].used
  {
    var marked, r := bs[k := bs[k].(used := false)], Freed(bs, k);
    if k + 2 == |bs| {
      TrimsTheTop(marked, k);
      LowestMerged(bs, k, marked, |r| - 1);
      assert forall i :: 0 <= i < |r| ==> r[i] == marked[i];
      assert forall i :: 0 <= i < |r| - 1 ==> r[i] == bs[i];
    }
  }

  /** With `m` the lowest block merged: the free blocks below `k` are those from `m` up exactly when all below `m`
      are in use. */
  lemma LowestMerged(bs: seq<Block>, k: nat, marked: seq<Block>, m: nat)
    requires m <= k && k + 2 == |bs| && marked == bs[k := bs[k].(used := false)]
    requires (forall i :: m <= i < |bs| - 1 ==> !marked[i].used) && (0 < m ==> marked[m - 1].used)
    ensures (forall i, j :: 0 <= i < j < k && bs[j].used ==> bs[i].used) <==> forall i :: 0 <= i < m ==> bs[i].used
  {
    forall j | 0 <= j < k && bs[j].used ensures j < m {
      assert marked[j] == bs[j];
    }
    if 0 < m { assert bs[m - 1].used; }
  }

  /** The first allocation from a fresh area, freed again. */
  lemma AllocateThenFreeMergesPastTheHead(g: Geometry, n: nat)
    requires g.Ok() && n + g.hdr <= Room(g, Fresh(g).blocks)
    ensures var bs := Allocated(g, Fresh(g).blocks, n); |bs| == 2 && bs[0].used && MergesPastTheHead(bs, 0)
  {
    FreshExtends(g, n);
  }

  /** The free of a live buffer merges past the head. */
  ghost predicate FreeMergesPastTheHead(h: Heap, a: nat) {
    IndexOf(h.blocks, a) < |h.blocks| && MergesPastTheHead(h.blocks, IndexOf(h.blocks, a))
  }

  /** So does every free that empties the area. */
  lemma EmptyingMergesPastTheHead(g: Geometry, h: Heap, a: nat)
    requires g.Ok() && HeapInv(g, h) && forall b :: b in h.sizes <==> b == a
    ensures FreeMergesPastTheHead(h, a)
  {
    assert a in h.sizes;
    var i :| LiveAt(h.blocks, i, a);
    IndexOfLive(g, h.blocks, i, a);
    forall j | 0 <= j < |h.blocks| - 1 && h.blocks[j].used ensures j == i {
      assert LiveAt(h.blocks, j, h.blocks[j].addr);
      LiveAtIsUnique(g, h.blocks, i, j);
    }
  }

  lemma RecoveryStep(g: Geometry, h: Heap, order: seq<nat>)
    requires g.Ok() && HeapInv(g, h) && order != []
    requires forall i, j :: 0 <= i < j < |order| ==> order[i] != order[j]
    requires forall a :: a in order <==> a in h.sizes
    ensures var h' := Step(g, h, Free(order[0]));
      HeapInv(g, h') && forall b :: b in order[1..] <==> b in h'.sizes
  {
    var a := order[0];
    StepKeepsInv(g, h, Free(a));
    var k := FreeStepIsFreed(g, h, a);
    forall b ensures b in order[1..] <==> b in Step(g, h, Free(a)).sizes {
      assert b in order <==> b == a || b in order[1..];
    }
  }

  lemma RunFreeAll(g: Geometry, h: Heap, order: seq<nat>)
    requires 0 < |h.blocks| && order != []
    ensures Run(g, h, FreeAll(order)) == Run(g, Step(g, h, Free(order[0])), FreeAll(order[1..]))
  {
    FreeAllUnfolds(order);
  }

  lemma AllButLast<T>(s: seq<T>)
    requires 1 < |s|
    ensures s[..|s| - 1] != [] && s[..|s| - 1][0] == s[0] && s[..|s| - 1][1..] == s[1..][..|s[1..]| - 1]
    ensures s[1..][|s[1..]| - 1] == s[|s| - 1]
  {
  }

  /** However many buffers are freed to recover the area, and in whatever order, the last free merges past the head. */
  lemma {:induction false} RecoveryMergesPastTheHead(g: Geometry, h: Heap, order: seq<nat>)
    requires g.Ok() && HeapInv(g, h) && order != []
    requires forall i, j :: 0 <= i < j < |order| ==> order[i] != order[j]
    requires forall a :: a in order <==> a in h.sizes
    ensures FreeMergesPastTheHead(Run(g, h, FreeAll(order[..|order| - 1])), order[|order| - 1])
    decreases |order|
  {
    if |order| == 1 {
      EmptyingMergesPastTheHead(g, h, order[0]);
      assert FreeAll(order[..0]) == [];
    } else {
      RecoveryStep(g, h, order);
      RecoveryMergesPastTheHead(g, Step(g, h, Free(order[0])), order[1..]);
      AllButLast(order);
      RunFreeAll(g, h, order[..|order| - 1]);
    }
  }
}
