/**
 The light memory manager's area: headers in raw memory, linked by address, with the free list's head and tail.
 Every method is proved against the block sequence of `HeapModel`, which the ghost field `blocks` holds.
 */
module MemManagerLight {
  import opened HeapModel
  import HeapRuns
  import HeapEdges

  const NULL := 0

  /** A block header as it lies in memory. */
  datatype Header = Header(used: bool, next: nat, nextFree: nat, prevFree: nat)

  datatype MemStatus = MemSuccess | MemFreeError

  // ----- how the headers spell out a block sequence -----

  /** The first free block from index `k` on. */
  ghost function FirstFree(bs: seq<Block>, k: nat): (r: nat)
    requires k < |bs| && !bs[|bs| - 1].used
    ensures k <= r < |bs| && !bs[r].used
    ensures forall j :: k <= j < r ==> bs[j].used
    decreases |bs| - k
  {
    if !bs[k].used then k else FirstFree(bs, k + 1)
  }

  /** The last free block below index `k`, or -1. */
  ghost function LastFree(bs: seq<Block>, k: nat): (r: int)
    requires k <= |bs|
    ensures -1 <= r < k && (0 <= r ==> !bs[r].used)
    ensures forall j :: r < j < k ==> bs[j].used
  {
    if k == 0 then -1 else if !bs[k - 1].used then k - 1 else LastFree(bs, k - 1)
  }

  ghost function PrevFreeAddr(bs: seq<Block>, k: nat): nat
    requires k <= |bs|
  {
    if LastFree(bs, k) < 0 then NULL else bs[LastFree(bs, k)].addr
  }

  /** The header of block `i`: its mark and its successor in the chain. */
  ghost predicate Chained(mem: map<nat, Header>, bs: seq<Block>, i: nat)
    requires i < |bs|
  {
    && bs[i].addr in mem
    && mem[bs[i].addr].used == bs[i].used
    && mem[bs[i].addr].next == (if i + 1 < |bs| then bs[i + 1].addr else NULL)
  }

  /** The free-list links of the free block `i`: the free blocks next to it in address order. */
  ghost predicate FreeLinked(mem: map<nat, Header>, bs: seq<Block>, i: nat)
    requires i < |bs| && !bs[|bs| - 1].used
  {
    && bs[i].addr in mem
    && mem[bs[i].addr].nextFree == (if i + 1 < |bs| then bs[FirstFree(bs, i + 1)].addr else NULL)
    && mem[bs[i].addr].prevFree == PrevFreeAddr(bs, i)
  }

  ghost predicate Linked(mem: map<nat, Header>, head: nat, tail: nat, bs: seq<Block>) {
    && 0 < |bs| && !bs[|bs| - 1].used
    && (forall i {:trigger Chained(mem, bs, i)} :: 0 <= i < |bs| ==> Chained(mem, bs, i))
    && (forall i {:trigger FreeLinked(mem, bs, i)} :: 0 <= i < |bs| && !bs[i].used ==> FreeLinked(mem, bs, i))
    && head == bs[FirstFree(bs, 0)].addr
    && tail == bs[|bs| - 1].addr
  }

  lemma FirstFreeIs(bs: seq<Block>, k: nat, r: nat)
    requires k <= r < |bs| && !bs[|bs| - 1].used && !bs[r].used && forall j :: k <= j < r ==> bs[j].used
    ensures FirstFree(bs, k) == r
  {
  }

  lemma LastFreeIs(bs: seq<Block>, k: nat, r: int)
    requires k <= |bs| && -1 <= r < k && (0 <= r ==> !bs[r].used) && forall j :: r < j < k ==> bs[j].used
    ensures LastFree(bs, k) == r
  {
  }

  // ----- taking a block off the free list -----

  function Used(bs: seq<Block>, i: nat): seq<Block>
    requires i < |bs|
  {
    bs[i := bs[i].(used := true)]
  }

  lemma FirstFreeAfterUse(bs: seq<Block>, i: nat, k: nat)
    requires i < |bs| - 1 && k < |bs| && !bs[|bs| - 1].used
    ensures FirstFree(Used(bs, i), k) == if FirstFree(bs, k) == i then FirstFree(bs, i + 1) else FirstFree(bs, k)
  {
    FirstFreeIs(Used(bs, i), k, if FirstFree(bs, k) == i then FirstFree(bs, i + 1) else FirstFree(bs, k));
  }

  lemma LastFreeAfterUse(bs: seq<Block>, i: nat, k: nat)
    requires i < |bs| && k <= |bs|
    ensures LastFree(Used(bs, i), k) == if LastFree(bs, k) == i then LastFree(bs, i) else LastFree(bs, k)
  {
    LastFreeIs(Used(bs, i), k, if LastFree(bs, k) == i then LastFree(bs, i) else LastFree(bs, k));
  }

  /** The writes that unlink the free block at `a`: its mark, and the links of its two free neighbours. */
  ghost predicate UnlinkWrites(mem: map<nat, Header>, a: nat, mem': map<nat, Header>)
    requires a in mem
  {
    var nx, pv := mem[a].nextFree, mem[a].prevFree;
    && (forall x {:trigger x in mem'} {:trigger mem'[x]} :: x in mem && x != a && x != nx && x != pv ==>
          x in mem' && mem'[x] == mem[x])
    && a in mem' && mem'[a] == mem[a].(used := true)
    && nx in mem && nx in mem' && mem'[nx] == mem[nx].(prevFree := pv)
    && (pv != NULL ==> pv in mem && pv in mem' && mem'[pv] == mem[pv].(nextFree := nx))
  }

  /** Blocks have addresses of their own, and none is NULL. */
  ghost predicate Named(bs: seq<Block>) {
    && (forall i, j :: 0 <= i < j < |bs| ==> bs[i].addr != bs[j].addr)
    && (forall i :: 0 <= i < |bs| ==> bs[i].addr != NULL)
  }

  lemma ChainIsNamed(g: Geometry, bs: seq<Block>)
    requires g.Ok() && Chain(g, bs)
    ensures Named(bs)
  {
  }

  lemma NextIffPrev(bs: seq<Block>, i: nat, j: nat)
    requires i < j < |bs| && !bs[i].used && !bs[j].used && !bs[|bs| - 1].used
    ensures FirstFree(bs, i + 1) == j <==> LastFree(bs, j) == i
  {
  }

  lemma UnlinkKeepsChained(mem: map<nat, Header>, bs: seq<Block>, i: nat, mem': map<nat, Header>, j: nat)
    requires Named(bs) && i < |bs| && !bs[i].used && j < |bs|
    requires Chained(mem, bs, j) && Chained(mem, bs, i) && UnlinkWrites(mem, bs[i].addr, mem')
    ensures Chained(mem', Used(bs, i), j)
  {
  }

  lemma UnlinkKeepsNext(mem: map<nat, Header>, bs: seq<Block>, i: nat, mem': map<nat, Header>, j: nat)
    requires Named(bs) && i < |bs| - 1 && !bs[i].used && j < |bs| && !bs[j].used && i != j && !bs[|bs| - 1].used
    requires FreeLinked(mem, bs, j) && FreeLinked(mem, bs, i) && UnlinkWrites(mem, bs[i].addr, mem')
    ensures bs[j].addr in mem'
    ensures mem'[bs[j].addr].nextFree ==
              if j + 1 < |bs| then bs[FirstFree(Used(bs, i), j + 1)].addr else NULL
  {
    if j < i { NextIffPrev(bs, j, i); }
    if j + 1 < |bs| { FirstFreeAfterUse(bs, i, j + 1); }
  }

  lemma UnlinkKeepsPrev(mem: map<nat, Header>, bs: seq<Block>, i: nat, mem': map<nat, Header>, j: nat)
    requires Named(bs) && i < |bs| - 1 && !bs[i].used && j < |bs| && !bs[j].used && i != j && !bs[|bs| - 1].used
    requires FreeLinked(mem, bs, j) && FreeLinked(mem, bs, i) && UnlinkWrites(mem, bs[i].addr, mem')
    ensures bs[j].addr in mem' && mem'[bs[j].addr].prevFree == PrevFreeAddr(Used(bs, i), j)
  {
    if i < j { NextIffPrev(bs, i, j); }
    LastFreeAfterUse(bs, i, j);
  }

  lemma UnlinkKeepsFreeLinked(mem: map<nat, Header>, bs: seq<Block>, i: nat, mem': map<nat, Header>, j: nat)
    requires Named(bs) && i < |bs| - 1 && !bs[i].used && j < |bs| && !bs[j].used && i != j && !bs[|bs| - 1].used
    requires FreeLinked(mem, bs, j) && FreeLinked(mem, bs, i) && UnlinkWrites(mem, bs[i].addr, mem')
    ensures FreeLinked(mem', Used(bs, i), j)
  {
    UnlinkKeepsNext(mem, bs, i, mem', j);
    UnlinkKeepsPrev(mem, bs, i, mem', j);
  }

  lemma UnlinkKeepsHead(mem: map<nat, Header>, head: nat, tail: nat, bs: seq<Block>, i: nat, head': nat)
    requires Named(bs) && Linked(mem, head, tail, bs) && i < |bs| - 1 && !bs[i].used && FreeLinked(mem, bs, i)
    requires head' == if head == bs[i].addr then mem[bs[i].addr].nextFree else head
    ensures head' == Used(bs, i)[FirstFree(Used(bs, i), 0)].addr
  {
    FirstFreeAfterUse(bs, i, 0);
  }

  lemma UnlinkKeepsLinked(mem: map<nat, Header>, head: nat, tail: nat, bs: seq<Block>, i: nat,
                          mem': map<nat, Header>, head': nat)
    requires Named(bs) && Linked(mem, head, tail, bs) && i < |bs| - 1 && !bs[i].used
    requires bs[i].addr in mem && UnlinkWrites(mem, bs[i].addr, mem')
    requires head' == if head == bs[i].addr then mem[bs[i].addr].nextFree else head
    ensures Linked(mem', head', tail, Used(bs, i))
  {
    var r := Used(bs, i);
    assert Chained(mem, bs, i) && FreeLinked(mem, bs, i);
    UnlinkKeepsHead(mem, head, tail, bs, i, head');
    forall j {:trigger Chained(mem', r, j)} | 0 <= j < |r| ensures Chained(mem', r, j) {
      assert Chained(mem, bs, j);
      UnlinkKeepsChained(mem, bs, i, mem', j);
    }
    forall j {:trigger FreeLinked(mem', r, j)} | 0 <= j < |r| && !r[j].used ensures FreeLinked(mem', r, j) {
      assert FreeLinked(mem, bs, j);
      UnlinkKeepsFreeLinked(mem, bs, i, mem', j);
    }
  }

  // ----- turning the tail into a buffer below a new tail -----

  function Extended(bs: seq<Block>, newTail: nat): seq<Block>
    requires 0 < |bs|
  {
    Used(bs, |bs| - 1) + [Block(newTail, false)]
  }

  lemma FirstFreeExtended(bs: seq<Block>, newTail: nat, k: nat)
    requires k < |bs| && !bs[|bs| - 1].used
    ensures FirstFree(Extended(bs, newTail), k) ==
              if FirstFree(bs, k) == |bs| - 1 then |bs| else FirstFree(bs, k)
    ensures FirstFree(Extended(bs, newTail), |bs|) == |bs|
  {
    FirstFreeIs(Extended(bs, newTail), k, if FirstFree(bs, k) == |bs| - 1 then |bs| else FirstFree(bs, k));
  }

  lemma LastFreeExtended(bs: seq<Block>, newTail: nat, k: nat)
    requires k < |bs|
    ensures LastFree(Extended(bs, newTail), k) == LastFree(bs, k)
    ensures LastFree(Extended(bs, newTail), |bs|) == LastFree(bs, |bs| - 1)
  {
    LastFreeIs(Extended(bs, newTail), k, LastFree(bs, k));
    LastFreeIs(Extended(bs, newTail), |bs|, LastFree(bs, |bs| - 1));
  }

  ghost predicate ExtendWrites(mem: map<nat, Header>, a: nat, newTail: nat, mem': map<nat, Header>)
    requires a in mem
  {
    var pv := mem[a].prevFree;
    && (forall x {:trigger x in mem'} {:trigger mem'[x]} :: x in mem && x != a && x != newTail && x != pv ==>
          x in mem' && mem'[x] == mem[x])
    && a in mem' && mem'[a] == Header(true, newTail, newTail, pv)
    && newTail in mem' && mem'[newTail] == Header(false, NULL, NULL, pv)
    && (pv != NULL ==> pv in mem && pv in mem' && mem'[pv] == mem[pv].(nextFree := newTail))
  }

  lemma ExtendKeepsChained(mem: map<nat, Header>, bs: seq<Block>, newTail: nat, mem': map<nat, Header>, j: nat)
    requires 0 < |bs| && Named(Extended(bs, newTail)) && !bs[|bs| - 1].used && j <= |bs|
    requires bs[|bs| - 1].addr in mem && FreeLinked(mem, bs, |bs| - 1)
    requires ExtendWrites(mem, bs[|bs| - 1].addr, newTail, mem') && (j < |bs| ==> Chained(mem, bs, j))
    ensures Chained(mem', Extended(bs, newTail), j)
  {
    assert forall i :: 0 <= i < |bs| ==> Extended(bs, newTail)[i].addr == bs[i].addr;
    assert Extended(bs, newTail)[|bs|].addr == newTail;
  }

  lemma ExtendKeepsFreeLinked(mem: map<nat, Header>, bs: seq<Block>, newTail: nat, mem': map<nat, Header>, j: nat)
    requires 0 < |bs| && Named(Extended(bs, newTail)) && !bs[|bs| - 1].used && j < |bs| - 1 && !bs[j].used
    requires FreeLinked(mem, bs, |bs| - 1) && FreeLinked(mem, bs, j)
    requires ExtendWrites(mem, bs[|bs| - 1].addr, newTail, mem')
    ensures FreeLinked(mem', Extended(bs, newTail), j)
  {
    assert forall i :: 0 <= i < |bs| ==> Extended(bs, newTail)[i].addr == bs[i].addr;
    assert Extended(bs, newTail)[|bs|].addr == newTail;
    NextIffPrev(bs, j, |bs| - 1);
    FirstFreeExtended(bs, newTail, j + 1);
    LastFreeExtended(bs, newTail, j);
  }

  lemma ExtendLinksTail(mem: map<nat, Header>, bs: seq<Block>, newTail: nat, mem': map<nat, Header>)
    requires 0 < |bs| && !bs[|bs| - 1].used && FreeLinked(mem, bs, |bs| - 1)
    requires ExtendWrites(mem, bs[|bs| - 1].addr, newTail, mem')
    ensures FreeLinked(mem', Extended(bs, newTail), |bs|)
  {
    LastFreeExtended(bs, newTail, |bs| - 1);
  }

  lemma ExtendKeepsLinked(mem: map<nat, Header>, head: nat, bs: seq<Block>, newTail: nat,
                          mem': map<nat, Header>, head': nat)
    requires 0 < |bs| && Named(bs) && Named(Extended(bs, newTail)) && Linked(mem, head, bs[|bs| - 1].addr, bs)
    requires bs[|bs| - 1].addr in mem && ExtendWrites(mem, bs[|bs| - 1].addr, newTail, mem')
    requires head' == if head == bs[|bs| - 1].addr then newTail else head
    ensures Linked(mem', head', newTail, Extended(bs, newTail))
  {
    var r := Extended(bs, newTail);
    assert FreeLinked(mem, bs, |bs| - 1);
    forall j {:trigger Chained(mem', r, j)} | 0 <= j < |r| ensures Chained(mem', r, j) {
      if j < |bs| { assert Chained(mem, bs, j); }
      ExtendKeepsChained(mem, bs, newTail, mem', j);
    }
    forall j {:trigger FreeLinked(mem', r, j)} | 0 <= j < |r| && !r[j].used ensures FreeLinked(mem', r, j) {
      if j < |bs| {
        assert FreeLinked(mem, bs, j);
        ExtendKeepsFreeLinked(mem, bs, newTail, mem', j);
      } else {
        ExtendLinksTail(mem, bs, newTail, mem');
      }
    }
    ExtendKeepsHead(bs, newTail, head, head');
  }

  lemma ExtendKeepsHead(bs: seq<Block>, newTail: nat, head: nat, head': nat)
    requires 0 < |bs| && Named(bs) && !bs[|bs| - 1].used && head == bs[FirstFree(bs, 0)].addr
    requires head' == if head == bs[|bs| - 1].addr then newTail else head
    ensures head' == Extended(bs, newTail)[FirstFree(Extended(bs, newTail), 0)].addr
  {
    var f := FirstFree(bs, 0);
    FirstFreeExtended(bs, newTail, 0);
    assert Extended(bs, newTail)[f].addr == bs[f].addr;
    assert Extended(bs, newTail)[|bs|].addr == newTail;
  }

  // ----- putting a block on the free list -----

  function Unused(bs: seq<Block>, k: nat): seq<Block>
    requires k < |bs|
  {
    bs[k := bs[k].(used := false)]
  }

  /** The writes that put the block at `a` between its free neighbours. */
  ghost predicate LinkWrites(mem: map<nat, Header>, a: nat, nx: nat, pv: nat, mem': map<nat, Header>)
    requires a in mem
  {
    && (forall x {:trigger x in mem'} {:trigger mem'[x]} :: x in mem && x != a && x != nx && x != pv ==>
          x in mem' && mem'[x] == mem[x])
    && a in mem' && mem'[a] == Header(false, mem[a].next, nx, pv)
    && nx in mem && nx in mem' && mem'[nx] == mem[nx].(prevFree := a)
    && (pv != NULL ==> pv in mem && pv in mem' && mem'[pv] == mem[pv].(nextFree := a))
  }

  lemma LinkKeepsChained(mem: map<nat, Header>, bs: seq<Block>, k: nat, mem': map<nat, Header>, j: nat)
    requires Named(bs) && k < |bs| - 1 && bs[k].used && j < |bs| && !bs[|bs| - 1].used
    requires Chained(mem, bs, j) && Chained(mem, bs, k)
    requires LinkWrites(mem, bs[k].addr, bs[FirstFree(bs, k + 1)].addr, PrevFreeAddr(bs, k), mem')
    ensures Chained(mem', Unused(bs, k), j)
  {
  }

  lemma LinkKeepsNext(mem: map<nat, Header>, bs: seq<Block>, k: nat, mem': map<nat, Header>, j: nat)
    requires Named(bs) && k < |bs| - 1 && bs[k].used && j < |bs| && !bs[j].used && !bs[|bs| - 1].used
    requires FreeLinked(mem, bs, j) && Chained(mem, bs, k)
    requires LinkWrites(mem, bs[k].addr, bs[FirstFree(bs, k + 1)].addr, PrevFreeAddr(bs, k), mem')
    ensures bs[j].addr in mem'
    ensures mem'[bs[j].addr].nextFree ==
              if j + 1 < |bs| then bs[FirstFree(Unused(bs, k), j + 1)].addr else NULL
  {
    var r := Unused(bs, k);
    assert bs == Used(r, k);
    LastFreeAfterUse(r, k, k);
    if j < k { NextIffPrev(r, j, k); }
    if j + 1 < |bs| { FirstFreeAfterUse(r, k, j + 1); }
  }

  lemma LinkKeepsPrev(mem: map<nat, Header>, bs: seq<Block>, k: nat, mem': map<nat, Header>, j: nat)
    requires Named(bs) && k < |bs| - 1 && bs[k].used && j < |bs| && !bs[j].used && !bs[|bs| - 1].used
    requires FreeLinked(mem, bs, j) && Chained(mem, bs, k)
    requires LinkWrites(mem, bs[k].addr, bs[FirstFree(bs, k + 1)].addr, PrevFreeAddr(bs, k), mem')
    ensures bs[j].addr in mem' && mem'[bs[j].addr].prevFree == PrevFreeAddr(Unused(bs, k), j)
  {
    var r := Unused(bs, k);
    assert bs == Used(r, k);
    FirstFreeAfterUse(r, k, k + 1);
    if k < j { NextIffPrev(r, k, j); }
    LastFreeAfterUse(r, k, j);
  }

  lemma LinkKeepsFreeLinked(mem: map<nat, Header>, bs: seq<Block>, k: nat, mem': map<nat, Header>, j: nat)
    requires Named(bs) && k < |bs| - 1 && bs[k].used && j < |bs| && !bs[j].used && !bs[|bs| - 1].used
    requires FreeLinked(mem, bs, j) && Chained(mem, bs, k)
    requires LinkWrites(mem, bs[k].addr, bs[FirstFree(bs, k + 1)].addr, PrevFreeAddr(bs, k), mem')
    ensures FreeLinked(mem', Unused(bs, k), j)
  {
    LinkKeepsNext(mem, bs, k, mem', j);
    LinkKeepsPrev(mem, bs, k, mem', j);
  }

  lemma LinkLinksBlock(mem: map<nat, Header>, bs: seq<Block>, k: nat, mem': map<nat, Header>)
    requires k < |bs| - 1 && bs[k].used && !bs[|bs| - 1].used && Chained(mem, bs, k)
    requires LinkWrites(mem, bs[k].addr, bs[FirstFree(bs, k + 1)].addr, PrevFreeAddr(bs, k), mem')
    ensures FreeLinked(mem', Unused(bs, k), k)
  {
    var r := Unused(bs, k);
    assert bs == Used(r, k);
    FirstFreeAfterUse(r, k, k + 1);
    LastFreeAfterUse(r, k, k);
  }

  lemma LinkKeepsHead(bs: seq<Block>, k: nat, head: nat, head': nat)
    requires k < |bs| - 1 && bs[k].used && !bs[|bs| - 1].used && head == bs[FirstFree(bs, 0)].addr
    requires head' == if PrevFreeAddr(bs, k) == NULL then bs[k].addr else head
    requires Named(bs)
    ensures head' == Unused(bs, k)[FirstFree(Unused(bs, k), 0)].addr
  {
    FirstFreeIs(Unused(bs, k), 0, if LastFree(bs, k) < 0 then k else FirstFree(bs, 0));
  }

  lemma LinkKeepsLinked(mem: map<nat, Header>, head: nat, tail: nat, bs: seq<Block>, k: nat,
                        mem': map<nat, Header>, head': nat)
    requires Named(bs) && Linked(mem, head, tail, bs) && k < |bs| - 1 && bs[k].used && bs[k].addr in mem
    requires LinkWrites(mem, bs[k].addr, bs[FirstFree(bs, k + 1)].addr, PrevFreeAddr(bs, k), mem')
    requires head' == if PrevFreeAddr(bs, k) == NULL then bs[k].addr else head
    ensures Linked(mem', head', tail, Unused(bs, k))
  {
    var r := Unused(bs, k);
    assert Chained(mem, bs, k);
    forall j {:trigger Chained(mem', r, j)} | 0 <= j < |r| ensures Chained(mem', r, j) {
      assert Chained(mem, bs, j);
      LinkKeepsChained(mem, bs, k, mem', j);
    }
    forall j {:trigger FreeLinked(mem', r, j)} | 0 <= j < |r| && !r[j].used ensures FreeLinked(mem', r, j) {
      if j == k {
        LinkLinksBlock(mem, bs, k, mem');
      } else {
        assert FreeLinked(mem, bs, j);
        LinkKeepsFreeLinked(mem, bs, k, mem', j);
      }
    }
    LinkKeepsHead(bs, k, head, head');
  }

  // ----- melding the topmost free blocks into the unused top -----

  ghost predicate MeldWrites(mem: map<nat, Header>, bs: seq<Block>, m: nat, mem': map<nat, Header>)
    requires m < |bs| && bs[m].addr in mem
  {
    && (forall j :: 0 <= j < m && bs[j].addr in mem ==> bs[j].addr in mem' && mem'[bs[j].addr] == mem[bs[j].addr])
    && bs[m].addr in mem'
    && mem'[bs[m].addr] == Header(false, NULL, NULL, mem[bs[m].addr].prevFree)
  }

  lemma FirstFreePrefix(bs: seq<Block>, m: nat, k: nat)
    requires k <= m < |bs| && !bs[m].used && !bs[|bs| - 1].used
    ensures FirstFree(bs[..m + 1], k) == FirstFree(bs, k)
  {
    FirstFreeIs(bs[..m + 1], k, FirstFree(bs, k));
  }

  lemma LastFreePrefix(bs: seq<Block>, m: nat, k: nat)
    requires k <= m < |bs|
    ensures LastFree(bs[..m + 1], k) == LastFree(bs, k)
  {
    LastFreeIs(bs[..m + 1], k, LastFree(bs, k));
  }

  lemma MeldKeepsFreeLinked(mem: map<nat, Header>, bs: seq<Block>, m: nat, mem': map<nat, Header>, j: nat)
    requires m < |bs| && !bs[m].used && !bs[|bs| - 1].used && bs[m].addr in mem && MeldWrites(mem, bs, m, mem')
    requires j <= m && !bs[j].used && FreeLinked(mem, bs, j)
    ensures FreeLinked(mem', bs[..m + 1], j)
  {
    if j < m { FirstFreePrefix(bs, m, j + 1); }
    LastFreePrefix(bs, m, j);
  }

  lemma MeldKeepsLinked(mem: map<nat, Header>, head: nat, tail: nat, bs: seq<Block>, m: nat, mem': map<nat, Header>)
    requires Linked(mem, head, tail, bs) && m < |bs| && !bs[m].used && bs[m].addr in mem
    requires MeldWrites(mem, bs, m, mem')
    ensures Linked(mem', head, bs[m].addr, bs[..m + 1])
  {
    var r := bs[..m + 1];
    forall j {:trigger Chained(mem', r, j)} | 0 <= j < |r| ensures Chained(mem', r, j) {
      assert Chained(mem, bs, j);
    }
    forall j {:trigger FreeLinked(mem', r, j)} | 0 <= j < |r| && !r[j].used ensures FreeLinked(mem', r, j) {
      assert FreeLinked(mem, bs, j);
      MeldKeepsFreeLinked(mem, bs, m, mem', j);
    }
    FirstFreePrefix(bs, m, 0);
  }

  // ----- what the methods read before they write -----

  lemma FreeNeighbours(mem: map<nat, Header>, head: nat, tail: nat, bs: seq<Block>, i: nat)
    requires Named(bs) && Linked(mem, head, tail, bs) && i < |bs| - 1 && !bs[i].used
    ensures bs[i].addr in mem
    ensures var a, nx, pv := bs[i].addr, mem[bs[i].addr].nextFree, mem[bs[i].addr].prevFree;
      && nx in mem && nx != a && nx != NULL && nx != pv
      && (head == a <==> pv == NULL) && (pv != NULL ==> pv in mem && pv != a)
  {
    var n, p := FirstFree(bs, i + 1), LastFree(bs, i);
    assert FreeLinked(mem, bs, i) && Chained(mem, bs, n);
    if 0 <= p { assert Chained(mem, bs, p); }
  }

  lemma TailLinks(mem: map<nat, Header>, head: nat, tail: nat, bs: seq<Block>)
    requires Linked(mem, head, tail, bs)
    ensures tail in mem && mem[tail].next == NULL
    ensures mem[tail].prevFree != NULL ==> mem[tail].prevFree in mem
    ensures Named(bs) ==> (head == tail <==> mem[tail].prevFree == NULL) && mem[tail].prevFree != tail
    ensures mem[tail].prevFree == PrevFreeAddr(bs, |bs| - 1)
  {
    var t := |bs| - 1;
    assert FreeLinked(mem, bs, t) && Chained(mem, bs, t);
    var p := LastFree(bs, t);
    if 0 <= p { assert Chained(mem, bs, p); }
  }

  /** A new tail that clashes with no block, and lies above 0, has an address of its own. */
  lemma NewTailIsApart(bs: seq<Block>, next: nat)
    requires 0 < |bs| && Named(Extended(bs, next))
    ensures Named(bs) && next != NULL && forall i :: 0 <= i < |bs| ==> bs[i].addr != next
  {
    var r := Extended(bs, next);
    assert forall i :: 0 <= i < |bs| ==> r[i].addr == bs[i].addr;
    assert r[|bs|].addr == next;
  }

  /** The index of the block whose buffer starts at `buffer`. */
  ghost predicate BufferAt(g: Geometry, bs: seq<Block>, k: nat, buffer: nat) {
    k < |bs| - 1 && bs[k].used && buffer == bs[k].addr + g.hdr
  }

  lemma ExtensionIsLinked(g: Geometry, mem: map<nat, Header>, head: nat, bs: seq<Block>, n: nat,
                          mem': map<nat, Header>, head': nat)
    requires 0 < |bs| && Named(Extended(bs, NewTail(g, bs, n)))
    requires Linked(mem, head, bs[|bs| - 1].addr, bs) && bs[|bs| - 1].addr in mem
    requires var a, next := bs[|bs| - 1].addr, NewTail(g, bs, n);
      var mem1 := mem[a := mem[a].(used := true, next := next, nextFree := next)];
      var mem2 := mem1[next := Header(false, NULL, NULL, mem[a].prevFree)];
      if head == a then mem' == mem2
      else mem[a].prevFree in mem2 && mem' == mem2[mem[a].prevFree := mem2[mem[a].prevFree].(nextFree := next)]
    requires head' == if head == bs[|bs| - 1].addr then NewTail(g, bs, n) else head
    ensures Linked(mem', head', NewTail(g, bs, n), Extended(bs, NewTail(g, bs, n)))
  {
    var a, next := bs[|bs| - 1].addr, NewTail(g, bs, n);
    NewTailIsApart(bs, next);
    TailLinks(mem, head, a, bs);
    assert mem[a].prevFree != next && next != a;
    assert ExtendWrites(mem, a, next, mem');
    ExtendKeepsLinked(mem, head, bs, next, mem', head');
  }

  /** An address below the block `k` is exactly an address of a block before it. */
  lemma OrderOfAddrs(g: Geometry, bs: seq<Block>)
    requires Chain(g, bs)
    ensures forall i, j :: 0 <= i < |bs| && 0 <= j < |bs| ==> (bs[i].addr < bs[j].addr <==> i < j)
  {
  }

  lemma AllInMemory(mem: map<nat, Header>, head: nat, tail: nat, bs: seq<Block>)
    requires Linked(mem, head, tail, bs)
    ensures forall i :: 0 <= i < |bs| ==> bs[i].addr in mem && mem[bs[i].addr].used == bs[i].used
  {
    forall i | 0 <= i < |bs| ensures bs[i].addr in mem && mem[bs[i].addr].used == bs[i].used {
      assert Chained(mem, bs, i);
    }
  }

  lemma BelowHead(g: Geometry, bs: seq<Block>, k: nat)
    requires Chain(g, bs) && k < |bs| - 1 && bs[k].used
    ensures bs[k].addr < bs[FirstFree(bs, 0)].addr <==> LastFree(bs, k) == -1
    ensures LastFree(bs, k) == -1 ==> FirstFree(bs, k + 1) == FirstFree(bs, 0)
    ensures LastFree(bs, k) != -1 ==> FirstFree(bs, 0) < k
  {
    var f := FirstFree(bs, 0);
    OrderOfAddrs(g, bs);
    assert bs[k].addr < bs[f].addr <==> k < f;
    if k < f { FirstFreeIs(bs, k + 1, f); }
  }

  /** One step down from the free block `m`: the block below it on the free list is adjacent, or a used block is. */
  lemma MeldStep(mem: map<nat, Header>, head: nat, tail: nat, bs: seq<Block>, m: nat)
    requires Named(bs) && Linked(mem, head, tail, bs) && m < |bs| && !bs[m].used
    ensures var p := LastFree(bs, m);
      if p < 0 then 0 < m ==> bs[m - 1].used
      else
        && bs[p].addr in mem && !mem[bs[p].addr].used && mem[bs[p].addr].prevFree == PrevFreeAddr(bs, p)
        && bs[p].addr != NULL && bs[p].addr != bs[m].addr
        && if mem[bs[p].addr].next == bs[m].addr then p == m - 1 else bs[m - 1].used
  {
    var p := LastFree(bs, m);
    if 0 <= p { assert Chained(mem, bs, p) && FreeLinked(mem, bs, p); }
  }

  /** Part-way through melding: the run from block `m` up is free, and nothing below `m` has been written. */
  ghost predicate Melding(mem0: map<nat, Header>, bs: seq<Block>, m: nat, mem: map<nat, Header>) {
    && m < |bs| && (forall i :: m <= i < |bs| ==> !bs[i].used)
    && bs[m].addr in mem0 && bs[m].addr in mem
    && !mem[bs[m].addr].used && mem[bs[m].addr].prevFree == mem0[bs[m].addr].prevFree
    && forall i :: 0 <= i < m && bs[i].addr in mem0 ==> bs[i].addr in mem && mem[bs[i].addr] == mem0[bs[i].addr]
  }

  function Absorbed(mem: map<nat, Header>, prev: nat, block: nat): map<nat, Header>
    requires prev in mem && block in mem
  {
    mem[prev := mem[prev].(nextFree := mem[block].nextFree, next := mem[block].next)]
  }

  lemma MeldingStep(mem0: map<nat, Header>, head: nat, tail: nat, bs: seq<Block>, m: nat, mem: map<nat, Header>)
    requires Named(bs) && Linked(mem0, head, tail, bs) && Melding(mem0, bs, m, mem)
    ensures var prev := mem[bs[m].addr].prevFree;
      && (prev != NULL ==> prev in mem)
      && if prev != NULL && mem[prev].next == bs[m].addr
         then 0 < m && prev == bs[m - 1].addr && Melding(mem0, bs, m - 1, Absorbed(mem, prev, bs[m].addr))
         else 0 < m ==> bs[m - 1].used
  {
    assert FreeLinked(mem0, bs, m);
    MeldStep(mem0, head, tail, bs, m);
  }

  /** The melding walk meets NULL exactly when every block below is in use. */
  lemma MeldingStops(mem0: map<nat, Header>, head: nat, tail: nat, bs: seq<Block>, m: nat, mem: map<nat, Header>)
    requires Named(bs) && Linked(mem0, head, tail, bs) && Melding(mem0, bs, m, mem) && (0 < m ==> bs[m - 1].used)
    ensures mem[bs[m].addr].prevFree == NULL <==> forall i :: 0 <= i < |Trimmed(bs)| - 1 ==> Trimmed(bs)[i].used
  {
    assert FreeLinked(mem0, bs, m);
    TrimmedIs(bs, m);
    var p := LastFree(bs, m);
    if 0 <= p { assert !bs[..m + 1][p].used; }
  }

  /** One step of the walk up to the used block `k` from the free block `p` below it. */
  lemma WalkStep(g: Geometry, mem: map<nat, Header>, head: nat, tail: nat, bs: seq<Block>, k: nat, p: nat)
    requires Chain(g, bs) && Linked(mem, head, tail, bs) && k < |bs| - 1 && bs[k].used && p < k && !bs[p].used
    ensures var n := FirstFree(bs, p + 1);
      && bs[p].addr in mem && bs[n].addr in mem && mem[bs[p].addr].nextFree == bs[n].addr
      && if bs[n].addr < bs[k].addr then n < k else LastFree(bs, k) == p && FirstFree(bs, k + 1) == n
  {
    var n := FirstFree(bs, p + 1);
    assert FreeLinked(mem, bs, p) && Chained(mem, bs, n);
    OrderOfAddrs(g, bs);
    assert bs[n].addr < bs[k].addr <==> n < k;
    if k < n {
      LastFreeIs(bs, k, p);
      FirstFreeIs(bs, k + 1, n);
    }
  }

  /** Ending the melding walk at block `m`: the blocks up to `m` are what trimming leaves. */
  lemma MeldEnds(mem: map<nat, Header>, head: nat, tail: nat, bs: seq<Block>, m: nat, mem': map<nat, Header>)
    requires Linked(mem, head, tail, bs) && m < |bs|
    requires (forall i :: m <= i < |bs| ==> !bs[i].used) && (0 < m ==> bs[m - 1].used)
    requires bs[m].addr in mem && MeldWrites(mem, bs, m, mem')
    ensures Linked(mem', head, bs[m].addr, Trimmed(bs))
  {
    TrimmedIs(bs, m);
    MeldKeepsLinked(mem, head, tail, bs, m, mem');
  }

  /** What the steps of a free need of the sequence they start from, and leave of it. */
  lemma FreeSteps(g: Geometry, bs: seq<Block>, k: nat)
    requires g.Ok() && Inv(g, bs) && k < |bs| - 1 && bs[k].used
    ensures Named(bs) && Named(Unused(bs, k)) && (k == |bs| - 2 || Unused(bs, k)[|bs| - 2].used)
    ensures Trimmed(Unused(bs, k)) == Freed(bs, k) && Inv(g, Freed(bs, k))
  {
    ChainIsNamed(g, bs);
    FreeKeepsInv(g, bs, k);
    assert forall i :: 0 <= i < |bs| ==> Unused(bs, k)[i].addr == bs[i].addr;
  }

  lemma {:induction false} TrimmedIs(bs: seq<Block>, m: nat)
    requires m < |bs| && (forall i :: m <= i < |bs| ==> !bs[i].used) && (0 < m ==> bs[m - 1].used)
    ensures Trimmed(bs) == bs[..m + 1]
    decreases |bs|
  {
    if m < |bs| - 1 {
      TrimmedIs(bs[..|bs| - 1], m);
      assert bs[..|bs| - 1][..m + 1] == bs[..m + 1];
    }
  }

  lemma TightIsChosen(g: Geometry, bs: seq<Block>, n: nat, i: nat)
    requires 0 < |bs| && FitsTightly(g, bs, i, n) && forall j :: 0 <= j < i ==> !FitsTightly(g, bs, j, n)
    ensures Choose(g, bs, n) == Reuse(i)
  {
  }

  /** What is left to choose once no block fits tightly; `u` is the first that fits, or |bs|. */
  lemma TailDecides(g: Geometry, bs: seq<Block>, n: nat, u: nat)
    requires 0 < |bs| && u <= |bs| && forall j :: 0 <= j < |bs| ==> !FitsTightly(g, bs, j, n)
    requires (u < |bs| ==> Fits(g, bs, u, n)) && forall j :: 0 <= j < u ==> !Fits(g, bs, j, n)
    ensures Choose(g, bs, n) ==
              if TailServes(g, bs, n) then Extend else if u < |bs| then Reuse(u) else Refuse
  {
  }

  /** Stepping along the free list from the free block `i` skips no block that could fit. */
  lemma NextFree(mem: map<nat, Header>, head: nat, tail: nat, bs: seq<Block>, i: nat)
    requires Linked(mem, head, tail, bs) && i < |bs| && !bs[i].used
    ensures bs[i].addr in mem
    ensures Named(bs) ==> (mem[bs[i].addr].next == NULL <==> i == |bs| - 1)
    ensures i < |bs| - 1 ==> mem[bs[i].addr].next == bs[i + 1].addr
    ensures i < |bs| - 1 ==> mem[bs[i].addr].nextFree == bs[FirstFree(bs, i + 1)].addr
    ensures mem[bs[i].addr].prevFree == PrevFreeAddr(bs, i)
    ensures i == |bs| - 1 ==> mem[bs[i].addr].next == mem[bs[i].addr].nextFree == NULL
    ensures !mem[bs[i].addr].used
  {
    assert Chained(mem, bs, i) && FreeLinked(mem, bs, i);
  }

  class Area {
    const g: Geometry
    var mem: map<nat, Header>
    var head: nat
    var tail: nat
    var lowWatermark: int
    ghost var blocks: seq<Block>

    ghost predicate Valid()
      reads this
    {
      g.Ok() && Inv(g, blocks) && Linked(mem, head, tail, blocks)
    }

    constructor (geometry: Geometry)
      requires geometry.Ok()
      ensures Valid() && g == geometry && blocks == HeapRuns.Fresh(geometry).blocks
      ensures lowWatermark == Room(g, blocks)
    {
      g := geometry;
      mem := map[geometry.start := Header(false, NULL, NULL, NULL)];
      head, tail := geometry.start, geometry.start;
      lowWatermark := geometry.end - (geometry.start + geometry.hdr - 1);
      blocks := [Block(geometry.start, false)];
    }

    /** Marks the free block at `a` used and takes it off the free list. */
    method Unlink(a: nat, ghost i: nat)
      requires Named(blocks) && Linked(mem, head, tail, blocks)
      requires i < |blocks| - 1 && !blocks[i].used && a == blocks[i].addr
      modifies this`mem, this`head, this`blocks
      ensures blocks == Used(old(blocks), i) && Linked(mem, head, tail, blocks)
    {
      ghost var mem0 := mem;
      FreeNeighbours(mem, head, tail, blocks, i);
      mem := mem[a := mem[a].(used := true)];
      var next, prev := mem[a].nextFree, mem[a].prevFree;
      if head == a {
        head := next;
        mem := mem[next := mem[next].(prevFree := NULL)];
      } else {
        mem := mem[next := mem[next].(prevFree := prev)];
        mem := mem[prev := mem[prev].(nextFree := next)];
      }
      UnlinkKeepsLinked(mem0, old(head), tail, blocks, i, mem, head);
      blocks := Used(blocks, i);
    }

    /** Turns the tail's header into a buffer of `numBytes` below a new tail. */
    method ExtendTail(numBytes: nat)
      requires Valid() && numBytes < WRAP
      modifies this`mem, this`head, this`tail, this`blocks
      ensures blocks == Extended(old(blocks), NewTail(g, old(blocks), numBytes))
      ensures Named(blocks) ==> Linked(mem, head, tail, blocks)
    {
      ghost var mem0 := mem;
      ghost var bs := blocks;
      var a := tail;
      TailLinks(mem, head, tail, bs);
      var next := RoundUpWord(a + (numBytes + g.hdr) % WRAP);
      var prev := mem[a].prevFree;
      mem := mem[a := mem[a].(used := true, next := next, nextFree := next)];
      mem := mem[next := Header(false, NULL, NULL, prev)];
      if head == a {
        head := next;
      } else {
        mem := mem[prev := mem[prev].(nextFree := next)];
      }
      tail := next;
      blocks := Extended(bs, next);
      if Named(blocks) { ExtensionIsLinked(g, mem0, old(head), bs, numBytes, mem, head); }
    }

    /** Walks the free list up to a tight fit or to the tail, remembering the first fit on the way. */
    method FindBlock(numBytes: nat) returns (found: nat, usable: nat, ghost i: nat)
      requires Named(blocks) && Linked(mem, head, tail, blocks)
      ensures Choose(g, blocks, numBytes) ==
                if found != NULL then Reuse(i) else if TailServes(g, blocks, numBytes) then Extend
                else if usable != NULL then Reuse(i) else Refuse
      ensures found != NULL || usable != NULL ==>
                i < |blocks| - 1 && !blocks[i].used && blocks[i].addr == if found != NULL then found else usable
      ensures found != NULL <==> exists j :: 0 <= j < |blocks| && FitsTightly(g, blocks, j, numBytes)
    {
      var free := head;
      found, usable, i := NULL, NULL, FirstFree(blocks, 0);
      ghost var u: nat := |blocks|;
      while true
        invariant i < |blocks| && !blocks[i].used && free == blocks[i].addr
        invariant forall j :: 0 <= j < i ==> !FitsTightly(g, blocks, j, numBytes)
        invariant u <= |blocks| && forall j :: 0 <= j < i && j < u ==> !Fits(g, blocks, j, numBytes)
        invariant if usable == NULL then u == |blocks| else u < i && usable == blocks[u].addr
        invariant u < |blocks| ==> Fits(g, blocks, u, numBytes)
        decreases |blocks| - i
      {
        NextFree(mem, head, tail, blocks, i);
        if mem[free].next == NULL { break; }
        var available := mem[free].next - free - g.hdr;
        assert available == Payload(g, blocks, i);
        if available >= numBytes {
          if usable == NULL { usable, u := free, i; }
          if available <= 4 || available - numBytes < available / 2 {
            found := free;
            TightIsChosen(g, blocks, numBytes, i);
            return;
          }
        }
        free := mem[free].nextFree;
        i := FirstFree(blocks, i + 1);
      }
      TailDecides(g, blocks, numBytes, u);
      i := u;
    }

    /** Takes what the walk found, else the tail if the test there says so, else the first fit. */
    method Take(numBytes: nat, found: nat, usable: nat, ghost i: nat) returns (buffer: nat)
      requires Valid() && numBytes < WRAP
      requires Choose(g, blocks, numBytes) ==
                 if found != NULL then Reuse(i) else if TailServes(g, blocks, numBytes) then Extend
                 else if usable != NULL then Reuse(i) else Refuse
      requires found != NULL || usable != NULL ==>
                 i < |blocks| - 1 && !blocks[i].used && blocks[i].addr == if found != NULL then found else usable
      modifies this
      ensures blocks == Allocated(g, old(blocks), numBytes) && (Named(blocks) ==> Linked(mem, head, tail, blocks))
      ensures buffer == if Choose(g, old(blocks), numBytes).Refuse? then NULL
                        else HeapRuns.Served(g, old(blocks), numBytes) + g.hdr
      ensures lowWatermark ==
                var remaining := Remaining(g, Room(g, old(blocks)), numBytes);
                if Choose(g, old(blocks), numBytes).Extend? && remaining < old(lowWatermark) then remaining
                else old(lowWatermark)
    {
      ChainIsNamed(g, blocks);
      var remaining := Remaining(g, g.end - (tail + g.hdr - 1), numBytes);
      if found != NULL {
        Unlink(found, i);
        buffer := found + g.hdr;
      } else if remaining >= 0 {
        if lowWatermark > remaining { lowWatermark := remaining; }
        buffer := tail + g.hdr;
        ExtendTail(numBytes);
      } else if usable != NULL {
        Unlink(usable, i);
        buffer := usable + g.hdr;
      } else {
        buffer := NULL;
      }
    }

    /** An allocation, for every 32-bit request. `asserted` tells whether the assertion made at the tail held. */
    method Allocate(numBytes: nat) returns (buffer: nat, asserted: bool)
      requires Valid() && numBytes < WRAP
      modifies this
      ensures blocks == Allocated(g, old(blocks), numBytes) && (Named(blocks) ==> Linked(mem, head, tail, blocks))
      ensures Valid() <==> Inv(g, blocks)
      ensures buffer == if Choose(g, old(blocks), numBytes).Refuse? then NULL
                        else HeapRuns.Served(g, old(blocks), numBytes) + g.hdr
      ensures lowWatermark ==
                var remaining := Remaining(g, Room(g, old(blocks)), numBytes);
                if Choose(g, old(blocks), numBytes).Extend? && remaining < old(lowWatermark) then remaining
                else old(lowWatermark)
      ensures asserted <==> HeapEdges.TailAssertHolds(g, old(blocks), numBytes)
    {
      ChainIsNamed(g, blocks);
      var found, usable, i := FindBlock(numBytes);
      asserted := found != NULL || g.end - (tail + g.hdr - 1) >= 0;
      buffer := Take(numBytes, found, usable, i);
      if Inv(g, blocks) { ChainIsNamed(g, blocks); }
    }

    /** The free block below the used block at `a`, found by walking the free list from its head. */
    method FindPrevFree(a: nat, ghost k: nat) returns (prev: nat)
      requires Chain(g, blocks) && Linked(mem, head, tail, blocks)
      requires k < |blocks| - 1 && blocks[k].used && a == blocks[k].addr && head <= a
      ensures 0 <= LastFree(blocks, k) && prev == blocks[LastFree(blocks, k)].addr
      ensures prev in mem && mem[prev].nextFree == blocks[FirstFree(blocks, k + 1)].addr
    {
      prev := head;
      ghost var p: nat := FirstFree(blocks, 0);
      BelowHead(g, blocks, k);
      WalkStep(g, mem, head, tail, blocks, k, p);
      while mem[prev].nextFree < a
        invariant p < k && !blocks[p].used && prev == blocks[p].addr && prev in mem
        decreases k - p
      {
        WalkStep(g, mem, head, tail, blocks, k, p);
        prev := mem[prev].nextFree;
        p := FirstFree(blocks, p + 1);
      }
      WalkStep(g, mem, head, tail, blocks, k, p);
    }

    /** Puts the used block at `a` on the free list, between the free blocks below and above it. */
    method Link(a: nat, ghost k: nat)
      requires Chain(g, blocks) && Named(blocks) && Linked(mem, head, tail, blocks)
      requires k < |blocks| - 1 && blocks[k].used && a == blocks[k].addr
      modifies this`mem, this`head, this`blocks
      ensures blocks == Unused(old(blocks), k) && Linked(mem, head, tail, blocks)
    {
      ghost var mem0 := mem;
      ghost var bs := blocks;
      AllInMemory(mem, head, tail, bs);
      BelowHead(g, bs, k);
      if a < head {
        mem := mem[a := mem[a].(nextFree := head, prevFree := NULL)];
        mem := mem[head := mem[head].(prevFree := a)];
        head := a;
      } else {
        var prev := FindPrevFree(a, k);
        var next := mem[prev].nextFree;
        mem := mem[a := mem[a].(nextFree := next, prevFree := prev)];
        mem := mem[next := mem[next].(prevFree := a)];
        mem := mem[prev := mem[prev].(nextFree := a)];
      }
      mem := mem[a := mem[a].(used := false)];
      LinkKeepsLinked(mem0, old(head), tail, bs, k, mem, head);
      blocks := Unused(bs, k);
    }

    /** Melds the free block at `a` and its free neighbours into the unused top, if they reach it. */
    method CleanUp(a: nat, ghost k: nat) returns (pastHead: bool)
      requires Named(blocks) && Linked(mem, head, tail, blocks)
      requires k < |blocks| - 1 && !blocks[k].used && a == blocks[k].addr
      requires k == |blocks| - 2 || blocks[|blocks| - 2].used
      modifies this`mem, this`tail, this`blocks
      ensures blocks == Trimmed(old(blocks)) && Linked(mem, head, tail, blocks)
      ensures pastHead <==> k == |old(blocks)| - 2 && forall i :: 0 <= i < |blocks| - 1 ==> blocks[i].used
    {
      ghost var bs := blocks;
      NextFree(mem, head, tail, bs, k);
      var next, nextFree := mem[a].next, mem[a].nextFree;
      ghost var j: nat := k + 1;
      while next == nextFree && next != NULL
        modifies {}
        invariant k < j <= |bs| && forall i :: k <= i < j ==> !bs[i].used
        invariant next == if j < |bs| then bs[j].addr else NULL
        invariant nextFree == if j < |bs| then bs[FirstFree(bs, j)].addr else NULL
        decreases |bs| - j
      {
        NextFree(mem, head, tail, bs, j);
        next, nextFree := mem[next].next, mem[nextFree].nextFree;
        j := j + 1;
      }
      pastHead := false;
      if next == nextFree { pastHead := MeldDown(a, k); }
    }

    /**
     The topmost free run, which reaches up from `a`, becomes the tail. The loop's guard reads `next` of the block
     that `prev_free` leads to; at the head of the free list that is NULL, where the walk stops here.
     */
    method MeldDown(a: nat, ghost k: nat) returns (pastHead: bool)
      requires Named(blocks) && Linked(mem, head, tail, blocks)
      requires k < |blocks| && a == blocks[k].addr && forall i :: k <= i < |blocks| ==> !blocks[i].used
      modifies this`mem, this`tail, this`blocks
      ensures blocks == Trimmed(old(blocks)) && Linked(mem, head, tail, blocks)
      ensures pastHead <==> forall i :: 0 <= i < |blocks| - 1 ==> blocks[i].used
    {
      ghost var mem0 := mem;
      ghost var bs := blocks;
      ghost var m: nat := k;
      NextFree(mem, head, tail, bs, k);
      MeldingStep(mem0, head, tail, bs, k, mem);
      var block, prev := a, mem[a].prevFree;
      while prev != NULL && mem[prev].next == block
        modifies this`mem
        invariant Melding(mem0, bs, m, mem) && block == bs[m].addr && prev == mem[block].prevFree
        invariant prev != NULL ==> prev in mem
        decreases m
      {
        MeldingStep(mem0, head, tail, bs, m, mem);
        mem := mem[prev := mem[prev].(nextFree := mem[block].nextFree, next := mem[block].next)];
        block, m := prev, m - 1;
        prev := mem[block].prevFree;
        MeldingStep(mem0, head, tail, bs, m, mem);
      }
      MeldingStep(mem0, head, tail, bs, m, mem);
      MeldingStops(mem0, head, tail, bs, m, mem);
      pastHead := prev == NULL;
      mem := mem[block := mem[block].(next := NULL, nextFree := NULL)];
      tail := block;
      blocks := Trimmed(bs);
      MeldEnds(mem0, head, old(tail), bs, m, mem);
    }

    /** Puts the used block at `a` on the free list and cleans up. */
    method GiveBack(a: nat, ghost k: nat) returns (pastHead: bool)
      requires g.Ok() && Inv(g, blocks) && Linked(mem, head, tail, blocks)
      requires k < |blocks| - 1 && blocks[k].used && a == blocks[k].addr
      modifies this`mem, this`head, this`tail, this`blocks
      ensures blocks == Freed(old(blocks), k) && Linked(mem, head, tail, blocks)
      ensures pastHead <==> HeapEdges.MergesPastTheHead(old(blocks), k)
    {
      FreeSteps(g, blocks, k);
      HeapEdges.MergesPastTheHeadIff(g, blocks, k);
      Link(a, k);
      pastHead := CleanUp(a, k);
    }

    /** Gives a live buffer back; a NULL buffer is an error and changes nothing. `pastHead` tells of a read through NULL. */
    method Free(buffer: nat, ghost k: nat) returns (status: MemStatus, pastHead: bool)
      requires Valid() && (buffer != NULL ==> BufferAt(g, blocks, k, buffer))
      modifies this
      ensures Valid() && lowWatermark == old(lowWatermark)
      ensures status == if buffer == NULL then MemFreeError else MemSuccess
      ensures blocks == if buffer == NULL then old(blocks) else Freed(old(blocks), k)
      ensures pastHead <==> buffer != NULL && HeapEdges.MergesPastTheHead(old(blocks), k)
    {
      if buffer == NULL { return MemFreeError, false; }
      FreeKeepsInv(g, blocks, k);
      pastHead := GiveBack(buffer - g.hdr, k);
      status := MemSuccess;
    }

    /** Whether the free list is the fresh area's: exactly when nothing is in use. */
    method AreaIsEmpty() returns (empty: bool)
      requires Valid()
      ensures empty <==> blocks == HeapRuns.Fresh(g).blocks
    {
      NextFree(mem, head, tail, blocks, FirstFree(blocks, 0));
      ChainIsNamed(g, blocks);
      empty := head == g.start && mem[head].nextFree == NULL;
    }

    /** The payloads of the free blocks below the tail, added up along the free list. */
    method FreeBelowTail() returns (size: int)
      requires Valid()
      ensures size == HeapRuns.PayloadBelow(g, blocks, false, |blocks| - 1)
    {
      ghost var i: nat := FirstFree(blocks, 0);
      var free := head;
      size := 0;
      ChainIsNamed(g, blocks);
      SkipUsed(g, blocks, 0, i);
      while free != tail
        invariant i < |blocks| && !blocks[i].used && free == blocks[i].addr
        invariant size == HeapRuns.PayloadBelow(g, blocks, false, i)
        decreases |blocks| - i
      {
        NextFree(mem, head, tail, blocks, i);
        size := size + (mem[free].next - free - g.hdr);
        free := mem[free].nextFree;
        SkipUsed(g, blocks, i + 1, FirstFree(blocks, i + 1));
        i := FirstFree(blocks, i + 1);
      }
    }

    /** The free-space query: the payloads of the free blocks below the tail, and the room above it, in 32 bits. */
    method GetFreeHeapSpace() returns (size: int)
      requires Valid()
      ensures size == HeapEdges.FreeAnswer(g, blocks)
    {
      size := FreeBelowTail();
      size := (size + g.end - tail - g.hdr + 1) % WRAP;
    }
  }

  lemma {:induction false} SkipUsed(g: Geometry, bs: seq<Block>, i: nat, j: nat)
    requires i <= j < |bs| && forall x :: i <= x < j ==> bs[x].used
    ensures HeapRuns.PayloadBelow(g, bs, false, j) == HeapRuns.PayloadBelow(g, bs, false, i)
    decreases j
  {
    if i < j { SkipUsed(g, bs, i, j - 1); }
  }

  // ----- the two lists, walked -----

  /** The addresses met by following `next`, or `nextFree`, from `p` for at most `fuel` headers. */
  ghost function Walk(mem: map<nat, Header>, free: bool, p: nat, fuel: nat): seq<nat>
    decreases fuel
  {
    if fuel == 0 || p == NULL || p !in mem then []
    else [p] + Walk(mem, free, if free then mem[p].nextFree else mem[p].next, fuel - 1)
  }

  /** The addresses of the blocks from index `k` on, all of them or the free ones, in address order. */
  ghost function AddrsFrom(bs: seq<Block>, free: bool, k: nat): seq<nat>
    requires k <= |bs|
    decreases |bs| - k
  {
    if k == |bs| then []
    else (if free && bs[k].used then [] else [bs[k].addr]) + AddrsFrom(bs, free, k + 1)
  }

  lemma {:induction false} SkippedAddrs(bs: seq<Block>, k: nat)
    requires k < |bs| && !bs[|bs| - 1].used
    ensures AddrsFrom(bs, true, k) ==
              [bs[FirstFree(bs, k)].addr] + AddrsFrom(bs, true, FirstFree(bs, k) + 1)
    decreases |bs| - k
  {
    if bs[k].used {
      SkippedAddrs(bs, k + 1);
      assert AddrsFrom(bs, true, k) == [] + AddrsFrom(bs, true, k + 1) == AddrsFrom(bs, true, k + 1);
      assert FirstFree(bs, k) == FirstFree(bs, k + 1);
    } else {
      assert FirstFree(bs, k) == k;
    }
  }

  lemma {:induction false} FreeWalk(mem: map<nat, Header>, head: nat, tail: nat, bs: seq<Block>, k: nat, fuel: nat)
    requires Named(bs) && Linked(mem, head, tail, bs) && k < |bs| && |bs| - k <= fuel
    ensures Walk(mem, true, bs[FirstFree(bs, k)].addr, fuel) == AddrsFrom(bs, true, k)
    decreases |bs| - k
  {
    var f := FirstFree(bs, k);
    NextFree(mem, head, tail, bs, f);
    SkippedAddrs(bs, k);
    if f < |bs| - 1 { FreeWalk(mem, head, tail, bs, f + 1, fuel - 1); }
  }

  lemma {:induction false} ChainWalk(mem: map<nat, Header>, head: nat, tail: nat, bs: seq<Block>, k: nat, fuel: nat)
    requires Named(bs) && Linked(mem, head, tail, bs) && k < |bs| && |bs| - k <= fuel
    ensures Walk(mem, false, bs[k].addr, fuel) == AddrsFrom(bs, false, k)
    decreases |bs| - k
  {
    assert Chained(mem, bs, k);
    if k < |bs| - 1 { ChainWalk(mem, head, tail, bs, k + 1, fuel - 1); }
  }

  lemma PrevInverts(mem: map<nat, Header>, head: nat, tail: nat, bs: seq<Block>, i: nat)
    requires Named(bs) && Linked(mem, head, tail, bs) && i < |bs| - 1 && !bs[i].used
    ensures bs[i].addr in mem && mem[bs[i].addr].nextFree in mem
    ensures mem[mem[bs[i].addr].nextFree].prevFree == bs[i].addr
  {
    var n := FirstFree(bs, i + 1);
    NextFree(mem, head, tail, bs, i);
    NextFree(mem, head, tail, bs, n);
    NextIffPrev(bs, i, n);
  }

  /** In every valid area the chain from the start is exactly the blocks, the free list from its head is exactly
      the free blocks in address order, both end at the tail, and `prevFree` undoes `nextFree`. */
  lemma ListsSpellOutTheBlocks(area: Area)
    requires area.Valid()
    ensures Walk(area.mem, false, area.g.start, |area.blocks|) == AddrsFrom(area.blocks, false, 0)
    ensures Walk(area.mem, true, area.head, |area.blocks|) == AddrsFrom(area.blocks, true, 0)
    ensures area.tail in area.mem && area.mem[area.tail].next == area.mem[area.tail].nextFree == NULL
    ensures forall i :: 0 <= i < |area.blocks| - 1 && !area.blocks[i].used ==>
              var a := area.blocks[i].addr;
              a in area.mem && area.mem[a].nextFree in area.mem && area.mem[area.mem[a].nextFree].prevFree == a
  {
    ChainIsNamed(area.g, area.blocks);
    ChainWalk(area.mem, area.head, area.tail, area.blocks, 0, |area.blocks|);
    FreeWalk(area.mem, area.head, area.tail, area.blocks, 0, |area.blocks|);
    NextFree(area.mem, area.head, area.tail, area.blocks, |area.blocks| - 1);
    forall i | 0 <= i < |area.blocks| - 1 && !area.blocks[i].used
      ensures var a := area.blocks[i].addr;
        a in area.mem && area.mem[a].nextFree in area.mem && area.mem[area.mem[a].nextFree].prevFree == a
    {
      PrevInverts(area.mem, area.head, area.tail, area.blocks, i);
    }
  }

  // ----- runs on the memory itself -----

  method ExecuteOne(area: Area, op: HeapRuns.Op, ghost h: HeapRuns.Heap)
    requires area.Valid() && area.blocks == h.blocks && HeapRuns.HeapInv(area.g, h) && HeapRuns.LegalOp(area.g, h, op)
    modifies area
    ensures area.Valid() && area.blocks == HeapRuns.Step(area.g, h, op).blocks
  {
    match op
    case Alloc(n) =>
      SensibleIsTruthful(area.g, area.blocks, n);
      AllocationKeepsInv(area.g, area.blocks, n);
      var buffer, asserted := area.Allocate(n);
    case Free(a) =>
      ghost var k := HeapRuns.FreeStepIsFreed(area.g, h, a);
      var status, pastHead := area.Free(a + area.g.hdr, k);
  }

  /** What is proved of runs over the block sequence holds of the headers in memory: they go through the same states. */
  method Execute(area: Area, ops: seq<HeapRuns.Op>, ghost h: HeapRuns.Heap)
    requires area.Valid() && area.blocks == h.blocks && HeapRuns.HeapInv(area.g, h) && HeapRuns.Legal(area.g, h, ops)
    modifies area
    ensures area.Valid() && area.blocks == HeapRuns.Run(area.g, h, ops).blocks
  {
    ghost var now := h;
    for i := 0 to |ops|
      invariant area.Valid() && area.blocks == now.blocks && HeapRuns.HeapInv(area.g, now)
      invariant HeapRuns.Legal(area.g, now, ops[i..]) && HeapRuns.Run(area.g, now, ops[i..]) == HeapRuns.Run(area.g, h, ops)
    {
      assert ops[i..][0] == ops[i] && ops[i..][1..] == ops[i + 1..];
      ExecuteOne(area, ops[i], now);
      HeapRuns.StepKeepsInv(area.g, now, ops[i]);
      now := HeapRuns.Step(area.g, now, ops[i]);
    }
  }
}
