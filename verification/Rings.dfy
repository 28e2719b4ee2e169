/**
 Circular buffers: positions that wrap, the elements behind a head position, and what a wrapping write leaves.
 */
module Rings {

  newtype Byte = x: int | 0 <= x < 256

  /** The last `n` elements of a sequence, or all of them. */
  function Last<T>(n: nat, s: seq<T>): (r: seq<T>)
    ensures |r| == if |s| <= n then |s| else n
  {
    if |s| <= n then s else s[|s| - n..]
  }

  function Wrap(x: nat, size: nat): nat {
    if x < size then x else x - size
  }

  /** The `n` elements of a ring that end just before position `head`, oldest first. */
  function Back<T>(ring: seq<T>, head: nat, n: nat): (r: seq<T>)
    requires n <= |ring| && head < |ring|
    ensures |r| == n
    ensures forall k :: 0 <= k < n ==> r[k] == ring[Wrap(head + |ring| - n + k, |ring|)]
  {
    seq(n, k requires 0 <= k < n => ring[Wrap(head + |ring| - n + k, |ring|)])
  }

  /** How many elements lie from `tail` to `head`. */
  function Count(head: nat, tail: nat, size: nat): (r: nat)
    requires head < size && tail < size
    ensures r < size && Wrap(tail + r, size) == head
  {
    if tail <= head then head - tail else head + size - tail
  }

  lemma ModIsWrap(x: nat, size: nat)
    requires 0 < size && x < 2 * size
    ensures x % size == Wrap(x, size)
  {
    if size <= x { assert x == (x - size) + size * 1; }
  }

  /** Stepping a position that stands for `x` modulo the size. */
  lemma NextMod(x: nat, size: nat)
    requires 0 < size
    ensures Wrap(x % size + 1, size) == (x + 1) % size
  {
    var q, r := x / size, x % size;
    assert x + 1 == size * q + (r + 1);
    if r + 1 < size {
      ModUnique(x + 1, size, q, r + 1);
    } else {
      ModUnique(x + 1, size, q + 1, 0);
    }
  }

  lemma ModUnique(x: nat, d: nat, q: nat, r: nat)
    requires x == d * q + r && r < d
    ensures x % d == r
  {
    MulIsFar(d, x / d - q);
    assert d * (x / d - q) == d * (x / d) - d * q;
  }

  lemma MulIsFar(d: nat, p: int)
    requires 0 < d
    ensures 0 < p ==> d * p >= d
    ensures p < 0 ==> d * p + d <= 0
  {
  }

  lemma CountIsMod(head: nat, tail: nat, size: nat)
    requires head < size && tail < size
    ensures (head + size - tail) % size == Count(head, tail, size)
  {
    ModIsWrap(head + size - tail, size);
  }

  /** `ring'` is `ring` with `b` written from position `at` on, wrapping at the end. */
  ghost predicate Written<T>(ring: seq<T>, at: nat, b: seq<T>, ring': seq<T>) {
    && |ring'| == |ring| && at < |ring| && |b| <= |ring|
    && (forall k :: 0 <= k < |b| ==> ring'[Wrap(at + k, |ring|)] == b[k])
    && (forall i :: 0 <= i < |ring| && |b| <= (if at <= i then i - at else i + |ring| - at) ==> ring'[i] == ring[i])
  }

  lemma BackIndex(size: nat, head: nat, len: nat, n: nat, k: nat)
    requires head < size && len <= n <= size && k < n
    ensures Wrap(head + len, size) < size
    ensures Wrap(Wrap(head + len, size) + size - n + k, size) ==
              if k < n - len then Wrap(head + size - (n - len) + k, size) else Wrap(head + (k - (n - len)), size)
  {
  }

  /** Looking back over at least what was written shows the written bytes behind the older ones. */
  lemma BackAfterWrite<T>(ring: seq<T>, head: nat, b: seq<T>, ring': seq<T>, n: nat)
    requires Written(ring, head, b, ring') && |b| <= n <= |ring|
    ensures Back(ring', Wrap(head + |b|, |ring|), n) == Back(ring, head, n - |b|) + b
  {
    var size, older := |ring|, n - |b|;
    forall k | 0 <= k < n
      ensures Back(ring', Wrap(head + |b|, size), n)[k] == (Back(ring, head, older) + b)[k]
    {
      BackIndex(size, head, |b|, n, k);
      if k < older {
        var i := Wrap(head + size - older + k, size);
        assert |b| <= if head <= i then i - head else i + size - head;
      }
    }
  }

  lemma BackIsSuffix<T>(ring: seq<T>, head: nat, m: nat, n: nat)
    requires m <= n <= |ring| && head < |ring|
    ensures Back(ring, head, m) == Back(ring, head, n)[n - m..]
  {
  }

  lemma ModPlusSize(x: nat, size: nat)
    requires 0 < size && x <= size
    ensures (x + size) % size == Wrap(x, size)
  {
    if x == size { assert x + size == 0 + size * 2; } else { ModIsWrap(x + size, size); }
  }

  /** A write that wraps is one write up to the end and one from the start. */
  lemma WrittenInTwo<T>(ring: seq<T>, at: nat, b: seq<T>, k: nat, mid: seq<T>, ring': seq<T>)
    requires at < |ring| && |b| <= |ring|
    requires k == if at + |b| > |ring| then |ring| - at else |b|
    requires mid == ring[..at] + b[..k] + ring[at + k..]
    requires ring' == b[k..] + mid[|b| - k..]
    ensures Written(ring, at, b, ring')
  {
  }

  lemma LastOfLastLeft<T>(n: nat, a: seq<T>, b: seq<T>)
    ensures Last(n, Last(n, a) + b) == Last(n, a + b)
  {
  }

  lemma LastOfLastRight<T>(n: nat, a: seq<T>, b: seq<T>)
    ensures Last(n, a + Last(n, b)) == Last(n, a + b)
  {
    if n < |b| {
      assert Last(n, a + b) == Last(n, b);
      assert Last(n, a + Last(n, b)) == Last(n, b);
    }
  }

  /** Keeping `kept` elements of c ++ b is keeping the end of c in front of b. */
  lemma LastIsSuffixAndNew<T>(n: nat, c: seq<T>, b: seq<T>, kept: nat)
    requires |b| <= n && kept == if n <= |c| + |b| then n else |c| + |b|
    ensures c[|c| - (kept - |b|)..] + b == Last(n, c + b)
  {
  }
}
