/** Circular buffers as the JTAG UART driver lays them out: a fixed buffer, an index `outIx` of the
    oldest element and an index `inIx` of the next free slot. One slot always stays unused, so equal
    indices mean "empty". */
module Ring {

  /** Number of elements queued. */
  function Count(n: nat, outIx: nat, inIx: nat): (c: nat)
    requires outIx < n && inIx < n
    ensures c < n
  {
    if outIx <= inIx then inIx - outIx else n - outIx + inIx
  }

  /** The slot `k` places after slot `i`. */
  function Slot(n: nat, i: nat, k: nat): (s: nat)
    requires i < n && k <= n
    ensures s < n
  {
    if i + k < n then i + k else i + k - n
  }

  /** `queue` is what the ring holds, oldest element first. */
  ghost predicate Holds<T>(buf: array<T>, outIx: nat, inIx: nat, queue: seq<T>)
    reads buf
  {
    && outIx < buf.Length && inIx < buf.Length
    && |queue| == Count(buf.Length, outIx, inIx)
    && forall k :: 0 <= k < |queue| ==> queue[k] == buf[Slot(buf.Length, outIx, k)]
  }

  /** The driver's index update, without the modulo. */
  lemma StepIndex(n: nat, i: nat, k: nat)
    requires i < n && k <= n
    ensures (i + k) % n == Slot(n, i, k)
  {
    if i + k < n {
    } else {
      ModOnce(n, i + k - n);
    }
  }

  lemma ModOnce(n: nat, r: nat)
    requires r < n
    ensures (n + r) % n == r
  {
    assert n + r == 1 * n + r;
  }

  /** The slots from `inIx` on that are still free hold no queued element. */
  lemma FreeSlot(n: nat, outIx: nat, inIx: nat, i: nat)
    requires outIx < n && inIx + i < n && Count(n, outIx, inIx) + i < n - 1
    ensures forall k :: 0 <= k < Count(n, outIx, inIx) ==> Slot(n, outIx, k) != inIx + i
  {
  }

  /** Publishing the block of `k` elements stored from slot `inIx` on appends exactly that block. */
  lemma PushBlock<T>(buf: array<T>, outIx: nat, inIx: nat, k: nat, queue: seq<T>, block: seq<T>)
    requires Holds(buf, outIx, inIx, queue)
    requires inIx + k <= buf.Length && |queue| + k < buf.Length
    requires buf[inIx..inIx + k] == block
    ensures Holds(buf, outIx, (inIx + k) % buf.Length, queue + block)
  {
    StepIndex(buf.Length, inIx, k);
    forall j | |queue| <= j < |queue| + k
      ensures (queue + block)[j] == buf[Slot(buf.Length, outIx, j)]
    {
      assert block[j - |queue|] == buf[inIx + (j - |queue|)];
    }
  }

  /** Retiring the block of `k` elements from slot `outIx` on removes the `k` oldest ones. */
  lemma PopBlock<T>(buf: array<T>, outIx: nat, inIx: nat, k: nat, queue: seq<T>)
    requires Holds(buf, outIx, inIx, queue)
    requires outIx + k <= buf.Length && k <= |queue|
    ensures buf[outIx..outIx + k] == queue[..k]
    ensures Holds(buf, (outIx + k) % buf.Length, inIx, queue[k..])
  {
    StepIndex(buf.Length, outIx, k);
    forall j | 0 <= j < k
      ensures buf[outIx..outIx + k][j] == queue[j]
    {
      assert queue[j] == buf[Slot(buf.Length, outIx, j)];
    }
    forall j | 0 <= j < |queue| - k
      ensures queue[k..][j] == buf[Slot(buf.Length, Slot(buf.Length, outIx, k), j)]
    {
      assert queue[k + j] == buf[Slot(buf.Length, outIx, k + j)];
    }
  }

  /** The producer's full test is exact: the slot after `inIx` is `outIx` just when no room is left. */
  lemma FullTest(n: nat, outIx: nat, inIx: nat)
    requires outIx < n && inIx < n
    ensures (inIx + 1) % n == outIx <==> Count(n, outIx, inIx) == n - 1
  {
    StepIndex(n, inIx, 1);
  }

  /** A remembered consumer index equals the current one exactly when nothing was consumed since, and a
      remembered producer index exactly when nothing was produced: no index comes round to the same value. */
  lemma StaleIndexExact(n: nat, stale: nat, current: nat, other: nat)
    requires stale < n && current < n && other < n
    ensures stale == current <==> Count(n, stale, other) == Count(n, current, other)
    ensures stale == current <==> Count(n, other, stale) == Count(n, other, current)
  {
  }
}
