/** The server's buffer pool (server.js:546-558): a stack of at most 50
    spare buffers. `getBuffer` pops one or, when the stack is empty, hands out
    a fresh 64 KB buffer; `releaseBuffer` zero-fills a buffer and pushes it
    unless the stack is full. The server never calls either, so the pool is
    modelled on its own. */
module BufferPool {
  import opened OutputBatcher

  /** `bufferPool.maxSize`. */
  const MaxPooled: nat := 50

  /** `Buffer.allocUnsafe(65536)`. */
  const FreshSize: nat := 65536

  /** The stack of spare buffers; the last element is on top. */
  datatype Pool = Pool(buffers: seq<Bytes>)

  /** Every byte is zero. */
  predicate Zeroed(b: Bytes)
  {
    forall i :: 0 <= i < |b| ==> b[i] == 0
  }

  /** At most 50 buffers are pooled, all of them zero-filled. */
  predicate PoolInv(p: Pool)
  {
    |p.buffers| <= MaxPooled && forall i :: 0 <= i < |p.buffers| ==> Zeroed(p.buffers[i])
  }

  /** A buffer handed out: a pooled one, or a fresh allocation whose
      contents are unspecified. */
  datatype Handout = Reused(bytes: Bytes) | Allocated(size: nat)

  /** `buffer.fill(0)`. */
  function Fill0(b: Bytes): (z: Bytes)
    ensures |z| == |b| && Zeroed(z)
  {
    seq(|b|, i requires 0 <= i < |b| => 0 as byte)
  }

  /** `getBuffer`. */
  function Get(p: Pool): (r: (Pool, Handout))
    ensures |p.buffers| == 0 ==> r == (p, Allocated(FreshSize))
    ensures |p.buffers| > 0 ==>
      && r.1 == Reused(p.buffers[|p.buffers| - 1])
      && r.0.buffers + [r.1.bytes] == p.buffers
  {
    if |p.buffers| == 0 then (p, Allocated(FreshSize))
    else
      var top := |p.buffers| - 1;
      (Pool(p.buffers[..top]), Reused(p.buffers[top]))
  }

  /** `releaseBuffer`. */
  function Release(p: Pool, b: Bytes): (r: Pool)
    ensures |p.buffers| < MaxPooled ==> r.buffers == p.buffers + [Fill0(b)]
    ensures |p.buffers| >= MaxPooled ==> r == p
  {
    if |p.buffers| < MaxPooled then Pool(p.buffers + [Fill0(b)]) else p
  }

  /** Getting and releasing keep the pool bounded and zero-filled. */
  lemma PoolOpsInv(p: Pool, b: Bytes)
    requires PoolInv(p)
    ensures PoolInv(Get(p).0)
    ensures PoolInv(Release(p, b))
  {
    var r := Release(p, b);
    if |p.buffers| < MaxPooled {
      forall i | 0 <= i < |r.buffers| ensures Zeroed(r.buffers[i]) {
        if i < |p.buffers| {
          assert r.buffers[i] == p.buffers[i];
        }
      }
    }
    var g := Get(p).0;
    forall i | 0 <= i < |g.buffers| ensures Zeroed(g.buffers[i]) {
      assert g.buffers[i] == p.buffers[i];
    }
  }

  /** A released buffer comes back by the next get, the same length and all
      zero, and the pool is as it was; a full pool instead drops it. */
  lemma ReleaseThenGet(p: Pool, b: Bytes)
    requires PoolInv(p)
    ensures |p.buffers| < MaxPooled ==>
      var g := Get(Release(p, b));
      g.0 == p && g.1.Reused? && |g.1.bytes| == |b| && Zeroed(g.1.bytes)
    ensures |p.buffers| == MaxPooled ==> Release(p, b) == p
  {
    if |p.buffers| < MaxPooled {
      var r := Release(p, b);
      assert r.buffers[..|r.buffers| - 1] == p.buffers;
    }
  }
}
