/**
 * Cutting a stream into batches the way a buffer that is flushed whenever it holds
 * `k` items does: full batches of exactly `k`, then whatever is left in the buffer.
 */
module Chunks {

  /** The batches flushed while the stream is consumed: every complete run of `k` items. */
  function FullChunks<T>(items: seq<T>, k: nat): (r: seq<seq<T>>)
    requires k >= 1
    ensures forall c :: 0 <= c < |r| ==> |r[c]| == k
    decreases |items|
  {
    if |items| < k then [] else [items[..k]] + FullChunks(items[k..], k)
  }

  /** What is left in the buffer afterwards: fewer than `k` items. */
  function Rest<T>(items: seq<T>, k: nat): (r: seq<T>)
    requires k >= 1
    ensures |r| < k
    decreases |items|
  {
    if |items| < k then items else Rest(items[k..], k)
  }

  /** The full batches followed by the rest, when the rest is not empty. */
  function Batches<T>(items: seq<T>, k: nat): seq<seq<T>>
    requires k >= 1
  {
    FullChunks(items, k) + if Rest(items, k) == [] then [] else [Rest(items, k)]
  }

  /** Appending in two steps is appending the two parts at once. */
  lemma AppendAssoc<T>(a: seq<T>, b: seq<T>, c: seq<T>)
    ensures (a + b) + c == a + (b + c)
  {
  }

  function Flatten<T>(xss: seq<seq<T>>): seq<T>
    decreases |xss|
  {
    if xss == [] then [] else xss[0] + Flatten(xss[1..])
  }

  lemma {:induction false} FlattenAppend<T>(xss: seq<seq<T>>, ys: seq<seq<T>>)
    ensures Flatten(xss + ys) == Flatten(xss) + Flatten(ys)
    decreases |xss|
  {
    if xss == [] {
      assert xss + ys == ys;
    } else {
      assert (xss + ys)[1..] == xss[1..] + ys;
      FlattenAppend(xss[1..], ys);
    }
  }

  /** The full batches and the rest, in order, are exactly the stream. */
  lemma {:induction false} FullChunksThenRest<T>(items: seq<T>, k: nat)
    requires k >= 1
    ensures Flatten(FullChunks(items, k)) + Rest(items, k) == items
    decreases |items|
  {
    if |items| >= k {
      FullChunksThenRest(items[k..], k);
      var f := FullChunks(items, k);
      assert f[1..] == FullChunks(items[k..], k);
      assert items == items[..k] + items[k..];
    }
  }

  /** Flushing every batch, the last one included, delivers the stream in order. */
  lemma BatchesFlatten<T>(items: seq<T>, k: nat)
    requires k >= 1
    ensures Flatten(Batches(items, k)) == items
  {
    FullChunksThenRest(items, k);
    var tail := if Rest(items, k) == [] then [] else [Rest(items, k)];
    FlattenAppend(FullChunks(items, k), tail);
    if Rest(items, k) != [] {
      assert Flatten(tail) == Rest(items, k) + Flatten(tail[1..]);
    }
  }

  /** Every batch is non-empty and at most `k` long; all but the last are exactly `k`. */
  lemma BatchesSizes<T>(items: seq<T>, k: nat)
    requires k >= 1
    ensures var b := Batches(items, k);
            (forall c :: 0 <= c < |b| ==> 0 < |b[c]| <= k)
            && (forall c :: 0 <= c < |b| - 1 ==> |b[c]| == k)
  {
  }

  /**
   * One more item: it joins the buffer, and when that fills the buffer the buffer
   * becomes one more full batch and the rest starts over empty.
   */
  lemma {:induction false} Push<T>(items: seq<T>, x: T, k: nat)
    requires k >= 1
    ensures var buffer := Rest(items, k) + [x];
            if |buffer| == k then
              FullChunks(items + [x], k) == FullChunks(items, k) + [buffer] && Rest(items + [x], k) == []
            else
              FullChunks(items + [x], k) == FullChunks(items, k) && Rest(items + [x], k) == buffer
    decreases |items|
  {
    if |items| >= k {
      Push(items[k..], x, k);
      assert (items + [x])[..k] == items[..k];
      assert (items + [x])[k..] == items[k..] + [x];
    } else if |items| + 1 == k {
      assert (items + [x])[..k] == items + [x];
      assert (items + [x])[k..] == [];
    }
  }
}
