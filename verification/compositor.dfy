/** The deferred depth-tested compositor `End` (render.go:321-332). It walks
    the recorded vertices in order; a vertex strictly inside the framebuffer
    (row 0 and column 0 excluded) writes its colour and depth to pixel
    `x + mx*y` when its depth is strictly below the stored one. */
module Compositor {
  import opened RenderTypes

  /** The colour plane and the depth plane, both row-major. */
  datatype Buffers = Buffers(d: seq<Color>, z: seq<real>)

  /** The bounds test of `End`: `0 < x < mx` and `0 < y < my`. */
  predicate Accepts(v: IVec2, mx: int, my: int)
  {
    0 < v.x < mx && 0 < v.y < my
  }

  /** Row-major pixel index `x + mx*y`. */
  function PixelIndex(v: IVec2, mx: int): int
  {
    v.x + mx * v.y
  }

  /** An accepted vertex addresses a pixel of the `mx`×`my` plane, never
      pixel 0. */
  lemma AcceptedIndexInRange(v: IVec2, mx: int, my: int)
    requires Accepts(v, mx, my)
    ensures 0 < PixelIndex(v, mx) < mx * my
  {
    assert mx * v.y <= mx * (my - 1) by {
      assert mx * (my - 1) - mx * v.y == mx * (my - 1 - v.y);
    }
    assert mx * (my - 1) == mx * my - mx;
  }

  /** Entry `k` is accepted and addresses pixel `q`. */
  predicate Hits(vs: seq<IVec2>, mx: int, my: int, k: int, q: int)
  {
    0 <= k < |vs| && Accepts(vs[k], mx, my) && PixelIndex(vs[k], mx) == q
  }

  /** What the source needs so that no index is out of range: every accepted
      entry has a colour and a depth, and its pixel exists in both planes. */
  predicate CanComposite(mx: int, my: int, b: Buffers, vs: seq<IVec2>, cs: seq<Color>, ds: seq<real>)
  {
    forall k :: 0 <= k < |vs| && Accepts(vs[k], mx, my) ==>
      k < |cs| && k < |ds| && 0 <= PixelIndex(vs[k], mx) < |b.d| && PixelIndex(vs[k], mx) < |b.z|
  }

  /** One iteration of the loop of `End` on entry `k`. */
  function Apply(mx: int, my: int, b: Buffers, vs: seq<IVec2>, cs: seq<Color>, ds: seq<real>, k: nat): (r: Buffers)
    requires k < |vs| && CanComposite(mx, my, b, vs, cs, ds)
    ensures |r.d| == |b.d| && |r.z| == |b.z|
    ensures forall q :: 0 <= q < |b.z| && q < |b.d| && !Hits(vs, mx, my, k, q) ==> r.d[q] == b.d[q] && r.z[q] == b.z[q]
  {
    var v := vs[k];
    if Accepts(v, mx, my) && ds[k] < b.z[PixelIndex(v, mx)] then
      var index := PixelIndex(v, mx);
      Buffers(b.d[index := cs[k]], b.z[index := ds[k]])
    else
      b
  }

  /** The buffers after the loop of `End` has handled entries `0..n-1`:
      depths never rise, a pixel no accepted entry addresses is untouched, and
      every pixel ends at or below the depth of each entry that addresses it. */
  function Composite(mx: int, my: int, b: Buffers, vs: seq<IVec2>, cs: seq<Color>, ds: seq<real>, n: nat): (r: Buffers)
    requires n <= |vs| && CanComposite(mx, my, b, vs, cs, ds)
    ensures |r.d| == |b.d| && |r.z| == |b.z|
    ensures forall q :: 0 <= q < |b.z| ==> r.z[q] <= b.z[q]
    ensures forall q :: 0 <= q < |b.z| && q < |b.d| && (forall k :: 0 <= k < n ==> !Hits(vs, mx, my, k, q)) ==>
              r.d[q] == b.d[q] && r.z[q] == b.z[q]
    ensures forall k :: 0 <= k < n && Accepts(vs[k], mx, my) ==> r.z[PixelIndex(vs[k], mx)] <= ds[k]
  {
    if n == 0 then
      b
    else
      var r0 := Composite(mx, my, b, vs, cs, ds, n - 1);
      assert CanComposite(mx, my, r0, vs, cs, ds);
      Apply(mx, my, r0, vs, cs, ds, n - 1)
  }

  /** Entry `j` wins pixel `q` among the first `n` entries: it addresses `q`,
      is strictly closer than the depth `q` started with, no entry addressing
      `q` is closer, and every earlier entry addressing `q` is strictly
      farther. */
  predicate Winner(mx: int, my: int, b: Buffers, vs: seq<IVec2>, cs: seq<Color>, ds: seq<real>, n: nat, j: int, q: int)
    requires n <= |vs| && CanComposite(mx, my, b, vs, cs, ds) && 0 <= q < |b.z|
  {
    && j < n && Hits(vs, mx, my, j, q)
    && ds[j] < b.z[q]
    && (forall k :: 0 <= k < n && Hits(vs, mx, my, k, q) ==> ds[j] <= ds[k])
    && (forall k :: 0 <= k < j && Hits(vs, mx, my, k, q) ==> ds[j] < ds[k])
  }

  /** At most one entry wins a pixel. */
  lemma WinnerUnique(mx: int, my: int, b: Buffers, vs: seq<IVec2>, cs: seq<Color>, ds: seq<real>, n: nat, j: int, j': int, q: int)
    requires n <= |vs| && CanComposite(mx, my, b, vs, cs, ds) && 0 <= q < |b.z|
    requires Winner(mx, my, b, vs, cs, ds, n, j, q) && Winner(mx, my, b, vs, cs, ds, n, j', q)
    ensures j == j'
  {
  }

  /** Compositor: after entries `0..n-1`, a pixel either kept its colour and
      depth, because no entry addressing it was strictly closer than its
      starting depth, or holds the colour and depth of the winning entry. */
  lemma {:induction false} CompositePixel(mx: int, my: int, b: Buffers, vs: seq<IVec2>, cs: seq<Color>, ds: seq<real>, n: nat, q: int)
    requires n <= |vs| && CanComposite(mx, my, b, vs, cs, ds) && 0 <= q < |b.z| && q < |b.d|
    ensures var r := Composite(mx, my, b, vs, cs, ds, n);
      || (&& (forall k :: 0 <= k < n && Hits(vs, mx, my, k, q) ==> ds[k] >= b.z[q])
          && r.d[q] == b.d[q] && r.z[q] == b.z[q])
      || (exists j :: Winner(mx, my, b, vs, cs, ds, n, j, q) && r.d[q] == cs[j] && r.z[q] == ds[j])
  {
    if n > 0 {
      var e := n - 1;
      var r0 := Composite(mx, my, b, vs, cs, ds, e);
      var r := Composite(mx, my, b, vs, cs, ds, n);
      assert r == Apply(mx, my, r0, vs, cs, ds, e);
      CompositePixel(mx, my, b, vs, cs, ds, e, q);
      if !Hits(vs, mx, my, e, q) {
        assert r.d[q] == r0.d[q] && r.z[q] == r0.z[q];
        if j :| Winner(mx, my, b, vs, cs, ds, e, j, q) && r0.d[q] == cs[j] && r0.z[q] == ds[j] {
          assert Winner(mx, my, b, vs, cs, ds, n, j, q);
        }
      } else if j :| Winner(mx, my, b, vs, cs, ds, e, j, q) && r0.d[q] == cs[j] && r0.z[q] == ds[j] {
        if ds[e] < ds[j] {
          assert r.d[q] == cs[e] && r.z[q] == ds[e];
          assert Winner(mx, my, b, vs, cs, ds, n, e, q);
        } else {
          assert r.d[q] == r0.d[q] && r.z[q] == r0.z[q];
          assert Winner(mx, my, b, vs, cs, ds, n, j, q);
        }
      } else {
        if ds[e] < b.z[q] {
          assert r.d[q] == cs[e] && r.z[q] == ds[e];
          assert Winner(mx, my, b, vs, cs, ds, n, e, q);
        } else {
          assert r.d[q] == r0.d[q] && r.z[q] == r0.z[q];
        }
      }
    }
  }

  /** Entries none of which is strictly closer than what their pixels hold
      change nothing. */
  lemma {:induction false} CompositeStable(mx: int, my: int, b: Buffers, vs: seq<IVec2>, cs: seq<Color>, ds: seq<real>, n: nat)
    requires n <= |vs| && CanComposite(mx, my, b, vs, cs, ds)
    requires forall k :: 0 <= k < n && Accepts(vs[k], mx, my) ==> b.z[PixelIndex(vs[k], mx)] <= ds[k]
    ensures Composite(mx, my, b, vs, cs, ds, n) == b
  {
    if n > 0 {
      CompositeStable(mx, my, b, vs, cs, ds, n - 1);
    }
  }

  /** Running the compositor over the same entries a second time changes
      nothing: every pixel already holds a depth no entry beats. */
  lemma CompositeIdempotent(mx: int, my: int, b: Buffers, vs: seq<IVec2>, cs: seq<Color>, ds: seq<real>)
    requires CanComposite(mx, my, b, vs, cs, ds)
    ensures var r := Composite(mx, my, b, vs, cs, ds, |vs|);
      CanComposite(mx, my, r, vs, cs, ds) && Composite(mx, my, r, vs, cs, ds, |vs|) == r
  {
    var r := Composite(mx, my, b, vs, cs, ds, |vs|);
    CompositeStable(mx, my, r, vs, cs, ds, |vs|);
  }
}
