/**
 * The sliding window: every stride offset of a fixed-size window over one
 * pyramid level, row by row, with the patch clipped at the bottom and
 * right edges the way array slicing clips it.
 */
module SlidingWindow {
  import opened Pyramid

  /**
   * One yielded window: its top-left offset and the extent of the patch
   * actually extracted there (smaller than the window when clipped).
   */
  datatype Window = Window(x: nat, y: nat, width: nat, height: nat)

  /**
   * The offsets 0, step, 2*step, ... that are below `n`, in increasing order.
   * Their number is the ceiling of n / step.
   */
  function Offsets(n: nat, step: nat): (r: seq<nat>)
    requires step > 0
    ensures forall i :: 0 <= i < |r| ==> r[i] == i * step && r[i] < n
    ensures |r| * step >= n
    ensures |r| == 0 || (|r| - 1) * step < n
  {
    OffsetsFrom(0, n, step)
  }

  /** The offsets start, start + step, ... that are below `n`. */
  function OffsetsFrom(start: nat, n: nat, step: nat): (r: seq<nat>)
    requires step > 0
    ensures forall i :: 0 <= i < |r| ==> r[i] == start + i * step && r[i] < n
    ensures start + |r| * step >= n
    ensures |r| == 0 || start + (|r| - 1) * step < n
    ensures start >= n ==> r == []
    decreases n - start
  {
    if start >= n then []
    else
      var rest := OffsetsFrom(start + step, n, step);
      assert forall i :: 0 < i < |rest| + 1 ==> start + i * step == start + step + (i - 1) * step by {
        forall i | 0 < i < |rest| + 1
          ensures start + i * step == start + step + (i - 1) * step
        {
          MulSucc(i - 1, step);
        }
      }
      MulSucc(|rest|, step);
      [start] + rest
  }

  /**
   * The extent of a slice [offset : offset + size] of an axis of length
   * `limit`: the requested size unless the slice runs past the end.
   */
  function Extent(offset: nat, size: nat, limit: nat): (e: nat)
    requires offset < limit
    ensures e <= size && e <= limit - offset
    ensures e == size <==> offset + size <= limit
    ensures e < size ==> e == limit - offset
  {
    if offset + size <= limit then size else limit - offset
  }

  /** The windows of one row, at height offset `y`, for every column offset in `xs`. */
  function Row(img: Size, y: nat, xs: seq<nat>, winW: nat, winH: nat): (r: seq<Window>)
    requires y < img.height
    requires forall j :: 0 <= j < |xs| ==> xs[j] < img.width
    ensures |r| == |xs|
    ensures forall j :: 0 <= j < |xs| ==>
      r[j] == Window(xs[j], y, Extent(xs[j], winW, img.width), Extent(y, winH, img.height))
  {
    seq(|xs|, j requires 0 <= j < |xs| => Window(xs[j], y, Extent(xs[j], winW, img.width), Extent(y, winH, img.height)))
  }

  /** The rows for every height offset in `ys`, one after the other: one window per pair of offsets. */
  function Rows(img: Size, ys: seq<nat>, xs: seq<nat>, winW: nat, winH: nat): (r: seq<Window>)
    requires forall i :: 0 <= i < |ys| ==> ys[i] < img.height
    requires forall j :: 0 <= j < |xs| ==> xs[j] < img.width
    ensures |r| == |ys| * |xs|
  {
    if ys == [] then []
    else
      MulSucc(|ys| - 1, |xs|);
      Row(img, ys[0], xs, winW, winH) + Rows(img, ys[1..], xs, winW, winH)
  }

  /**
   * All windows of a `winW` x `winH` window moved by `step` over an image of
   * size `img`: the outer loop runs over heights, the inner one over widths.
   * There is one window per pair of offsets, and none at all exactly when the
   * image has no rows or no columns.
   */
  function Windows(img: Size, step: nat, winW: nat, winH: nat): (r: seq<Window>)
    requires step > 0
    ensures |r| == |Offsets(img.height, step)| * |Offsets(img.width, step)|
    ensures r == [] <==> img.height == 0 || img.width == 0
  {
    var ys, xs := Offsets(img.height, step), Offsets(img.width, step);
    assert ys == [] <==> img.height == 0;
    assert xs == [] <==> img.width == 0;
    PositiveProduct(|ys|, |xs|);
    Rows(img, ys, xs, winW, winH)
  }

  /** A product of naturals is zero exactly when a factor is. */
  lemma PositiveProduct(a: nat, b: nat)
    ensures a * b == 0 <==> a == 0 || b == 0
  {
    if a > 0 && b > 0 {
      MulMonotone(1, a, b);
    }
  }

  /** A window is kept for classification only when its patch has the full window size. */
  predicate IsFull(w: Window, winW: nat, winH: nat) {
    w.height == winH && w.width == winW
  }

  /** The element of `Rows` at row `i`, column `j` sits at index i * |xs| + j. */
  lemma {:induction false} RowsAt(img: Size, ys: seq<nat>, xs: seq<nat>, winW: nat, winH: nat, i: nat, j: nat)
    requires forall k :: 0 <= k < |ys| ==> ys[k] < img.height
    requires forall k :: 0 <= k < |xs| ==> xs[k] < img.width
    requires i < |ys| && j < |xs|
    ensures |Rows(img, ys, xs, winW, winH)| == |ys| * |xs|
    ensures i * |xs| + j < |ys| * |xs|
    ensures Rows(img, ys, xs, winW, winH)[i * |xs| + j]
         == Window(xs[j], ys[i], Extent(xs[j], winW, img.width), Extent(ys[i], winH, img.height))
    decreases |ys|
  {
    var r := Rows(img, ys, xs, winW, winH);
    var first := Row(img, ys[0], xs, winW, winH);
    var rest := Rows(img, ys[1..], xs, winW, winH);
    assert r == first + rest;
    if i == 0 {
      if |ys| > 1 {
        RowsAt(img, ys[1..], xs, winW, winH, 0, j);
      } else {
        assert rest == [];
      }
      assert (|ys| - 1) * |xs| == |ys| * |xs| - |xs|;
    } else {
      RowsAt(img, ys[1..], xs, winW, winH, i - 1, j);
      assert (i - 1) * |xs| + j + |xs| == i * |xs| + j;
      assert (|ys| - 1) * |xs| + |xs| == |ys| * |xs|;
      assert r[i * |xs| + j] == rest[(i - 1) * |xs| + j];
    }
  }

  /**
   * The scan yields exactly ceil(H / step) * ceil(W / step) windows; the one at
   * index i * ceil(W / step) + j has offset (j * step, i * step) and a patch of
   * min(winW, W - x) columns by min(winH, H - y) rows. It has the full window
   * size exactly when the window lies inside the image.
   */
  lemma WindowsRowMajor(img: Size, step: nat, winW: nat, winH: nat, i: nat, j: nat)
    requires step > 0
    requires i < |Offsets(img.height, step)| && j < |Offsets(img.width, step)|
    ensures |Windows(img, step, winW, winH)| == |Offsets(img.height, step)| * |Offsets(img.width, step)|
    ensures i * |Offsets(img.width, step)| + j < |Windows(img, step, winW, winH)|
    ensures j * step < img.width && i * step < img.height
    ensures Windows(img, step, winW, winH)[i * |Offsets(img.width, step)| + j]
         == Window(j * step, i * step, Extent(j * step, winW, img.width), Extent(i * step, winH, img.height))
  {
    var ys, xs := Offsets(img.height, step), Offsets(img.width, step);
    assert forall k :: 0 <= k < |ys| ==> ys[k] < img.height;
    assert forall k :: 0 <= k < |xs| ==> xs[k] < img.width;
    assert Windows(img, step, winW, winH) == Rows(img, ys, xs, winW, winH);
    RowsAt(img, ys, xs, winW, winH, i, j);
    assert ys[i] == i * step && xs[j] == j * step;
  }

  /** The number of offsets below `n` is the ceiling of n / step. */
  lemma OffsetsCount(n: nat, step: nat)
    requires step > 0
    ensures |Offsets(n, step)| == (n + step - 1) / step
  {
    var k := |Offsets(n, step)|;
    var q := (n + step - 1) / step;
    assert q * step + (n + step - 1) % step == n + step - 1;
    if k < q {
      MulMonotone(k, q - 1, step);
    } else if k > q {
      MulMonotone(q, k - 1, step);
    }
  }

  lemma MulSucc(a: nat, c: nat)
    ensures (a + 1) * c == a * c + c
  {
  }

  lemma MulMonotone(a: nat, b: nat, c: nat)
    requires a <= b
    ensures a * c <= b * c
  {
    assert b * c == a * c + (b - a) * c;
  }

  /**
   * Every window the scan yields starts inside the image, and its patch has
   * the clipped extent of the window at that offset.
   */
  lemma {:induction false} WindowInside(img: Size, step: nat, winW: nat, winH: nat, k: nat)
    requires step > 0
    requires k < |Windows(img, step, winW, winH)|
    ensures var w := Windows(img, step, winW, winH)[k];
      && w.x < img.width && w.y < img.height
      && w.width == Extent(w.x, winW, img.width)
      && w.height == Extent(w.y, winH, img.height)
  {
    var ys, xs := Offsets(img.height, step), Offsets(img.width, step);
    RowsInside(img, ys, xs, winW, winH, k);
  }

  lemma {:induction false} RowsInside(img: Size, ys: seq<nat>, xs: seq<nat>, winW: nat, winH: nat, k: nat)
    requires forall i :: 0 <= i < |ys| ==> ys[i] < img.height
    requires forall j :: 0 <= j < |xs| ==> xs[j] < img.width
    requires k < |Rows(img, ys, xs, winW, winH)|
    ensures var w := Rows(img, ys, xs, winW, winH)[k];
      && w.x < img.width && w.y < img.height
      && w.width == Extent(w.x, winW, img.width)
      && w.height == Extent(w.y, winH, img.height)
    decreases |ys|
  {
    if k >= |xs| {
      RowsInside(img, ys[1..], xs, winW, winH, k - |xs|);
    }
  }
}
