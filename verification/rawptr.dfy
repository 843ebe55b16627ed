/** The pointer layer: element-granular operations on one typed address
    (the `RawPtrExt` and `RawMutPtrExt` extension traits).

    Every operation is unchecked in raw-rs; what it demands of its caller
    (in-bounds arithmetic, a dereferenceable address, disjoint spans) is stated
    here as a `requires` clause.
 */
module RawPtr {
  import opened Memory

  /** `as_raw_slice` / `as_raw_mut_slice`: pair an address with a length, checking nothing. */
  function AsRawSlice(p: Ptr, len: nat): (r: Region)
    ensures r.base == p && r.len == len
  {
    Region(p, len)
  }

  /** `as_slice`: the `len` elements starting at `p`, each the value a read
      through `p.add(i)` would return. */
  function AsSlice<T>(h: Heap<T>, p: Ptr, len: nat): (r: seq<T>)
    requires ValidSpan(h, p, len)
    ensures |r| == len
    ensures forall i :: 0 <= i < len ==> r[i] == Read(h, Add(h, p, i))
  {
    View(h, p, len)
  }

  /** `add`: move forward `count` elements. A non-zero offset must land inside
      the same object or exactly one past its end. */
  function Add<T>(h: Heap<T>, p: Ptr, count: nat): (r: Ptr)
    requires count == 0 || (InBounds(h, p) && p.off + count <= |h[p.obj]|)
    ensures r.obj == p.obj && r.off - p.off == count
    ensures InBounds(h, p) ==> InBounds(h, r)
  {
    Ptr(p.obj, p.off + count)
  }

  /** `sub`: move back `count` elements, under the same in-bounds rule as `add`. */
  function Sub<T>(h: Heap<T>, p: Ptr, count: nat): (r: Ptr)
    requires count == 0 || (InBounds(h, p) && count <= p.off)
    ensures r.obj == p.obj && p.off - r.off == count
    ensures InBounds(h, p) ==> InBounds(h, r)
  {
    Ptr(p.obj, p.off - count)
  }

  /** `read`: the value stored at `p`; memory is left as it was. */
  function Read<T>(h: Heap<T>, p: Ptr): (r: T)
    requires Valid(h, p)
    ensures [r] == View(h, p, 1)
  {
    h[p.obj][p.off]
  }

  /** `write`: store `v` at `p` without looking at what was there. */
  function Write<T>(h: Heap<T>, p: Ptr, v: T): (r: Heap<T>)
    requires Valid(h, p)
    ensures Valid(r, p) && Read(r, p) == v
    ensures SameExcept(h, r, p, 1)
  {
    h[p.obj := h[p.obj][p.off := v]]
  }

  /** `swap`: exchange the values at `x` and `y`, which may be the same address.
      The value at `x` is saved, `y`'s value is moved into `x`, and the saved
      value is written to `y`; when `x == y` the second write restores the first. */
  function Swap<T>(h: Heap<T>, x: Ptr, y: Ptr): (r: Heap<T>)
    requires Valid(h, x) && Valid(h, y)
    ensures SameShape(h, r)
    ensures Read(r, x) == Read(h, y) && Read(r, y) == Read(h, x)
    ensures forall q :: Valid(h, q) && q != x && q != y ==> Read(r, q) == Read(h, q)
    ensures x == y ==> r == h
  {
    var saved := Read(h, x);
    var r := Write(Write(h, x, Read(h, y)), y, saved);
    assert x == y ==> r == h by {
      if x == y {
        assert r[x.obj] == h[x.obj];
      }
    }
    r
  }

  /** `replace`: install `v` at `p` and hand back the value it displaced. */
  function Replace<T>(h: Heap<T>, p: Ptr, v: T): (r: (T, Heap<T>))
    requires Valid(h, p)
    ensures r.0 == Read(h, p)
    ensures Valid(r.1, p) && Read(r.1, p) == v
    ensures SameExcept(h, r.1, p, 1)
  {
    (Read(h, p), Write(h, p, v))
  }

  /** The memory obtained from `h` when the destination elements at offsets
      `lo .. hi` from `dst` hold the values the source elements at the same
      offsets from `src` have in `h`; every other element keeps its value. */
  function MovedRange<T>(h: Heap<T>, src: Ptr, dst: Ptr, lo: nat, hi: nat): Heap<T>
    requires lo <= hi && ValidSpan(h, src, hi) && ValidSpan(h, dst, hi)
  {
    var o := h[dst.obj];
    h[dst.obj := seq(|o|, k requires 0 <= k < |o| =>
                       if dst.off + lo <= k < dst.off + hi then h[src.obj][src.off + (k - dst.off)] else o[k])]
  }

  lemma MovedRangeEmpty<T>(h: Heap<T>, src: Ptr, dst: Ptr, n: nat)
    requires ValidSpan(h, src, n) && ValidSpan(h, dst, n)
    ensures MovedRange(h, src, dst, n, n) == h
  {
    assert MovedRange(h, src, dst, n, n)[dst.obj] == h[dst.obj];
  }

  /** Everything `MovedRange` promises once the whole span has been moved. */
  lemma MovedRangeFull<T>(h: Heap<T>, src: Ptr, dst: Ptr, n: nat)
    requires ValidSpan(h, src, n) && ValidSpan(h, dst, n)
    ensures SameExcept(h, MovedRange(h, src, dst, 0, n), dst, n)
    ensures View(MovedRange(h, src, dst, 0, n), dst, n) == View(h, src, n)
  {
  }

  /** Moving one more element at the low end of the moved range. */
  lemma MovedRangeDown<T>(h: Heap<T>, src: Ptr, dst: Ptr, lo: nat, hi: nat)
    requires 0 < lo <= hi && ValidSpan(h, src, hi) && ValidSpan(h, dst, hi)
    ensures Write(MovedRange(h, src, dst, lo, hi), Ptr(dst.obj, dst.off + lo - 1), h[src.obj][src.off + lo - 1])
            == MovedRange(h, src, dst, lo - 1, hi)
  {
    var w := Write(MovedRange(h, src, dst, lo, hi), Ptr(dst.obj, dst.off + lo - 1), h[src.obj][src.off + lo - 1]);
    assert w[dst.obj] == MovedRange(h, src, dst, lo - 1, hi)[dst.obj];
  }

  /** Moving one more element at the high end of the moved range. */
  lemma MovedRangeUp<T>(h: Heap<T>, src: Ptr, dst: Ptr, lo: nat, hi: nat)
    requires lo <= hi && ValidSpan(h, src, hi + 1) && ValidSpan(h, dst, hi + 1)
    ensures Write(MovedRange(h, src, dst, lo, hi), Ptr(dst.obj, dst.off + hi), h[src.obj][src.off + hi])
            == MovedRange(h, src, dst, lo, hi + 1)
  {
    var w := Write(MovedRange(h, src, dst, lo, hi), Ptr(dst.obj, dst.off + hi), h[src.obj][src.off + hi]);
    assert w[dst.obj] == MovedRange(h, src, dst, lo, hi + 1)[dst.obj];
  }

  /** `copy` (memmove): afterwards the `count` elements at `dst` hold the values
      the `count` elements at `src` held BEFORE the call, even when the two
      spans overlap; nothing else changes. The elements are moved one at a time,
      from the top down when the destination lies above the source in the same
      object, so that no source element is overwritten before it is read. */
  method Copy<T>(h: Heap<T>, src: Ptr, dst: Ptr, count: nat) returns (h': Heap<T>)
    requires ValidSpan(h, src, count) && ValidSpan(h, dst, count)
    ensures SameExcept(h, h', dst, count)
    ensures View(h', dst, count) == View(h, src, count)
  {
    h' := h;
    if src.obj == dst.obj && src.off < dst.off {
      var i: nat := count;
      MovedRangeEmpty(h, src, dst, count);
      while i > 0
        invariant i <= count
        invariant h' == MovedRange(h, src, dst, i, count)
      {
        var v := Read(h', Ptr(src.obj, src.off + i - 1));
        assert v == h[src.obj][src.off + i - 1];
        h' := Write(h', Ptr(dst.obj, dst.off + i - 1), v);
        MovedRangeDown(h, src, dst, i, count);
        i := i - 1;
      }
    } else {
      var i := 0;
      MovedRangeEmpty(h, src, dst, 0);
      while i < count
        invariant i <= count
        invariant h' == MovedRange(h, src, dst, 0, i)
      {
        var v := Read(h', Ptr(src.obj, src.off + i));
        assert v == h[src.obj][src.off + i];
        h' := Write(h', Ptr(dst.obj, dst.off + i), v);
        MovedRangeUp(h, src, dst, 0, i);
        i := i + 1;
      }
    }
    MovedRangeFull(h, src, dst, count);
  }

  /** `copy_nonoverlapping` (memcpy): the spans must be disjoint; the elements
      are moved front to back, and the result is that of `Copy`. */
  method CopyNonoverlapping<T>(h: Heap<T>, src: Ptr, dst: Ptr, count: nat) returns (h': Heap<T>)
    requires ValidSpan(h, src, count) && ValidSpan(h, dst, count)
    requires Disjoint(src, dst, count)
    ensures SameExcept(h, h', dst, count)
    ensures View(h', dst, count) == View(h, src, count)
  {
    h' := h;
    var i := 0;
    MovedRangeEmpty(h, src, dst, 0);
    while i < count
      invariant i <= count
      invariant h' == MovedRange(h, src, dst, 0, i)
    {
      var v := Read(h', Ptr(src.obj, src.off + i));
      assert v == h[src.obj][src.off + i];
      h' := Write(h', Ptr(dst.obj, dst.off + i), v);
      MovedRangeUp(h, src, dst, 0, i);
      i := i + 1;
    }
    MovedRangeFull(h, src, dst, count);
  }

  /** `write_bytes`: every one of the `count` elements starting at `p` becomes
      `fill(b)`, the value of T all of whose bytes are `b`; nothing else changes. */
  method WriteBytes<T>(h: Heap<T>, p: Ptr, b: Byte, count: nat, fill: Byte -> T) returns (h': Heap<T>)
    requires ValidSpan(h, p, count)
    ensures SameExcept(h, h', p, count)
    ensures forall i :: 0 <= i < count ==> View(h', p, count)[i] == fill(b)
  {
    h' := h;
    var i := 0;
    while i < count
      invariant i <= count
      invariant SameExcept(h, h', p, i)
      invariant forall k :: p.off <= k < p.off + i ==> h'[p.obj][k] == fill(b)
    {
      h' := Write(h', Ptr(p.obj, p.off + i), fill(b));
      i := i + 1;
    }
  }

  /** `p.add(k).sub(j)` is `p.add(k - j)`. */
  lemma AddThenSub<T>(h: Heap<T>, p: Ptr, k: nat, j: nat)
    requires InBounds(h, p) && p.off + k <= |h[p.obj]| && j <= k
    ensures Sub(h, Add(h, p, k), j) == Add(h, p, k - j)
  {
  }

  /** Offsets compose: `p.add(a).add(b)` is `p.add(a + b)`. */
  lemma AddAdd<T>(h: Heap<T>, p: Ptr, a: nat, b: nat)
    requires InBounds(h, p) && p.off + a + b <= |h[p.obj]|
    ensures Add(h, Add(h, p, a), b) == Add(h, p, a + b)
  {
  }

  /** A read after a write sees the written value at that address and the old
      value everywhere else. */
  lemma ReadAfterWrite<T>(h: Heap<T>, p: Ptr, v: T, q: Ptr)
    requires Valid(h, p) && Valid(h, q)
    ensures Valid(Write(h, p, v), q)
    ensures Read(Write(h, p, v), q) == if q == p then v else Read(h, q)
  {
  }

  /** Writing back the value just read changes nothing. */
  lemma WriteWhatWasRead<T>(h: Heap<T>, p: Ptr)
    requires Valid(h, p)
    ensures Write(h, p, Read(h, p)) == h
  {
    assert Write(h, p, Read(h, p))[p.obj] == h[p.obj];
  }

  /** Of two writes to one address, the second wins. */
  lemma WriteTwice<T>(h: Heap<T>, p: Ptr, v: T, w: T)
    requires Valid(h, p)
    ensures Write(Write(h, p, v), p, w) == Write(h, p, w)
  {
    assert Write(Write(h, p, v), p, w)[p.obj] == Write(h, p, w)[p.obj];
  }

  /** Swapping twice restores memory. */
  lemma SwapTwice<T>(h: Heap<T>, x: Ptr, y: Ptr)
    requires Valid(h, x) && Valid(h, y)
    ensures Valid(Swap(h, x, y), x) && Valid(Swap(h, x, y), y)
    ensures Swap(Swap(h, x, y), x, y) == h
  {
    var h2 := Swap(Swap(h, x, y), x, y);
    forall o | 0 <= o < |h|
      ensures h2[o] == h[o]
    {
      forall k | 0 <= k < |h[o]|
        ensures h2[o][k] == h[o][k]
      {
        assert Read(h2, Ptr(o, k)) == Read(h, Ptr(o, k));
      }
    }
  }

  /** Swap does not depend on the order of its arguments. */
  lemma SwapSymmetric<T>(h: Heap<T>, x: Ptr, y: Ptr)
    requires Valid(h, x) && Valid(h, y)
    ensures Swap(h, x, y) == Swap(h, y, x)
  {
    var a, b := Swap(h, x, y), Swap(h, y, x);
    forall o | 0 <= o < |h|
      ensures a[o] == b[o]
    {
      forall k | 0 <= k < |h[o]|
        ensures a[o][k] == b[o][k]
      {
        assert Read(a, Ptr(o, k)) == Read(b, Ptr(o, k));
      }
    }
  }

  /** Replacing with the value a replace returned undoes it. */
  lemma ReplaceBack<T>(h: Heap<T>, p: Ptr, v: T)
    requires Valid(h, p)
    ensures Replace(Replace(h, p, v).1, p, Replace(h, p, v).0) == (v, h)
  {
    WriteTwice(h, p, v, Read(h, p));
    WriteWhatWasRead(h, p);
  }
}
