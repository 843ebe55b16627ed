/** The region layer: operations on an (address, length) descriptor (the
    `RawSlice`, `RawMutSlice` and `SliceRawExt` extension traits), each built on
    the pointer layer.

    The declared length is advisory. Indexed access (`Read`, `Get`, `Write`,
    `GetMut`) ignores it and asks only that the addressed element exist in the
    underlying object; whole-region operations (`WriteBytes`) use it, and the
    copies use the SOURCE region's length, never the target's.
 */
module RawSlice {
  import opened Memory
  import RawPtr

  /** `len`: the declared element count. */
  function Len(s: Region): (r: nat)
    ensures RawPtr.AsRawSlice(s.base, r) == s
  {
    s.len
  }

  /** `as_ptr` / `as_mut_ptr`: the base address. */
  function AsPtr(s: Region): (r: Ptr)
    ensures RawPtr.AsRawSlice(r, s.len) == s
  {
    s.base
  }

  /** The address `i` elements past the base of `s`, whatever its declared
      length: `as_ptr().add(i)` without `add`'s in-bounds precondition, so that
      contracts can name the address an index designates before asking that it
      be valid. */
  function At(s: Region, i: nat): Ptr {
    Ptr(s.base.obj, s.base.off + i)
  }

  /** Forming a region from an address and a length, then taking them back
      apart, gives the same address and length, and conversely. */
  lemma AsRawSliceRoundTrip(p: Ptr, n: nat, s: Region)
    ensures AsPtr(RawPtr.AsRawSlice(p, n)) == p && Len(RawPtr.AsRawSlice(p, n)) == n
    ensures RawPtr.AsRawSlice(AsPtr(s), Len(s)) == s
  {
  }

  /** `as_slice` / `as_mut_slice`: the declared span as a sequence of elements,
      the `i`-th being what `read(i)` returns. */
  function AsSlice<T>(h: Heap<T>, s: Region): (r: seq<T>)
    requires ValidSpan(h, AsPtr(s), Len(s))
    ensures |r| == Len(s)
    ensures forall i :: 0 <= i < |r| ==> r[i] == Read(h, s, i)
  {
    RawPtr.AsSlice(h, AsPtr(s), Len(s))
  }

  /** `read`: `as_ptr().add(index).read()`. The index is not checked against
      `len()`; the element must exist in the underlying object. */
  function Read<T>(h: Heap<T>, s: Region, index: nat): (r: T)
    requires Valid(h, At(s, index))
    ensures r == h[s.base.obj][s.base.off + index]
  {
    RawPtr.Read(h, RawPtr.Add(h, AsPtr(s), index))
  }

  /** `get`: a shared reference to the element at `index`, i.e. its address;
      reading through it gives `read(index)`. */
  function Get<T>(h: Heap<T>, s: Region, index: nat): (r: Ptr)
    requires Valid(h, At(s, index))
    ensures r == At(s, index)
    ensures Valid(h, r) && RawPtr.Read(h, r) == Read(h, s, index)
  {
    RawPtr.Add(h, AsPtr(s), index)
  }

  /** `get_mut`: a mutable reference to the element at `index`; storing through
      it is `write(index, _)` (see `GetMutWrite`). */
  function GetMut<T>(h: Heap<T>, s: Region, index: nat): (r: Ptr)
    requires Valid(h, At(s, index))
    ensures Valid(h, r) && r.obj == s.base.obj && r.off - s.base.off == index
  {
    RawPtr.Add(h, AsPtr(s), index)
  }

  /** `slice`: the sub-region `from .. to`, based at `as_ptr().add(from)` with
      length `to - from`. As in raw-rs, only `from <= to` and the
      arithmetic on the base are required; `to` is not compared with `len()`. */
  function Slice<T>(h: Heap<T>, s: Region, from: nat, to: nat): (r: Region)
    requires from <= to
    requires from == 0 || (InBounds(h, AsPtr(s)) && s.base.off + from <= |h[s.base.obj]|)
    ensures Len(r) == to - from
    ensures AsPtr(r).obj == AsPtr(s).obj && AsPtr(r).off - AsPtr(s).off == from
  {
    RawPtr.AsRawSlice(RawPtr.Add(h, AsPtr(s), from), to - from)
  }

  /** `slice_to`: the first `to` elements. */
  function SliceTo<T>(h: Heap<T>, s: Region, to: nat): (r: Region)
    ensures AsPtr(r) == AsPtr(s) && Len(r) == to
  {
    Slice(h, s, 0, to)
  }

  /** `slice_from`: everything from `from` to the declared end. */
  function SliceFrom<T>(h: Heap<T>, s: Region, from: nat): (r: Region)
    requires from <= Len(s)
    requires from == 0 || (InBounds(h, AsPtr(s)) && s.base.off + from <= |h[s.base.obj]|)
    ensures Len(r) == Len(s) - from
    ensures AsPtr(r).obj == AsPtr(s).obj && AsPtr(r).off - AsPtr(s).off == from
  {
    Slice(h, s, from, Len(s))
  }

  /** `write`: store `val` at `as_ptr().add(index)`, ignoring `len()`. */
  function Write<T>(h: Heap<T>, s: Region, index: nat, val: T): (r: Heap<T>)
    requires Valid(h, At(s, index))
    ensures Valid(r, At(s, index)) && Read(r, s, index) == val
    ensures SameExcept(h, r, At(s, index), 1)
  {
    RawPtr.Write(h, RawPtr.Add(h, AsPtr(s), index), val)
  }

  /** `write_bytes`: every element of the declared span (its own `len()`)
      becomes `fill(b)`; nothing else changes. */
  method WriteBytes<T>(h: Heap<T>, s: Region, b: Byte, fill: Byte -> T) returns (h': Heap<T>)
    requires ValidSpan(h, AsPtr(s), Len(s))
    ensures SameExcept(h, h', AsPtr(s), Len(s))
    ensures ValidSpan(h', AsPtr(s), Len(s))
    ensures forall i :: 0 <= i < Len(s) ==> View(h', AsPtr(s), Len(s))[i] == fill(b)
  {
    h' := RawPtr.WriteBytes(h, AsPtr(s), b, Len(s), fill);
  }

  /** `copy`: move `from.len()` elements from `from` to this region's base,
      tolerating overlap. The target's own length is not consulted. */
  method Copy<T>(h: Heap<T>, s: Region, from: Region) returns (h': Heap<T>)
    requires ValidSpan(h, AsPtr(from), Len(from)) && ValidSpan(h, AsPtr(s), Len(from))
    ensures SameExcept(h, h', AsPtr(s), Len(from))
    ensures View(h', AsPtr(s), Len(from)) == View(h, AsPtr(from), Len(from))
  {
    h' := RawPtr.Copy(h, AsPtr(from), AsPtr(s), Len(from));
  }

  /** `copy_nonoverlapping`: as `Copy`, for spans that do not overlap. */
  method CopyNonoverlapping<T>(h: Heap<T>, s: Region, from: Region) returns (h': Heap<T>)
    requires ValidSpan(h, AsPtr(from), Len(from)) && ValidSpan(h, AsPtr(s), Len(from))
    requires Disjoint(AsPtr(from), AsPtr(s), Len(from))
    ensures SameExcept(h, h', AsPtr(s), Len(from))
    ensures View(h', AsPtr(s), Len(from)) == View(h, AsPtr(from), Len(from))
  {
    h' := RawPtr.CopyNonoverlapping(h, AsPtr(from), AsPtr(s), Len(from));
  }

  /** `as_raw` / `as_mut_raw`: the region over a slice, which is the span of
      `n` elements starting at `p` (a whole object or any part of one). */
  function AsRaw<T>(h: Heap<T>, p: Ptr, n: nat): (r: Region)
    requires ValidSpan(h, p, n)
    ensures ValidSpan(h, AsPtr(r), Len(r))
    ensures AsPtr(r) == p && Len(r) == n
  {
    Region(p, n)
  }

  /** Converting a slice to a region and viewing the region as a slice gives
      back the slice's elements. */
  lemma AsRawRoundTrip<T>(h: Heap<T>, p: Ptr, n: nat)
    requires ValidSpan(h, p, n)
    ensures AsSlice(h, AsRaw(h, p, n)) == View(h, p, n)
  {
  }

  /** Indexed reads depend on the base only, not on the declared length. */
  lemma ReadIgnoresLen<T>(h: Heap<T>, base: Ptr, n: nat, m: nat, i: nat)
    requires Valid(h, At(Region(base, n), i))
    ensures Read(h, Region(base, n), i) == Read(h, Region(base, m), i)
  {
  }

  /** Indexed writes depend on the base only, not on the declared length. */
  lemma WriteIgnoresLen<T>(h: Heap<T>, base: Ptr, n: nat, m: nat, i: nat, v: T)
    requires Valid(h, At(Region(base, n), i))
    ensures Write(h, Region(base, n), i, v) == Write(h, Region(base, m), i, v)
  {
  }

  /** Storing through the reference `get_mut` returns is `write(index, _)`. */
  lemma GetMutWrite<T>(h: Heap<T>, s: Region, index: nat, v: T)
    requires Valid(h, At(s, index))
    ensures RawPtr.Write(h, GetMut(h, s, index), v) == Write(h, s, index, v)
  {
  }

  /** A read at `j` after a write at `i` sees the new value when `i == j` and
      the old one otherwise. */
  lemma ReadAfterWrite<T>(h: Heap<T>, s: Region, i: nat, v: T, j: nat)
    requires Valid(h, At(s, i)) && Valid(h, At(s, j))
    ensures Valid(Write(h, s, i, v), At(s, j))
    ensures Read(Write(h, s, i, v), s, j) == if i == j then v else Read(h, s, j)
  {
  }

  /** The elements of `slice(from, to)` are elements `from .. to` of the region. */
  lemma SliceElements<T>(h: Heap<T>, s: Region, from: nat, to: nat)
    requires from <= to <= Len(s) && ValidSpan(h, AsPtr(s), Len(s))
    ensures ValidSpan(h, AsPtr(Slice(h, s, from, to)), Len(Slice(h, s, from, to)))
    ensures AsSlice(h, Slice(h, s, from, to)) == AsSlice(h, s)[from..to]
  {
  }

  /** `slice_to(to)` is `slice(0, to)` and `slice_from(from)` is `slice(from, len())`. */
  lemma SliceToFrom<T>(h: Heap<T>, s: Region, k: nat)
    requires k <= Len(s) && ValidSpan(h, AsPtr(s), Len(s))
    ensures SliceTo(h, s, k) == Slice(h, s, 0, k)
    ensures SliceFrom(h, s, k) == Slice(h, s, k, Len(s))
    ensures AsSlice(h, SliceTo(h, s, k)) == AsSlice(h, s)[..k]
    ensures AsSlice(h, SliceFrom(h, s, k)) == AsSlice(h, s)[k..]
  {
    SliceElements(h, s, 0, k);
    SliceElements(h, s, k, Len(s));
  }

  /** A slice of a slice is a slice of the original region. */
  lemma SliceOfSlice<T>(h: Heap<T>, s: Region, a: nat, b: nat, c: nat, d: nat)
    requires a <= b && c <= d && ValidSpan(h, AsPtr(s), a + d)
    ensures Slice(h, Slice(h, s, a, b), c, d) == Slice(h, s, a + c, a + d)
  {
  }
}
