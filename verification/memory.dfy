/** The memory model shared by the pointer layer and the region layer.

    Memory is a value: a sequence of objects (allocations), each a sequence of
    elements of the pointee type T. An address names an object and an element
    offset inside it; the offset equal to the object's length is the
    one-past-the-end address, which may be computed and compared but never
    dereferenced. Every operation of the library takes the memory it touches as
    an argument and, when it writes, returns the memory after the write.
 */
module Memory {

  /** A `u8`: the fill byte of `write_bytes`. */
  type Byte = b: int | 0 <= b < 256

  /** A typed raw address: object `obj`, element offset `off` (in units of T). */
  datatype Ptr = Ptr(obj: nat, off: nat)

  /** A raw region (`*const [T]` / `*mut [T]`): a base address and a declared length. */
  datatype Region = Region(base: Ptr, len: nat)

  /** All live objects; an object is identified by its position. */
  type Heap<T> = seq<seq<T>>

  /** `p` lies inside a live object or exactly one element past its end. */
  predicate InBounds<T>(h: Heap<T>, p: Ptr) {
    p.obj < |h| && p.off <= |h[p.obj]|
  }

  /** `p` designates an element that can be read or written. */
  predicate Valid<T>(h: Heap<T>, p: Ptr) {
    p.obj < |h| && p.off < |h[p.obj]|
  }

  /** The `n` elements starting at `p` all lie inside one live object. */
  predicate ValidSpan<T>(h: Heap<T>, p: Ptr, n: nat) {
    p.obj < |h| && p.off + n <= |h[p.obj]|
  }

  /** The spans of `n` elements starting at `p` and at `q` share no element. */
  predicate Disjoint(p: Ptr, q: Ptr, n: nat) {
    p.obj != q.obj || p.off + n <= q.off || q.off + n <= p.off
  }

  /** The `n` elements starting at `p`, as the caller would see them through a slice. */
  function View<T>(h: Heap<T>, p: Ptr, n: nat): seq<T>
    requires ValidSpan(h, p, n)
  {
    h[p.obj][p.off..p.off + n]
  }

  /** `h'` has the same objects as `h`, each of the same length. */
  predicate SameShape<T>(h: Heap<T>, h': Heap<T>) {
    |h'| == |h| && forall o :: 0 <= o < |h| ==> |h'[o]| == |h[o]|
  }

  /** `h'` has the shape of `h` and agrees with it on every element outside
      the `n` elements starting at `p`. */
  ghost predicate SameExcept<T>(h: Heap<T>, h': Heap<T>, p: Ptr, n: nat) {
    && SameShape(h, h')
    && forall o, k {:trigger h'[o][k]} :: 0 <= o < |h| && 0 <= k < |h[o]| && !(o == p.obj && p.off <= k < p.off + n) ==>
         h'[o][k] == h[o][k]
  }
}
