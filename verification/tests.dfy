/** The element type of the unit tests: Rust's `i32`. */
module I32 {
  import opened Memory

  /** The `i32` all four of whose bytes are `b` (two's complement). */
  function Fill(b: Byte): (r: int)
    ensures -0x8000_0000 <= r < 0x8000_0000
    ensures b == 0 ==> r == 0
    ensures b == 0xff ==> r == -1
    ensures r % 0x1_0000_0000 == b * 0x0101_0101
  {
    var u := b * 0x0101_0101;
    if u < 0x8000_0000 then u else u - 0x1_0000_0000
  }
}

/** The concrete scenarios of the library's unit tests, on `i32` elements. */
module RawTests {
  import opened Memory
  import RawPtr
  import RawSlice
  import I32

  /** Over `[1,2,3,4]`: `*y == 1`, `*y.add(2) == 3`, `*y.add(2).sub(1) == 2`. */
  method ArithmeticScenario() returns (first: int, third: int, second: int)
    ensures first == 1 && third == 3 && second == 2
  {
    var h: Heap<int> := [[1, 2, 3, 4]];
    var y := Ptr(0, 0);
    first := RawPtr.Read(h, y);
    third := RawPtr.Read(h, RawPtr.Add(h, y, 2));
    second := RawPtr.Read(h, RawPtr.Sub(h, RawPtr.Add(h, y, 2), 1));
  }

  /** A one-element object holding 1: reads 1, reads 2 after `write(2)`, and
      reads 0 after `write_bytes(0, 1)`. */
  method ReadWriteScenario() returns (before: int, written: int, zeroed: int)
    ensures before == 1 && written == 2 && zeroed == 0
  {
    var h: Heap<int> := [[1]];
    var x := Ptr(0, 0);
    before := RawPtr.Read(h, x);
    h := RawPtr.Write(h, x, 2);
    written := RawPtr.Read(h, x);
    h := RawPtr.WriteBytes(h, x, 0, 1, I32.Fill);
    assert View(h, x, 1)[0] == I32.Fill(0);
    zeroed := RawPtr.Read(h, x);
  }

  /** `x = [1,2,3,4]`, `y = [5,6,7,8]`: `x.add(1).copy(x, 2)` gives
      `[2,3,3,4]`, then `y.copy_nonoverlapping(x, 4)` makes `x` equal `y`. */
  method CopyScenario() returns (shifted: seq<int>, copied: seq<int>)
    ensures shifted == [2, 3, 3, 4]
    ensures copied == [5, 6, 7, 8]
  {
    var h: Heap<int> := [[1, 2, 3, 4], [5, 6, 7, 8]];
    var x, y := Ptr(0, 0), Ptr(1, 0);
    h := RawPtr.Copy(h, RawPtr.Add(h, x, 1), x, 2);
    shifted := h[0];
    assert View(h, x, 2) == [2, 3];
    assert shifted == View(h, x, 2) + [h[0][2], h[0][3]];
    h := RawPtr.CopyNonoverlapping(h, y, x, 4);
    copied := h[0];
    assert View(h, x, 4) == copied;
  }

  /** `x` holds 1 and `y` holds 2: after `x.swap(y)` they hold 2 and 1; then
      `x.replace(3)` returns 2 and leaves 3 in `x`. */
  method SwapReplaceScenario() returns (x1: int, y1: int, displaced: int, x2: int)
    ensures x1 == 2 && y1 == 1
    ensures displaced == 2 && x2 == 3
  {
    var h: Heap<int> := [[1], [2]];
    var x, y := Ptr(0, 0), Ptr(1, 0);
    h := RawPtr.Swap(h, x, y);
    x1, y1 := RawPtr.Read(h, x), RawPtr.Read(h, y);
    var r := RawPtr.Replace(h, x, 3);
    displaced, h := r.0, r.1;
    x2 := RawPtr.Read(h, x);
  }

  /** Swapping an address with itself leaves memory as it was. */
  method SwapSelfScenario() returns (h: Heap<int>)
    ensures h == [[7, 8]]
  {
    h := [[7, 8]];
    h := RawPtr.Swap(h, Ptr(0, 1), Ptr(0, 1));
  }

  /** In any memory whose first object is `[1,2,3,4]`, `slice(1, 3)` of the
      region over that object has length 2 and elements `[2,3]`. */
  method SliceScenario(h: Heap<int>) returns (len: nat, elems: seq<int>)
    requires |h| > 0 && h[0] == [1, 2, 3, 4]
    ensures len == 2 && elems == [2, 3]
  {
    var s := RawSlice.AsRaw(h, Ptr(0, 0), 4);
    var t := RawSlice.Slice(h, s, 1, 3);
    RawSlice.SliceElements(h, s, 1, 3);
    len := RawSlice.Len(t);
    elems := RawSlice.AsSlice(h, t);
  }

  /** Zero-filling the region over four `i32`s gives four zeros. */
  method FillScenario() returns (elems: seq<int>)
    ensures elems == [0, 0, 0, 0]
  {
    var h: Heap<int> := [[1, 2, 3, 4]];
    var s := RawSlice.AsRaw(h, Ptr(0, 0), 4);
    h := RawSlice.WriteBytes(h, s, 0, I32.Fill);
    elems := RawSlice.AsSlice(h, s);
  }

  /** Region `copy` takes its length from the source: in any memory whose
      first object is `[1,2,3,4]`, copying the two-element tail into the
      region over the whole object (declared length 4) changes only the first
      two elements. */
  method RegionCopyScenario(h: Heap<int>) returns (e0: int, e1: int, e2: int, e3: int)
    requires |h| > 0 && h[0] == [1, 2, 3, 4]
    ensures e0 == 3 && e1 == 4 && e2 == 3 && e3 == 4
  {
    var whole := RawSlice.AsRaw(h, Ptr(0, 0), 4);
    var tail := RawSlice.SliceFrom(h, whole, 2);
    var h' := RawSlice.Copy(h, whole, tail);
    e0, e1 := RawSlice.Read(h', whole, 0), RawSlice.Read(h', whole, 1);
    e2, e3 := RawSlice.Read(h', whole, 2), RawSlice.Read(h', whole, 3);
  }
}
