# raw-rs in Dafny

A model of `raw-rs`, a small Rust library of unchecked memory operations in two
layers:

- the **pointer layer** (`src/rawptr.rs`, traits `RawPtrExt` and `RawMutPtrExt`):
  element-granular operations on one typed address. These are `add`/`sub`,
  `read`/`write`/`replace`, `swap`, the bulk copies `copy` (memmove) and
  `copy_nonoverlapping` (memcpy), the `write_bytes` fill, and `as_raw_slice`,
  which pairs an address with a length;
- the **region layer** (`src/rawslice.rs`, traits `RawSlice`, `RawMutSlice` and
  `SliceRawExt`): operations on an (address, length) descriptor, all built on
  the pointer layer. These are `len`, `as_ptr`, indexed `read`/`get`/`write`/`get_mut`,
  `slice`/`slice_to`/`slice_from`, whole-region `write_bytes`, `copy` and
  `copy_nonoverlapping`, and the conversion of a slice into a region
  (`as_raw`/`as_mut_raw`).

## How memory is modelled

Memory is a value, `Heap<T> = seq<seq<T>>`. It is a sequence of live objects,
and each object is a sequence of elements of type T. An address is
`Ptr(obj, off)`. Offset `|h[obj]|` is the one-past-the-end address: it may be
computed but not dereferenced. A region is `Region(base, len)`.

Each operation takes the memory it touches as an argument. An operation that
writes returns the memory after the write. So "nothing else changes" is a
postcondition (`SameExcept`) on the returned memory, not a frame condition.
Every unchecked precondition in raw-rs is a `requires` clause:

- in-bounds arithmetic;
- a dereferenceable address;
- disjoint spans for the `_nonoverlapping` copies.

Files:

- `memory.dfy` (module `Memory`): addresses, regions, memory, and the validity,
  disjointness and agreement predicates.
- `rawptr.dfy` (module `RawPtr`): the pointer layer.
- `rawslice.dfy` (module `RawSlice`): the region layer and the conversion from a slice.
- `tests.dfy` (module `I32`): the `i32` whose four bytes all equal a given byte,
  the fill function of the scenarios below.
- `tests.dfy` (module `RawTests`): the unit-test scenarios of `src/rawptr.rs`,
  plus region scenarios, each as a method whose postcondition is the expected outcome.

`copy` moves elements one at a time. It goes from the top down when the
destination lies above the source in the same object, and from the bottom up
otherwise. The loop invariant says the memory equals "the original with a
growing part of the destination already moved". From that, the postcondition
follows: the destination holds the source's values from *before* the call,
whatever the overlap.

Where the documentation and the code differ, the model follows the code:

- `slice(from, to)` requires only `from <= to` and an in-bounds `as_ptr().add(from)`.
  The code never compares `to` with `len()`, so the model does not require `to <= len()`.
- An offset of zero is always defined. So `slice_to`, a safe function in
  raw-rs, has no precondition.

## Model

| member | source | states |
|---|---|---|
| RawPtr.AsRawSlice | src/rawptr.rs:76-83 | `as_raw_slice(len)` checks nothing: any address and any length form a region, whose base is the address and whose length is `len` |
| RawPtr.Read | src/rawptr.rs:89-91 | `read()` needs a dereferenceable address and returns the single element stored there, the one-element view at the address |
| RawPtr.AsSlice | src/rawptr.rs:85-87 | the view of `len` elements from `p` has length `len`, and its i-th element is what `p.add(i).read()` returns |
| RawPtr.Add | src/rawptr.rs:24-27 | `add(n)` stays in the same object and moves exactly n elements forward; the result is in bounds or one past the end whenever the start is; a non-zero n must land inside the object or one past its end |
| RawPtr.Sub | src/rawptr.rs:29-32 | `sub(n)` stays in the same object and moves exactly n elements back, never below the object's start |
| RawPtr.AddThenSub | src/rawptr.rs:178-191 | `p.add(k).sub(j)` is `p.add(k - j)` |
| RawPtr.AddAdd | src/rawptr.rs:93-95 | offsets compose: `p.add(a).add(b)` is `p.add(a + b)` |
| RawPtr.Write | src/rawptr.rs:54-60 | after `write(v)` the address holds v, and every other element of every object is unchanged |
| RawPtr.ReadAfterWrite | src/rawptr.rs:34-35 | a read after `write(v)` returns v at the written address and the previous value at any other address |
| RawPtr.WriteWhatWasRead | src/rawptr.rs:154-156 | writing back the value just read leaves memory unchanged |
| RawPtr.WriteTwice | src/rawptr.rs:154-156 | of two writes to one address the second wins |
| RawPtr.WriteBytes | src/rawptr.rs:62-64 | `write_bytes(b, count)` makes each of the `count` elements from the address the all-`b`-bytes value, and changes nothing else |
| RawPtr.Swap | src/rawptr.rs:66-68 | `swap(y)` exchanges the values at the two addresses, leaves every other element alone, and is a no-op when both are the same address |
| RawPtr.SwapTwice | src/rawptr.rs:162-164 | swapping twice restores memory |
| RawPtr.SwapSymmetric | src/rawptr.rs:162-164 | `x.swap(y)` and `y.swap(x)` have the same effect |
| RawPtr.Replace | src/rawptr.rs:70-72 | `replace(v)` returns the value previously stored, leaves v stored, and changes nothing else |
| RawPtr.ReplaceBack | src/rawptr.rs:166-168 | replacing again with the returned value restores the original memory |
| RawPtr.Copy | src/rawptr.rs:37-39 | `copy(dest, count)` leaves the `count` elements at `dest` equal to the `count` elements that were at the source before the call, even when the spans overlap; nothing else changes |
| RawPtr.CopyNonoverlapping | src/rawptr.rs:41-43 | for disjoint spans, `copy_nonoverlapping(dest, count)` makes the `count` elements at `dest` equal the source's; nothing else changes |
| RawSlice.AsRawSliceRoundTrip | src/rawptr.rs:18-19 | `as_raw_slice(len)` yields a region whose `as_ptr()` is the address and whose `len()` is `len`, and every region is rebuilt from its `as_ptr()` and `len()` |
| RawSlice.Len | src/rawslice.rs:18-21 | `len()` is the length the region was formed with: pairing the base with it rebuilds the region |
| RawSlice.AsPtr | src/rawslice.rs:23-26 | `as_ptr()` is the address the region was formed with: pairing it with the length rebuilds the region |
| RawSlice.AsSlice | src/rawslice.rs:15-16 | the region seen as a slice has `len()` elements, the i-th being `read(i)` |
| RawSlice.Read | src/rawslice.rs:28-32 | `read(index)` is the element `index` places past the base in the underlying object; only that element must exist, whatever `len()` says |
| RawSlice.ReadIgnoresLen | src/rawslice.rs:28-32 | regions with the same base read the same value at every index, whatever their declared lengths |
| RawSlice.Get | src/rawslice.rs:34-37 | `get(index)` is the address of the element `index` past the base, in the same object, whatever `len()` says; that element exists and holds `read(index)` |
| RawSlice.GetMut | src/rawslice.rs:153-155 | `get_mut(index)` is a dereferenceable address in the region's object, exactly `index` elements past the base, whatever `len()` says |
| RawSlice.GetMutWrite | src/rawslice.rs:153-155 | storing through the reference from `get_mut(index)` is the same as `write(index, _)` |
| RawSlice.Slice | src/rawslice.rs:112-114 | `slice(from, to)` has length `to - from` and base `from` elements past the original base, in the same object |
| RawSlice.SliceElements | src/rawslice.rs:39-40 | within the declared span, the elements of `slice(from, to)` are elements `from .. to` of the region |
| RawSlice.SliceTo | src/rawslice.rs:42-45 | `slice_to(to)` keeps the base and has length `to` |
| RawSlice.SliceFrom | src/rawslice.rs:47-50 | `slice_from(from)` starts `from` elements past the base and ends at the declared end |
| RawSlice.SliceToFrom | src/rawslice.rs:42-50 | `slice_to(k)` is `slice(0, k)` and `slice_from(k)` is `slice(k, len())`; their elements are the first k and the rest of the region |
| RawSlice.SliceOfSlice | src/rawslice.rs:122-124 | slicing a slice is slicing the original at the combined offsets |
| RawSlice.Write | src/rawslice.rs:136-138 | `write(index, val)` stores val at `index` past the base and changes nothing else; `len()` is not consulted |
| RawSlice.WriteIgnoresLen | src/rawslice.rs:62-65 | regions with the same base give the same memory from `write(index, val)`, whatever their declared lengths |
| RawSlice.ReadAfterWrite | src/rawslice.rs:136-138 | `read(j)` after `write(i, v)` is v when i = j and the previous value otherwise |
| RawSlice.WriteBytes | src/rawslice.rs:140-143 | `write_bytes(b)` fills exactly the region's own `len()` elements with the all-`b`-bytes value; nothing else changes |
| RawSlice.Copy | src/rawslice.rs:145-147 | `copy(from)` moves exactly `from.len()` elements to the target's base, overlap allowed, with the values they had before the call; the target's length is never consulted and nothing else changes |
| RawSlice.CopyNonoverlapping | src/rawslice.rs:149-151 | `copy_nonoverlapping(from)` moves exactly `from.len()` elements to the target's base when the spans are disjoint; nothing else changes |
| RawSlice.AsRaw | src/rawslice.rs:95-103 | `as_raw` of any slice, a whole object or a part of one, is a region based at the slice's first element with the slice's length |
| RawSlice.AsRawRoundTrip | src/rawslice.rs:85-91 | for any slice, viewing the region made from it gives back exactly the slice's elements |
| I32.Fill | src/rawptr.rs:201-202 | the `i32` whose every byte is b: in range, and congruent modulo 2^32 to b repeated in all four bytes (0 for byte 0, -1 for byte 0xff) |
| RawTests.ArithmeticScenario | src/rawptr.rs:178-192 | over `[1,2,3,4]`: the start reads 1, `add(2)` reads 3, `add(2).sub(1)` reads 2 |
| RawTests.ReadWriteScenario | src/rawptr.rs:194-204 | a cell holding 1 reads 1, reads 2 after `write(2)`, and reads 0 after `write_bytes(0, 1)` |
| RawTests.CopyScenario | src/rawptr.rs:206-219 | the overlapping left shift of `[1,2,3,4]` by one over two elements gives `[2,3,3,4]`; copying `[5,6,7,8]` over it gives `[5,6,7,8]` |
| RawTests.SwapReplaceScenario | src/rawptr.rs:221-234 | cells holding 1 and 2 hold 2 and 1 after `swap`; `replace(3)` then returns 2 and leaves 3 |
| RawTests.SwapSelfScenario | src/rawptr.rs:66-68 | swapping an address with itself leaves memory as it was |
| RawTests.SliceScenario | src/rawslice.rs:112-114 | in any memory whose first object is `[1,2,3,4]`, `slice(1, 3)` of the region over it has length 2 and elements `[2,3]` |
| RawTests.FillScenario | src/rawslice.rs:140-143 | zero-filling a region of four `i32`s gives four zeros |
| RawTests.RegionCopyScenario | src/rawslice.rs:71-74 | in any memory whose first object is `[1,2,3,4]`, copying its `slice_from(2)` into the region over the whole object (declared length 4) gives `[3,4,3,4]`: only `from.len()` elements move |

## Left out

- Byte representation: `write_bytes` takes a caller-supplied `fill: Byte -> T`, the value of T whose every byte is the fill byte. The transmute of `std::raw::Slice` into a fat pointer (src/rawptr.rs:76-83, 141-148) is modelled as building a `Region`.
- Lifetimes and aliasing: the references returned by `as_slice`, `as_mut_slice`, `get` and `get_mut` carry no lifetime. A slice is its sequence of elements, and a reference is the address it points to.
- Ownership: the double ownership after `read` and the leak on `write` are not modelled. Values are freely copyable here.
- `*const` versus `*mut`: this is a typing distinction only. The `*mut T` impl of `RawPtrExt` (src/rawptr.rs:110-138), `as_raw_mut_slice`, `as_mut_slice`, `as_mut_ptr` and `as_mut_raw` have the same model as their read-only twins (`AsRawSlice`, `AsSlice`, `AsPtr`, `AsRaw`).
- Undefined behaviour: a broken precondition is only a `requires`, never an error path. This covers out-of-bounds arithmetic, dereferencing one past the end, overlapping spans given to `copy_nonoverlapping`, and `to - from` underflow. Null and alignment do not arise, since an address always names an object.
- RawPtr.Add: offsets and lengths are unbounded naturals. The `count as isize` casts in `add` and `sub` are not modelled as 64-bit values, because an in-bounds offset always fits in `isize`.
- memmove: `ptr::copy` is a compiler intrinsic. The element-by-element loop is one way to get its effect, and the contract states only that effect.
- Concurrency: raw-rs does not address it.
