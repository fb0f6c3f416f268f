# zmalloc: a verified model of the allocation-accounting shim

`Zmalloc` wraps `malloc`, `calloc` and `free` and keeps `used_memory`, a
process-wide `size_t` count of the bytes held by live allocations. Each block
is charged its size rounded up to a multiple of `sizeof(long)`. The shim is
configured when it is built. `src/zmalloc.h` picks the allocator library
(tcmalloc, jemalloc or libc) and decides whether that library can report a
block's usable size. When it cannot, `src/zmalloc.cpp` puts a size header of
`PREFIX_SIZE` bytes in front of every block. That header stores the requested
size, and `zfree` reads it back to know how much to subtract.

The project is written in Dafny and has five files:

- `wrappers.dfy`: the `Option` type.
- `platform.dfy`: the target platform. This is whether it is Apple, glibc or
  SPARC/Sun, and the widths of `long`, `long long` and `size_t`. It also gives
  the `size_t` modulus, 2^32 or 2^64.
- `backend.dfy`: module `Backend`. It models the preprocessor selection of
  `src/zmalloc.h` as a pure function from build options and platform to
  either a library and size query, or a build error.
- `rounding.dfy`: module `Rounding`. It gives the word rounding of
  `update_zmalloc_stat_alloc` and `update_zmalloc_stat_free` exactly as
  written. That includes the bitmask test `n & (sizeof(long) - 1)` over a
  bitwise AND defined on naturals, and `size_t` wrap-around. It is proved equal
  to `Ceil`, the least multiple of the word size that is at least `n`, reduced
  modulo the `size_t` modulus. The two differ only when `n` is within one word
  of the modulus and not a word multiple; there `_n +=` wraps to 0. It also
  holds the modular facts needed for a counter that wraps.
- `zmalloc.dfy`: module `Zmalloc`. Class `Zmalloc` has `usedMemory` and
  `heap`, the raw blocks the underlying allocator has handed out through the
  shim, plus the `aborted` state that the out-of-memory handler enters. Its
  methods `ZMalloc`, `ZCalloc` and `ZFree` follow the source branch by branch.
  The object invariant `Valid()` says that `usedMemory` is the `size_t` sum
  of the charges of the live blocks. Module `Scenario` runs one client:
  allocate 10 bytes, zero-allocate 20 bytes, then free both.

The counter invariant holds for blocks taken out in any order, because
`OutstandingRemove` shows that removing any one block lowers the sum by that
block's charge. The free path always subtracts what the allocation path added
for the same block. This follows from three facts:

- in header mode the header returns the stored size (`WriteHeader`, `ReadHeader`);
- in size-query mode the model assumes that `zmalloc_size` reports the same
  usable size at `zfree` as at allocation: the usable size is a fixed field of
  the live block (see "## Left out");
- `FreeAmount` equals `AllocAmount`.

## Model

| member | source | states |
|---|---|---|
| `Rounding.BitAnd` | src/zmalloc.cpp:79 | The bitwise AND `&` on naturals. The result is no larger than either operand. |
| `Rounding.LowBits` | src/zmalloc.cpp:79-80 | For a power of two `w`, `n & (w - 1)` is `n mod w`. This is why the mask test finds the sizes that are not word multiples. |
| `Rounding.Ceil` | src/zmalloc.cpp:76-81 | The word ceiling of `n` is a multiple of `w` in `[n, n + w)`. |
| `Rounding.CeilLeast` | src/zmalloc.cpp:76-81 | No multiple of `w` that is at least `n` lies below the ceiling, so the ceiling is the least such multiple. |
| `Rounding.CeilOfMultiple` | src/zmalloc.cpp:79 | A size that is already a word multiple is left unchanged. |
| `Rounding.CeilOfNonMultiple` | src/zmalloc.cpp:79-80 | Any other size is raised by `w - (n mod w)`. |
| `Rounding.CeilIdempotent` | src/zmalloc.cpp:76-81 | Rounding a rounded size again changes nothing. |
| `Rounding.AllocAmount` | src/zmalloc.cpp:76-81 | The amount `update_zmalloc_stat_alloc` adds, as written. It equals the word ceiling reduced mod `size_t`, so it is always a word multiple. It equals `n` when `n` is a multiple. It lies in `[n, n + w)` when no wrap-around can happen. |
| `Rounding.FreeAmount` | src/zmalloc.cpp:84-90 | The amount `update_zmalloc_stat_free` subtracts, as written. The second mask is taken of `_n` before it changes. The result equals the amount the allocation path adds for the same `n`. |
| `Rounding.AllocAmountIdempotent` | src/zmalloc.cpp:76-81 | Rounding an accounted amount again returns the same amount. |
| `Rounding.AddThenSubtract` | src/zmalloc.cpp:76-90 | On a `size_t` counter, `+= a` followed by `-= a` restores the counter even when it wraps around. |
| `Backend.TcmallocSupported` | src/zmalloc.h:7 | The tcmalloc test accepts exactly the versions 1.6 and newer, in lexicographic version order. |
| `Backend.JemallocSupported` | src/zmalloc.h:17 | The jemalloc test accepts exactly the versions 2.1 and newer. |
| `Backend.Select` | src/zmalloc.h:4-37 | The build fails exactly when the selected tcmalloc is older than 1.6, or when jemalloc is selected without tcmalloc and is older than 2.1. The `#error` names the library that was selected first. The library is `libc` exactly when neither tcmalloc nor jemalloc is used. A size query, and so `HAVE_MALLOC_SIZE`, exists exactly under tcmalloc, under jemalloc, on Apple or with glibc. |
| `Backend.TcmallocFirst` | src/zmalloc.h:4-12 | With `USE_TCMALLOC` set, neither the jemalloc options nor the platform affect the outcome. |
| `Backend.JemallocSecond` | src/zmalloc.h:14-22 | With only `USE_JEMALLOC` set, the platform does not affect the outcome. |
| `Backend.TcmallocQuery` | src/zmalloc.h:4-9 | An accepted tcmalloc build is named after tcmalloc and queries sizes with `tc_malloc_size`. |
| `Backend.JemallocQuery` | src/zmalloc.h:14-19 | An accepted jemalloc build is named after jemalloc and queries sizes with `je_malloc_usable_size`. |
| `Backend.LibcFallback` | src/zmalloc.h:24-37 | Without tcmalloc or jemalloc, Apple included, the library is `libc`. Sizes are queried with `malloc_usable_size` under glibc and with `malloc_size` on Apple. Otherwise there is no size query. |
| `Zmalloc.PrefixSize` | src/zmalloc.cpp:5-13 | `PREFIX_SIZE` is 0 exactly when a size query exists. Without a size query it is exactly `sizeof(long long)` on SPARC/Sun and exactly `sizeof(size_t)` elsewhere, so it can always hold a `size_t`. |
| `Zmalloc.MakeConfig` | src/zmalloc.cpp:5-13 | The build constants: the size-query flag from the backend selection, word size `sizeof(long)`, `PREFIX_SIZE` and the platform's `size_t` modulus. Together they meet the conditions the rounding needs, and the prefix is 0 exactly in size-query mode. |
| `Zmalloc.WriteHeader` | src/zmalloc.cpp:42-44 | Writing the header stores `size`, and reading the header gives `size` back. The payload is the rest of the raw block after the first `PREFIX_SIZE` bytes. |
| `Zmalloc.ReadHeader` | src/zmalloc.cpp:62 | For any live block, the size read back from the header is the size the caller requested, which is the payload length. A live block has a header only in header mode. |
| `Zmalloc.PublicPointer` | src/zmalloc.cpp:44 | The pointer handed out lies `PREFIX_SIZE` past the raw block, and is not NULL when the raw block is not. |
| `Zmalloc.RawPointer` | src/zmalloc.cpp:61 | The raw block lies `PREFIX_SIZE` before the pointer handed to `zfree`. |
| `Zmalloc.PointerRoundTrip` | src/zmalloc.cpp:61 | Stepping back `PREFIX_SIZE` from the returned pointer gives the raw block. A non-NULL raw block never yields a NULL pointer. |
| `Zmalloc.OutstandingRemove` | src/zmalloc.cpp:61-64 | Freeing any one live block lowers the outstanding total by exactly that block's charge, whatever the order of frees. |
| `Zmalloc.OutstandingInsert` | src/zmalloc.cpp:42-43 | A new block raises the outstanding total by exactly its charge. |
| `Zmalloc.OutstandingEmpty` | src/zmalloc.cpp:15 | With no live blocks, nothing is outstanding. |
| `Zmalloc.Zmalloc.constructor` | src/zmalloc.cpp:15 | Only a build whose backend selection succeeds gets a tracker, configured from that selection. At process start the counter is 0 and nothing is allocated. The invariant holds. |
| `Zmalloc.Zmalloc.UpdateStatAlloc` | src/zmalloc.cpp:76-82 | The counter grows by the word ceiling of `n`, in `size_t` arithmetic. |
| `Zmalloc.Zmalloc.UpdateStatFree` | src/zmalloc.cpp:84-90 | The counter shrinks by the word ceiling of `n`, in `size_t` arithmetic. |
| `Zmalloc.Zmalloc.DefaultOom` | src/zmalloc.cpp:68-74 | The out-of-memory handler reports the requested size and aborts. |
| `Zmalloc.Zmalloc.ZMalloc` | src/zmalloc.cpp:32-46 | If `malloc` returns NULL, the call aborts with the requested size and leaves the counter and heap unchanged. Otherwise the only new block is the raw one, holding `size` payload bytes taken from `malloc`'s bytes after the header. In header mode the header stores `size`. The counter grows by the charge of `size + PREFIX_SIZE`, or of the usable size in size-query mode. The returned pointer is raw + `PREFIX_SIZE`, it is not NULL and `zfree` accepts it. The invariant holds. |
| `Zmalloc.Zmalloc.ZCalloc` | src/zmalloc.cpp:17-30 | Has the same contract as `ZMalloc`. In addition the caller's payload is all zeros. |
| `Zmalloc.Zmalloc.ZFree` | src/zmalloc.cpp:48-66 | `zfree(NULL)` changes nothing. Otherwise the raw block at pointer − `PREFIX_SIZE` is the one released, not the pointer itself. The counter shrinks by that block's charge, which is the charge added when it was allocated. The invariant holds. |
| `Zmalloc.AllocThenFree` | src/zmalloc.cpp:32-66 | Allocating a block and freeing it again leaves the counter and the heap exactly as they were. |
| `Scenario.EndToEnd` | src/zmalloc.cpp:17-66 | For any accepted build and platform, from a fresh tracker, `zmalloc(10)` then `zcalloc(20)` leave the counter at the `size_t` sum of the two charges. Freeing both brings it back to 0. |

## Left out

- The real `malloc`, `calloc` and `free` are not modelled, and neither are
  the size queries `tc_malloc_size`, `je_malloc_usable_size`, `malloc_size`
  and `malloc_usable_size`. These are foreign calls. What the allocator
  answers is the `Reply` parameter of `ZMalloc` and `ZCalloc`.
  `AllocatorContract` (through `FreshReply`) states what the allocator
  promises: NULL, or a fresh, non-NULL block that holds exactly the requested
  number of initial bytes and whose usable size is at least that number and
  below the `size_t` modulus. That `calloc` hands out zeroed bytes is a
  separate requirement of `ZCalloc` on its reply.
- The atomicity of `std::atomic<size_t>` is not modelled. The counter is a
  plain field, updated one call at a time.
- The out-of-memory handler's `fprintf`, `fflush` and `abort` are not
  modelled as I/O. They are the `aborted` state together with the result
  `OutOfMemory(size)`, and no operation may follow.
- The header's byte encoding (`*((size_t *)ptr)`) is not modelled. The header
  is a field of the raw block and the payload is the rest of the block's
  bytes.
- The version-string formatting in `ZMALLOC_LIB` is not modelled. The library
  name is a datatype that carries the version numbers.
- `Zmalloc.Zmalloc.ZMalloc`: requires `size + PREFIX_SIZE` to be below the
  `size_t` modulus. The source does not check this addition. If it wrapped,
  `malloc` would get a tiny request, and the header write would be out of
  bounds, which is undefined behaviour. The rounding itself is modelled with
  its wrap-around.
- `Zmalloc.Zmalloc.ZCalloc`: carries the same requirement on
  `size + PREFIX_SIZE`, for the same reason.
- `Zmalloc.Zmalloc.ZFree`: `zmalloc_size` is modelled as a fixed attribute
  of the live block, the usable size the allocator reported when it handed the
  block out. The model therefore assumes that `zfree` sees the same usable size
  as `zmalloc`/`zcalloc` did; counter symmetry in size-query mode rests on this.
- `Zmalloc.Zmalloc.ZFree`: requires the pointer to be NULL or a live pointer
  from `zmalloc`/`zcalloc`. Double free and freeing a foreign pointer are
  undefined and unchecked in the source.
- C++ access control is not modelled. The source keeps `used_memory` and the
  helpers private. Dafny has no private class members, so the model relies on
  clients calling only `ZMalloc`, `ZCalloc` and `ZFree`.
- On a target that defines both `__APPLE__` and `__GLIBC__`, the header
  defines `zmalloc_size` twice. The model takes the later definition,
  `malloc_usable_size`.
- Platforms are limited to a `long` of 4 or 8 bytes, a `size_t` of 4 or 8
  bytes and an 8-byte `long long`.
