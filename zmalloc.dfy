/** The allocation tracker of src/zmalloc.cpp: zmalloc, zcalloc and zfree
    forward to the underlying allocator and keep `used_memory`, the size_t
    count of live bytes, each block charged its size rounded up to a multiple
    of sizeof(long).

    The underlying allocator is modelled as `heap`, the raw blocks it has handed
    to the tracker and not yet taken back.  What malloc/calloc answer (null, or
    an address, the block's usable size and its initial bytes) is a parameter
    of the allocating methods. */
module Zmalloc {
  import opened Wrappers
  import opened Platform
  import opened Backend
  import opened Rounding

  newtype Byte = b: int | 0 <= b < 256

  /** A machine address; 0 is NULL. */
  type Addr = nat

  /** What the shim fixes at build time: whether sizes can be queried,
      sizeof(long), PREFIX_SIZE and the size_t modulus. */
  datatype Config = Config(haveMallocSize: bool, word: nat, prefix: nat, limit: nat)

  predicate ValidConfig(c: Config) {
    && IsPowerOfTwo(c.word)
    && 0 < c.limit && c.limit % c.word == 0
    && c.prefix < c.limit
    && (c.haveMallocSize <==> c.prefix == 0)
  }

  /** PREFIX_SIZE: no header when sizes can be queried; otherwise a header of
      sizeof(long long) bytes on SPARC/Sun and of sizeof(size_t) bytes elsewhere,
      wide enough to hold a size_t either way. */
  function PrefixSize(haveMallocSize: bool, p: Platform): (r: nat)
    requires ValidPlatform(p)
    ensures haveMallocSize <==> r == 0
    ensures !haveMallocSize ==> p.sizeTBytes <= r <= 8
    ensures !haveMallocSize && p.sparcOrSun ==> r == p.longLongBytes
    ensures !haveMallocSize && !p.sparcOrSun ==> r == p.sizeTBytes
  {
    if haveMallocSize then 0
    else if p.sparcOrSun then p.longLongBytes
    else p.sizeTBytes
  }

  /** The configuration a selected backend yields on a platform. */
  function MakeConfig(s: Selection, p: Platform): (c: Config)
    requires ValidPlatform(p)
    ensures ValidConfig(c)
    ensures c.haveMallocSize == HaveMallocSize(s) && c.word == p.longBytes
    ensures c.prefix == PrefixSize(HaveMallocSize(s), p)
    ensures c.limit == SizeModulus(p)
  {
    assert IsPowerOfTwo(4) && IsPowerOfTwo(8);
    Config(HaveMallocSize(s), p.longBytes, PrefixSize(HaveMallocSize(s), p), SizeModulus(p))
  }

  // ---------------------------------------------------------------------------
  // Blocks

  /** A raw block of the underlying allocator: its usable size (what
      zmalloc_size reports), the size header when one was written, and the
      caller's payload after it. */
  datatype RawBlock = RawBlock(usable: nat, header: Option<nat>, payload: seq<Byte>)

  /** `*((size_t *)ptr) = size`: the first `prefix` bytes of the raw block
      become the header holding `size`; the rest is the payload. */
  function WriteHeader(b: RawBlock, size: nat, prefix: nat): (r: RawBlock)
    requires prefix <= |b.payload|
    ensures r.header.Some? && ReadHeader(r) == size
    ensures r.usable == b.usable && |r.payload| == |b.payload| - prefix
    ensures forall i :: 0 <= i < |r.payload| ==> r.payload[i] == b.payload[prefix + i]
  {
    RawBlock(b.usable, Some(size), b.payload[prefix..])
  }

  /** `oldsize = *((size_t *)realptr)`: for a live block, a header exists
      only in header mode and gives back the size the caller requested. */
  function ReadHeader(b: RawBlock): (size: nat)
    requires b.header.Some?
    ensures forall c :: BlockOk(c, b) ==> size == |b.payload| && !c.haveMallocSize
  {
    b.header.value
  }

  /** The public pointer handed out for a raw block: `(char *)ptr + PREFIX_SIZE`. */
  function PublicPointer(c: Config, raw: Addr): (ptr: Addr)
    ensures ptr - c.prefix == raw
    ensures raw != 0 ==> ptr != 0
  {
    raw + c.prefix
  }

  /** The raw block behind a public pointer: `(char *)ptr - PREFIX_SIZE`. */
  function RawPointer(c: Config, ptr: Addr): (raw: Addr)
    requires c.prefix <= ptr
    ensures raw + c.prefix == ptr
  {
    ptr - c.prefix
  }

  /** Stepping back over the header finds the raw block again, and a raw block
      other than NULL never yields a NULL public pointer. */
  lemma PointerRoundTrip(c: Config, raw: Addr)
    ensures RawPointer(c, PublicPointer(c, raw)) == raw
    ensures raw != 0 ==> PublicPointer(c, raw) != 0
  {
  }

  /** The layout of a live block in each mode: in header mode the header holds
      the originally requested size, which is the payload's length; with a
      size query there is no header and the allocator's usable size covers the
      payload.  Either way the charged size is a size_t. */
  predicate BlockOk(c: Config, b: RawBlock) {
    if c.haveMallocSize then b.header == None && |b.payload| <= b.usable < c.limit
    else b.header == Some(|b.payload|) && |b.payload| + c.prefix < c.limit
  }

  /** The size handed to the counter update for a block: the stored size plus
      the header (`size + PREFIX_SIZE`, `oldsize + PREFIX_SIZE`), or, without a
      header, the usable size (`zmalloc_size(ptr)`). */
  function Footprint(c: Config, b: RawBlock): nat {
    match b.header
    case Some(stored) => stored + c.prefix
    case None => b.usable
  }

  /** The size the counter update is handed for a request of n bytes that the
      allocator granted with `reply`: `size + PREFIX_SIZE` in header mode, the
      usable size (`zmalloc_size(ptr)`) otherwise. */
  function RequestFootprint(c: Config, n: nat, reply: Reply): nat
    requires reply.Granted?
  {
    if c.haveMallocSize then reply.usable else n + c.prefix
  }

  /** What a block is charged: its footprint's word ceiling, as a size_t. */
  function Charge(c: Config, b: RawBlock): nat
    requires c.word > 0 && c.limit > 0
  {
    Ceil(Footprint(c, b), c.word) % c.limit
  }

  /** The total charged for the live blocks of a heap, in no particular order. */
  ghost function Outstanding(c: Config, h: map<Addr, RawBlock>): nat
    requires c.word > 0 && c.limit > 0
    decreases |h|
  {
    if h == map[] then 0
    else
      var k :| k in h;
      assert |h - {k}| < |h| by { assert (h - {k}).Keys == h.Keys - {k}; }
      Charge(c, h[k]) + Outstanding(c, h - {k})
  }

  /** Whichever live block is taken out, the total drops by exactly its charge:
      the order in which blocks are freed does not matter. */
  lemma {:induction false} OutstandingRemove(c: Config, h: map<Addr, RawBlock>, k: Addr)
    requires c.word > 0 && c.limit > 0 && k in h
    ensures Outstanding(c, h) == Charge(c, h[k]) + Outstanding(c, h - {k})
    decreases |h|
  {
    var j :| j in h && Outstanding(c, h) == Charge(c, h[j]) + Outstanding(c, h - {j});
    if j != k {
      assert (h - {j}).Keys == h.Keys - {j} && (h - {k}).Keys == h.Keys - {k};
      OutstandingRemove(c, h - {j}, k);
      OutstandingRemove(c, h - {k}, j);
      assert h - {j} - {k} == h - {k} - {j};
    }
  }

  /** A newly handed-out block adds exactly its charge to the total. */
  lemma OutstandingInsert(c: Config, h: map<Addr, RawBlock>, k: Addr, b: RawBlock)
    requires c.word > 0 && c.limit > 0 && k !in h
    ensures Outstanding(c, h[k := b]) == Charge(c, b) + Outstanding(c, h)
  {
    OutstandingRemove(c, h[k := b], k);
    assert h[k := b] - {k} == h;
  }

  /** With nothing live, nothing is outstanding. */
  lemma OutstandingEmpty(c: Config)
    requires c.word > 0 && c.limit > 0
    ensures Outstanding(c, map[]) == 0
  {
  }

  // ---------------------------------------------------------------------------
  // The tracker

  /** What malloc or calloc returns: NULL, or a fresh block at `raw` whose
      usable size is `usable` and whose bytes start out as `contents`. */
  datatype Reply = Null | Granted(raw: Addr, usable: nat, contents: seq<Byte>)

  /** The outcome of zmalloc/zcalloc: a pointer, or the out-of-memory handler
      reporting the requested size and aborting the process. */
  datatype AllocResult = OutOfMemory(size: nat) | Allocated(ptr: Addr)

  predicate IsZeroed(s: seq<Byte>) {
    forall i :: 0 <= i < |s| ==> s[i] == 0
  }

  /** An allocator reply that honours its contract for a request of n bytes
      while the blocks of h are live: NULL, or a fresh non-NULL block of n
      initial bytes whose usable size is at least n and is a size_t. */
  predicate FreshReply(c: Config, h: map<Addr, RawBlock>, reply: Reply, n: nat) {
    reply.Granted? ==>
      && reply.raw != 0 && reply.raw !in h
      && |reply.contents| == n && n <= reply.usable < c.limit
  }

  class Zmalloc {
    const cfg: Config
    /** used_memory */
    var usedMemory: nat
    /** The raw blocks the underlying allocator has handed to the tracker. */
    var heap: map<Addr, RawBlock>
    /** zmalloc_default_oom has aborted the process. */
    var aborted: bool

    /** The counter invariant: used_memory is the size_t sum of the charges of
        the live blocks, and every live block has its mode's layout. */
    ghost predicate Valid()
      reads this
    {
      && ValidConfig(cfg)
      && usedMemory < cfg.limit
      && (forall a :: a in heap ==> a != 0 && BlockOk(cfg, heap[a]))
      && usedMemory == Outstanding(cfg, heap) % cfg.limit
    }

    /** ptr is a pointer zmalloc/zcalloc returned and zfree has not yet taken back. */
    ghost predicate Owns(ptr: Addr)
      reads this
    {
      cfg.prefix <= ptr && RawPointer(cfg, ptr) in heap
    }

    /** What the underlying allocator promises when asked for n bytes: NULL, or
        a fresh non-NULL block of n initial bytes whose usable size is at least
        n and is a size_t. */
    ghost predicate AllocatorContract(reply: Reply, n: nat)
      reads this
    {
      FreshReply(cfg, heap, reply, n)
    }

    /** Process start: `used_memory(0)`, nothing allocated, in a build whose
        backend selection succeeded. */
    constructor (o: Options, p: Platform)
      requires ValidPlatform(p) && Select(o, p).Built?
      ensures Valid() && cfg == MakeConfig(Select(o, p).selection, p)
      ensures usedMemory == 0 && heap == map[] && !aborted
    {
      var s := Select(o, p).selection;
      cfg := MakeConfig(s, p);
      usedMemory := 0;
      heap := map[];
      aborted := false;
      OutstandingEmpty(MakeConfig(s, p));
    }

    /** update_zmalloc_stat_alloc: add the word ceiling of n, in size_t arithmetic. */
    method UpdateStatAlloc(n: nat)
      requires ValidConfig(cfg) && n < cfg.limit
      modifies this`usedMemory
      ensures usedMemory == (old(usedMemory) + Ceil(n, cfg.word) % cfg.limit) % cfg.limit
    {
      usedMemory := (usedMemory + AllocAmount(n, cfg.word, cfg.limit)) % cfg.limit;
    }

    /** update_zmalloc_stat_free: subtract the word ceiling of n, in size_t arithmetic. */
    method UpdateStatFree(n: nat)
      requires ValidConfig(cfg) && n < cfg.limit
      modifies this`usedMemory
      ensures usedMemory == (old(usedMemory) - Ceil(n, cfg.word) % cfg.limit) % cfg.limit
    {
      usedMemory := (usedMemory - FreeAmount(n, cfg.word, cfg.limit)) % cfg.limit;
    }

    /** zmalloc_default_oom: report the requested size and abort. */
    method DefaultOom(size: nat) returns (r: AllocResult)
      modifies this`aborted
      ensures aborted && r == OutOfMemory(size)
    {
      aborted := true;
      r := OutOfMemory(size);
    }

    /** zmalloc: malloc(size + PREFIX_SIZE); on NULL the out-of-memory handler
        aborts; otherwise the header (if any) is written, the counter charged
        and the public pointer returned. */
    method ZMalloc(size: nat, reply: Reply) returns (r: AllocResult)
      requires Valid() && !aborted
      requires size + cfg.prefix < cfg.limit
      requires AllocatorContract(reply, size + cfg.prefix)
      modifies this
      ensures Valid()
      ensures reply.Null? ==>
        r == OutOfMemory(size) && aborted && heap == old(heap) && usedMemory == old(usedMemory)
      ensures reply.Granted? ==> Allocation(old(heap), old(usedMemory), size, reply, r)
      ensures reply.Granted? ==> heap[reply.raw].payload == reply.contents[cfg.prefix..]
    {
      if reply.Null? {
        r := DefaultOom(size);
        return;
      }
      var raw := reply.raw;
      heap := heap[raw := RawBlock(reply.usable, None, reply.contents)];
      if cfg.haveMallocSize {
        UpdateStatAlloc(heap[raw].usable);
        r := Allocated(raw);
      } else {
        heap := heap[raw := WriteHeader(heap[raw], size, cfg.prefix)];
        UpdateStatAlloc(size + cfg.prefix);
        r := Allocated(PublicPointer(cfg, raw));
      }
      AllocationKeepsValid(old(heap), old(usedMemory), size, reply);
    }

    /** zcalloc: as zmalloc, but calloc hands out zero-filled bytes, so the
        caller's payload reads as zeros. */
    method ZCalloc(size: nat, reply: Reply) returns (r: AllocResult)
      requires Valid() && !aborted
      requires size + cfg.prefix < cfg.limit
      requires AllocatorContract(reply, size + cfg.prefix)
      requires reply.Granted? ==> IsZeroed(reply.contents)
      modifies this
      ensures Valid()
      ensures reply.Null? ==>
        r == OutOfMemory(size) && aborted && heap == old(heap) && usedMemory == old(usedMemory)
      ensures reply.Granted? ==> Allocation(old(heap), old(usedMemory), size, reply, r)
      ensures reply.Granted? ==> IsZeroed(heap[reply.raw].payload)
    {
      if reply.Null? {
        r := DefaultOom(size);
        return;
      }
      var raw := reply.raw;
      heap := heap[raw := RawBlock(reply.usable, None, reply.contents)];
      if cfg.haveMallocSize {
        UpdateStatAlloc(heap[raw].usable);
        r := Allocated(raw);
      } else {
        heap := heap[raw := WriteHeader(heap[raw], size, cfg.prefix)];
        UpdateStatAlloc(size + cfg.prefix);
        r := Allocated(PublicPointer(cfg, raw));
      }
      AllocationKeepsValid(old(heap), old(usedMemory), size, reply);
    }

    /** The state after a granted zmalloc/zcalloc of `size` bytes, relative to
        the heap h and counter u before it: the new block at reply.raw holds
        `size` payload bytes (behind a header storing `size`, in header mode),
        the counter grew by the charge of `size + PREFIX_SIZE` or of the usable
        size, and the caller got a non-NULL pointer that zfree accepts. */
    ghost predicate Allocation(h: map<Addr, RawBlock>, u: nat, size: nat, reply: Reply, r: AllocResult)
      requires reply.Granted? && ValidConfig(cfg)
      reads this
    {
      && reply.raw in heap
      && var b := heap[reply.raw];
      && heap == h[reply.raw := b]
      && !aborted
      && |b.payload| == size
      && b.header == (if cfg.haveMallocSize then None else Some(size))
      && Footprint(cfg, b) == RequestFootprint(cfg, size, reply)
      && usedMemory == (u + Ceil(Footprint(cfg, b), cfg.word) % cfg.limit) % cfg.limit
      && r == Allocated(PublicPointer(cfg, reply.raw)) && r.ptr != 0 && Owns(r.ptr)
    }

    /** The counter invariant survives an allocation. */
    lemma AllocationKeepsValid(h: map<Addr, RawBlock>, u: nat, size: nat, reply: Reply)
      requires ValidConfig(cfg) && reply.Granted? && reply.raw !in h
      requires usedMemory < cfg.limit
      requires u == Outstanding(cfg, h) % cfg.limit
      requires forall a :: a in h ==> a != 0 && BlockOk(cfg, h[a])
      requires reply.raw in heap && heap == h[reply.raw := heap[reply.raw]] && reply.raw != 0
      requires BlockOk(cfg, heap[reply.raw])
      requires usedMemory == (u + Charge(cfg, heap[reply.raw])) % cfg.limit
      ensures Valid()
    {
      OutstandingInsert(cfg, h, reply.raw, heap[reply.raw]);
      AddWrapped(Outstanding(cfg, h), Charge(cfg, heap[reply.raw]), cfg.limit);
    }

    /** zfree: NULL is ignored; otherwise the counter is relieved of the
        block's charge (found through the size query, or through the header
        read just before the public pointer) and the raw block is released. */
    method ZFree(ptr: Addr)
      requires Valid() && !aborted
      requires ptr == 0 || Owns(ptr)
      modifies this`usedMemory, this`heap
      ensures Valid()
      ensures ptr == 0 ==> usedMemory == old(usedMemory) && heap == old(heap)
      ensures ptr != 0 ==>
        && heap == old(heap) - {RawPointer(cfg, ptr)}
        && usedMemory == (old(usedMemory) - Charge(cfg, old(heap)[RawPointer(cfg, ptr)])) % cfg.limit
    {
      if ptr == 0 {
        return;
      }
      var realptr := ptr;
      if cfg.haveMallocSize {
        UpdateStatFree(heap[ptr].usable);
      } else {
        realptr := RawPointer(cfg, ptr);
        var oldsize := ReadHeader(heap[realptr]);
        UpdateStatFree(oldsize + cfg.prefix);
      }
      ghost var h := heap;
      heap := heap - {realptr};
      OutstandingRemove(cfg, h, realptr);
      SubWrapped(Outstanding(cfg, h), Charge(cfg, h[realptr]), cfg.limit);
    }
  }

  /** A caller that allocates one block and frees it again leaves the counter
      and the heap as they were. */
  method AllocThenFree(z: Zmalloc, size: nat, reply: Reply)
    requires z.Valid() && !z.aborted && reply.Granted?
    requires size + z.cfg.prefix < z.cfg.limit
    requires z.AllocatorContract(reply, size + z.cfg.prefix)
    modifies z
    ensures z.Valid() && !z.aborted
    ensures z.usedMemory == old(z.usedMemory) && z.heap == old(z.heap)
  {
    var r := z.ZMalloc(size, reply);
    ghost var b := z.heap[reply.raw];
    z.ZFree(r.ptr);
    AddThenSubtract(old(z.usedMemory), Charge(z.cfg, b), z.cfg.limit);
    assert old(z.heap)[reply.raw := b] - {reply.raw} == old(z.heap);
  }
}

/** The end-to-end scenario: from a fresh tracker, zmalloc(10) then zcalloc(20)
    leave the counter at the sum of the two charges, and freeing both brings it
    back to zero. */
module Scenario {
  import opened Platform
  import opened Backend
  import opened Rounding
  import opened Zmalloc

  method EndToEnd(o: Options, p: Platform, r1: Reply, r2: Reply) returns (afterAllocs: nat, afterFrees: nat)
    requires ValidPlatform(p) && Select(o, p).Built?
    requires r1.Granted? && r2.Granted? && r1.raw != r2.raw && IsZeroed(r2.contents)
    requires var c := MakeConfig(Select(o, p).selection, p);
      && FreshReply(c, map[], r1, 10 + c.prefix)
      && FreshReply(c, map[], r2, 20 + c.prefix)
    ensures var c := MakeConfig(Select(o, p).selection, p);
      afterAllocs == (Ceil(RequestFootprint(c, 10, r1), c.word) % c.limit
                      + Ceil(RequestFootprint(c, 20, r2), c.word) % c.limit) % c.limit
    ensures afterFrees == 0
  {
    var z := new Zmalloc(o, p);
    ghost var c := z.cfg;
    var p1 := z.ZMalloc(10, r1);
    ghost var charge1 := Ceil(RequestFootprint(c, 10, r1), c.word) % c.limit;
    assert z.usedMemory == charge1 by {
      ModUnique(charge1, c.limit, 0, charge1);
    }
    assert z.heap.Keys == {r1.raw};
    var p2 := z.ZCalloc(20, r2);
    afterAllocs := z.usedMemory;
    assert z.heap.Keys == {r1.raw, r2.raw};
    assert z.Owns(p1.ptr);
    z.ZFree(p1.ptr);
    assert z.heap.Keys == {r2.raw};
    z.ZFree(p2.ptr);
    assert z.heap == map[];
    afterFrees := z.usedMemory;
    OutstandingEmpty(c);
  }
}
