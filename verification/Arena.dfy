/** The bump allocator of ibdb/src/base/arena.h and ibdb/src/base/arena.cpp. An address is a
    number; what `new char[n]` returns is a parameter. */
module Arenas {
  import opened Coding

  const BLOCK_SIZE: nat := 4096
  const WORD_SIZE: nat := 8
  const ALIGN: nat := 8

  /** What is left of a standard block when it is replaced: less than the largest small request
      and its alignment. */
  const MAX_WASTE: nat := BLOCK_SIZE / 4 + ALIGN - 2

  datatype Range = Range(addr: nat, size: nat) {
    predicate Contains(r: Range) { addr <= r.addr && r.addr + r.size <= addr + size }

    predicate Apart(r: Range) { addr + size <= r.addr || r.addr + r.size <= addr }
  }

  predicate AllApart(rs: seq<Range>) {
    forall i, j :: 0 <= i < j < |rs| ==> rs[i].Apart(rs[j])
  }

  predicate ApartFrom(r: Range, rs: seq<Range>) {
    forall i :: 0 <= i < |rs| ==> r.Apart(rs[i])
  }

  /** Empty ranges are everywhere. */
  predicate Within(r: Range, blocks: seq<Range>) {
    r.size == 0 || exists i :: 0 <= i < |blocks| && blocks[i].Contains(r)
  }

  predicate AllWithin(rs: seq<Range>, blocks: seq<Range>) {
    forall i :: 0 <= i < |rs| ==> Within(rs[i], blocks)
  }

  function Usage(blocks: seq<Range>): nat {
    if blocks == [] then 0 else Usage(blocks[..|blocks| - 1]) + blocks[|blocks| - 1].size + WORD_SIZE
  }

  /** The block that is made for a request. */
  function BlockFor(bytes: nat): nat { if bytes > BLOCK_SIZE / 4 then bytes else BLOCK_SIZE }

  /** No block reaches the end of the 64-bit addresses. */
  predicate InAddressSpace(blocks: seq<Range>) {
    forall i :: 0 <= i < |blocks| ==> blocks[i].addr + blocks[i].size < TWO64
  }

  /** `p` is what an allocator may return for `size` bytes beside `blocks`. */
  predicate Fresh(p: nat, size: nat, blocks: seq<Range>) {
    p > 0 && p % ALIGN == 0 && p + size < TWO64 && ApartFrom(Range(p, size), blocks)
  }

  lemma ApartFromParts(r: Range, rs: seq<Range>, blocks: seq<Range>)
    requires ApartFrom(r, blocks) && AllWithin(rs, blocks)
    requires forall i :: 0 <= i < |rs| ==> rs[i].size > 0
    ensures ApartFrom(r, rs)
  {
    forall i | 0 <= i < |rs| ensures r.Apart(rs[i]) {
      assert Within(rs[i], blocks);
      var b :| 0 <= b < |blocks| && blocks[b].Contains(rs[i]);
      assert r.Apart(blocks[b]);
    }
  }

  /** The ranges given out, and the free part of the current block, in the blocks. */
  ghost predicate Good(blocks: seq<Range>, given: seq<Range>, free: Range) {
    && AllApart(blocks) && AllApart(given) && AllWithin(given, blocks)
    && (free.size > 0 ==> ApartFrom(free, given)) && Within(free, blocks)
    && forall i :: 0 <= i < |given| ==> given[i].size > 0
  }

  function Given(given: seq<Range>, r: Range): seq<Range> {
    if r.size > 0 then given + [r] else given
  }

  lemma PartWithin(whole: Range, part: Range, blocks: seq<Range>)
    requires Within(whole, blocks) && whole.Contains(part) && whole.size > 0
    ensures Within(part, blocks)
  {
    var b :| 0 <= b < |blocks| && blocks[b].Contains(whole);
    assert blocks[b].Contains(part);
  }

  lemma PartApart(whole: Range, part: Range, rs: seq<Range>)
    requires ApartFrom(whole, rs) && whole.Contains(part)
    ensures ApartFrom(part, rs)
  {
    forall i | 0 <= i < |rs| ensures part.Apart(rs[i]) { assert whole.Apart(rs[i]); }
  }

  /** Cutting a range off the free part. */
  lemma TakeFree(blocks: seq<Range>, given: seq<Range>, free: Range, slop: nat, bytes: nat)
    requires Good(blocks, given, free) && slop + bytes <= free.size
    ensures Good(blocks, Given(given, Range(free.addr + slop, bytes)),
                 Range(free.addr + slop + bytes, free.size - slop - bytes))
  {
    if free.size > 0 {
      var r, rest := Range(free.addr + slop, bytes), Range(free.addr + slop + bytes, free.size - slop - bytes);
      PartWithin(free, r, blocks);
      PartWithin(free, rest, blocks);
      PartApart(free, r, given);
      PartApart(free, rest, given);
      hide Within;
    }
  }

  /** The free part without its first bytes. */
  function Cut(free: Range, n: nat): Range
    requires n <= free.size
  {
    Range(free.addr + n, free.size - n)
  }

  lemma SkipFree(blocks: seq<Range>, given: seq<Range>, free: Range, n: nat)
    requires Good(blocks, given, free) && n <= free.size
    ensures Good(blocks, given, Cut(free, n))
  {
    hide Good;
    TakeFree(blocks, given, free, n, 0);
  }

  /** A new block is apart from everything that the arena has. */
  lemma NewBlock(blocks: seq<Range>, given: seq<Range>, free: Range, block: Range)
    requires Good(blocks, given, free) && ApartFrom(block, blocks)
    ensures Good(blocks + [block], given, free)
    ensures Good(blocks + [block], given, block)
    ensures block.size > 0 ==> Good(blocks + [block], given + [block], free)
  {
    var blocks' := blocks + [block];
    ApartFromParts(block, given, blocks);
    forall r | Within(r, blocks) || r == block ensures Within(r, blocks') {
      if r.size > 0 && r != block {
        var b :| 0 <= b < |blocks| && blocks[b].Contains(r);
        assert blocks'[b] == blocks[b];
      } else {
        assert blocks'[|blocks|].Contains(block);
      }
    }
    if block.size > 0 {
      if free.size > 0 {
        ApartFromParts(block, [free], blocks);
        assert block.Apart([free][0]);
      }
    }
  }

  /** The bytes up to the next aligned address. */
  function Slop(p: nat): (slop: nat)
    ensures slop < ALIGN && (p + slop) % ALIGN == 0
  {
    if p % ALIGN == 0 then 0 else ALIGN - p % ALIGN
  }

  /** The size with its alignment wraps around to something that seems to fit. */
  predicate Overflows(allocPtr: nat, remaining: nat, bytes: nat) {
    bytes + Slop(allocPtr) >= TWO64 && bytes + Slop(allocPtr) - TWO64 <= remaining
  }

  lemma NeededIsExact(needed: nat)
    requires needed < TWO64 + ALIGN
    ensures U64(needed) == if needed < TWO64 then needed else needed - TWO64
  {
  }

  /** Then the range that is returned is in no block. */
  lemma OverflowLeavesBlocks(blocks: seq<Range>, allocPtr: nat, remaining: nat, bytes: nat)
    requires bytes < TWO64 && Overflows(allocPtr, remaining, bytes)
    requires InAddressSpace(blocks)
    ensures U64(bytes + Slop(allocPtr)) <= remaining
    ensures !Within(Range(allocPtr + Slop(allocPtr), bytes), blocks)
  {
    NeededIsExact(bytes + Slop(allocPtr));
    hide U64;
  }

  class Arena {
    var allocPtr: nat
    var remaining: nat
    var blocks: seq<Range>
    var memoryUsage: nat
    /** Every non-empty range that was given out. */
    ghost var given: seq<Range>
    /** What was left of each standard block that another one replaced. */
    ghost var wasted: seq<nat>

    ghost function Free(): Range
      reads this
    {
      Range(allocPtr, remaining)
    }

    ghost predicate Valid()
      reads this
    {
      && Good(blocks, given, Free()) && InAddressSpace(blocks) && memoryUsage == Usage(blocks)
      && forall i :: 0 <= i < |wasted| ==> wasted[i] <= MAX_WASTE
    }

    constructor ()
      ensures Valid() && blocks == [] && given == [] && Free() == Range(0, 0)
    {
      allocPtr, remaining, blocks, memoryUsage, given, wasted := 0, 0, [], 0, [], [];
    }

    method MemoryUsage() returns (usage: nat)
      requires Valid()
      ensures usage == Usage(blocks)
    {
      usage := memoryUsage;
    }

    method AllocateNewBlock(blockBytes: nat, p: nat) returns (result: nat)
      requires Valid() && Fresh(p, blockBytes, blocks)
      modifies this`blocks, this`memoryUsage
      ensures Valid() && result == p && blocks == old(blocks) + [Range(p, blockBytes)]
    {
      hide Good, ApartFrom;
      NewBlock(blocks, given, Free(), Range(p, blockBytes));
      result := p;
      blocks := blocks + [Range(p, blockBytes)];
      assert blocks[..|blocks| - 1] == old(blocks);
      memoryUsage := memoryUsage + blockBytes + WORD_SIZE;
    }

    /** A request that the current block cannot serve: a large one gets a block of its own, and a
        small one the first bytes of a new standard block, which replaces the current one. */
    method AllocateFallBack(bytes: nat, p: nat) returns (result: nat)
      requires Valid() && Fresh(p, BlockFor(bytes), blocks)
      requires bytes <= BLOCK_SIZE / 4 ==> remaining <= MAX_WASTE
      modifies this
      ensures Valid() && result == p && given == Given(old(given), Range(result, bytes))
      ensures blocks == old(blocks) + [Range(p, BlockFor(bytes))]
      ensures if bytes > BLOCK_SIZE / 4 then Free() == old(Free()) && wasted == old(wasted)
              else Free() == Range(p + bytes, BLOCK_SIZE - bytes) && wasted == old(wasted) + [old(remaining)]
    {
      hide Good, ApartFrom, Usage;
      if bytes > BLOCK_SIZE / 4 {
        NewBlock(blocks, given, Free(), Range(p, bytes));
        result := AllocateNewBlock(bytes, p);
        given := Given(given, Range(result, bytes));
        return;
      }
      wasted := wasted + [remaining];
      NewBlock(blocks, given, Free(), Range(p, BLOCK_SIZE));
      allocPtr := AllocateNewBlock(BLOCK_SIZE, p);
      remaining := BLOCK_SIZE;
      result := allocPtr;
      TakeFree(blocks, given, Free(), 0, bytes);
      given := Given(given, Range(result, bytes));
      allocPtr := allocPtr + bytes;
      remaining := remaining - bytes;
    }

    method Allocate(bytes: nat, p: nat) returns (result: nat)
      requires Valid() && 0 < bytes < TWO64
      requires bytes > remaining ==> Fresh(p, BlockFor(bytes), blocks)
      modifies this
      ensures Valid() && given == old(given) + [Range(result, bytes)]
      ensures bytes <= old(remaining) ==>
        && result == old(allocPtr) && blocks == old(blocks) && wasted == old(wasted)
        && Free() == old(Cut(Free(), bytes))
      ensures bytes > old(remaining) ==> result == p && blocks == old(blocks) + [Range(p, BlockFor(bytes))]
      ensures bytes > old(remaining) ==>
        && Free() == (if bytes > BLOCK_SIZE / 4 then old(Free()) else Range(p + bytes, BLOCK_SIZE - bytes))
        && wasted == old(wasted) + (if bytes > BLOCK_SIZE / 4 then [] else [old(remaining)])
    {
      hide Good, ApartFrom, Usage;
      if bytes <= remaining {
        TakeFree(blocks, given, Free(), 0, bytes);
        result := allocPtr;
        given := Given(given, Range(result, bytes));
        allocPtr := allocPtr + bytes;
        remaining := remaining - bytes;
        return;
      }
      result := AllocateFallBack(bytes, p);
    }

    /** Aligned, and like Allocate unless the size wraps around; then the range that is returned
        is in no block, and the arena stays as good as it was. */
    method AllocateAligned(bytes: nat, p: nat) returns (result: nat)
      requires Valid() && bytes < TWO64
      requires U64(bytes + Slop(allocPtr)) > remaining ==> Fresh(p, BlockFor(bytes), blocks)
      modifies this
      ensures Valid() && result % ALIGN == 0
      ensures !old(Overflows(allocPtr, remaining, bytes)) ==> given == Given(old(given), Range(result, bytes))
      ensures bytes + old(Slop(allocPtr)) <= old(remaining) && !old(Overflows(allocPtr, remaining, bytes)) ==>
        && result == old(allocPtr + Slop(allocPtr)) && blocks == old(blocks) && wasted == old(wasted)
        && Free() == old(Cut(Free(), bytes + Slop(allocPtr)))
      ensures bytes + old(Slop(allocPtr)) > old(remaining) && !old(Overflows(allocPtr, remaining, bytes)) ==>
        && result == p && blocks == old(blocks) + [Range(p, BlockFor(bytes))]
        && Free() == (if bytes > BLOCK_SIZE / 4 then old(Free()) else Range(p + bytes, BLOCK_SIZE - bytes))
        && wasted == old(wasted) + (if bytes > BLOCK_SIZE / 4 then [] else [old(remaining)])
      ensures old(Overflows(allocPtr, remaining, bytes)) ==>
        given == old(given) && blocks == old(blocks) && !Within(Range(result, bytes), blocks)
    {
      hide Good, ApartFrom, Usage, U64;
      var slop := Slop(allocPtr);
      NeededIsExact(bytes + slop);
      var needed := U64(bytes + slop);
      if needed <= remaining {
        if Overflows(allocPtr, remaining, bytes) {
          OverflowLeavesBlocks(blocks, allocPtr, remaining, bytes);
          SkipFree(blocks, given, Free(), needed);
        } else {
          TakeFree(blocks, given, Free(), slop, bytes);
          given := Given(given, Range(allocPtr + slop, bytes));
        }
        result := allocPtr + slop;
        allocPtr := allocPtr + needed;
        remaining := remaining - needed;
      } else {
        result := AllocateFallBack(bytes, p);
      }
    }
  }

  /** An arena in which the next request wraps around. */
  method OverflowIsReached() returns (arena: Arena)
    ensures arena.Valid() && Overflows(arena.allocPtr, arena.remaining, TWO64 - 7)
  {
    arena := new Arena();
    var first := arena.Allocate(1, 8);
  }

  /** The largest request but one that gets a block of its own, and one that does not: the sizes of
      the blocks, what is left, and the memory that is counted. */
  method TwoBlocks() returns (arena: Arena, usage: nat)
    ensures arena.Valid() && arena.blocks == [Range(8, 1025), Range(8192, 4096)]
    ensures arena.Free() == Range(9216, 3072) && arena.given == [Range(8, 1025), Range(8192, 1024)]
    ensures usage == 1025 + 8 + 4096 + 8
  {
    arena := new Arena();
    var first := arena.Allocate(1025, 8);
    assert arena.blocks == [Range(8, 1025)];
    var second := arena.Allocate(1024, 8192);
    assert arena.blocks == [Range(8, 1025), Range(8192, 4096)];
    usage := arena.MemoryUsage();
    assert arena.blocks[..1] == [Range(8, 1025)] && arena.blocks[..1][..0] == [];
  }
}
